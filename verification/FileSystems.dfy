/** The two file systems and the virtual file system over them, with their tables
    updated in place. */
module FileSystems {
  import opened Bytes
  import opened OpenFiles
  import opened OpenFileRuns
  import opened FileResults
  import opened Keyboard
  import opened ScreenText
  import opened Display

  class RamFileSystem {
    const files: seq<File>
    const handles: array<RamHandle>

    ghost predicate Valid()
      reads handles
    {
      Sized(files) && handles.Length == MAX_OPEN_FILES && HandlesInRange(files, handles[..])
    }

    /** `ramfs_init`, with the files it makes of the modules. */
    constructor (files: seq<File>)
      requires Sized(files)
      ensures Valid() && fresh(handles) && this.files == files && handles[..] == Initial().ram
    {
      this.files := files;
      handles := new RamHandle[MAX_OPEN_FILES](i => Free);
      new;
      assert handles[..] == Initial().ram;
    }

    /** `ramfs_find_file` */
    method Find(path: string) returns (file: nat)
      ensures file == FindFile(files, path)
      ensures if file < |files| then Names(files, path, file) else forall f: nat :: !Names(files, path, f)
    {
      FindMeaning(files, path);
      var name := path;
      while name != [] && name[0] == '/'
        invariant SkipSlashes(name) == SkipSlashes(path)
        decreases |name|
      {
        name := name[1..];
      }
      file := 0;
      while file < |files| && files[file].name != name
        invariant file <= |files| && FindFrom(files, name, 0) == FindFrom(files, name, file)
      {
        file := file + 1;
      }
    }

    /** `ramfs_open` */
    method Open(path: string, flags: int) returns (r: int)
      requires Valid()
      modifies handles
      ensures Valid() && (r, handles[..]) == RamOpen(files, old(handles[..]), path, flags)
      ensures r == ENOENT <==> forall f: nat :: !Names(files, path, f)
      ensures r >= 0 ==>
                exists f: nat :: Names(files, path, f) && handles[..] == old(handles[..])[r := Reading(f, 0)]
    {
      var file := Find(path);
      if file == |files| { return ENOENT; }
      if WantsWrite(flags) && !Writable(files[file].mode) { return EACCES; }
      var handle := 0;
      while handle < MAX_OPEN_FILES && handles[handle] != Free
        invariant handle <= MAX_OPEN_FILES && FreeRam(handles[..], 0) == FreeRam(handles[..], handle)
      {
        handle := handle + 1;
      }
      if handle == MAX_OPEN_FILES { return EMFILE; }
      handles[handle] := Reading(file, 0);
      r := handle;
    }

    /** `ramfs_close` */
    method Close(handle: int) returns (r: int)
      requires Valid()
      modifies handles
      ensures Valid() && (r, handles[..]) == RamClose(old(handles[..]), handle)
    {
      if handle < 0 || handle >= MAX_OPEN_FILES || handles[handle] == Free { return EBADF; }
      handles[handle] := Free;
      r := 0;
    }

    /** `ramfs_read`.  What it copies begins with the bytes of the file from the position on; if it
        copies more than the file has, the rest is whatever follows the file in memory. */
    method Read(handle: int, count: uint32) returns (r: int, buf: seq<Byte>)
      requires Valid()
      modifies handles
      ensures Valid() && (r, handles[..]) == RamRead(files, old(handles[..]), handle, count)
      ensures if RamOk(files, old(handles[..]), handle) then
                var h := old(handles[..])[handle];
                var data := files[h.file].data;
                && |buf| == ReadCount(h.pos, |data|, count) && Signed(r, |buf|)
                && (h.pos <= |data| ==>
                    buf[..Min(|buf|, |data| - h.pos)] == data[h.pos..h.pos + Min(|buf|, |data| - h.pos)])
              else buf == []
    {
      if handle < 0 || handle >= MAX_OPEN_FILES || handles[handle] == Free { return EBADF, []; }
      var h := handles[handle];
      var data := files[h.file].data;
      if h.pos >= |data| {
        assert handles[..][handle := h] == handles[..];
        return 0, [];
      }
      var toRead: uint32 := count;
      if (h.pos + toRead) % TWO32 > |data| {
        toRead := |data| - h.pos;
      }
      buf := Copy(data, h.pos, toRead);
      handles[handle] := Reading(h.file, (h.pos + toRead) % TWO32);
      r := if toRead < TWO31 then toRead else toRead - TWO32;
    }

    /** `memcpy` from a position of a file. */
    static method Copy(data: seq<Byte>, pos: nat, n: nat) returns (buf: seq<Byte>)
      requires pos <= |data|
      ensures |buf| == n && buf[..Min(n, |data| - pos)] == data[pos..pos + Min(n, |data| - pos)]
    {
      if pos + n <= |data| {
        buf := data[pos..pos + n];
      } else {
        var beyond: seq<Byte> := *;
        var rest := pos + n - |data|;
        if |beyond| < rest {
          beyond := seq(rest, i => 0);
        }
        buf := data[pos..] + beyond[..rest];
      }
    }

    /** `ramfs_seek` */
    method Seek(handle: int, offset: int, whence: int) returns (r: int)
      requires Valid()
      modifies handles
      ensures Valid() && (r, handles[..]) == RamSeek(files, old(handles[..]), handle, offset, whence)
    {
      if handle < 0 || handle >= MAX_OPEN_FILES || handles[handle] == Free { return EBADF; }
      var h := handles[handle];
      var size := |files[h.file].data|;
      var pos: uint32 := h.pos;
      if whence == 0 {
        pos := offset % TWO32;
      } else if whence == 1 {
        pos := (pos + offset) % TWO32;
      } else if whence == 2 {
        pos := (size + offset) % TWO32;
      } else {
        return EINVAL;
      }
      if pos > size { pos := size; }
      handles[handle] := Reading(h.file, pos);
      r := Int32(pos);
    }
  }

  class DeviceFileSystem {
    const handles: array<nat>
    const keyboard: Ring
    const screen: FrameBuffer

    ghost predicate Valid()
      reads handles, keyboard, keyboard.kbuf, screen, screen.fb
    {
      && handles.Length == MAX_OPEN_FILES && keyboard.Valid() && screen.Valid() && keyboard.kbuf != screen.fb
      && forall h | 0 <= h < MAX_OPEN_FILES :: handles[h] <= 3
    }

    /** `devfs_init` */
    constructor (keyboard: Ring, screen: FrameBuffer)
      requires keyboard.Valid() && screen.Valid() && keyboard.kbuf != screen.fb
      ensures Valid() && fresh(handles) && this.keyboard == keyboard && this.screen == screen
      ensures handles[..] == Initial().dev
    {
      this.keyboard, this.screen := keyboard, screen;
      handles := new nat[MAX_OPEN_FILES](i => 0);
      new;
      assert handles[..] == Initial().dev;
    }

    /** `devfs_open` */
    method Open(path: string) returns (r: int)
      requires Valid()
      modifies handles
      ensures Valid() && (r, handles[..]) == DevOpen(old(handles[..]), path)
      ensures r == ENOENT <==> forall d: nat :: !Device(path, d)
      ensures r >= 0 ==> exists d: nat :: Device(path, d) && handles[..] == old(handles[..])[r := d]
    {
      DevOpenMeaning(handles[..], path);
      var device := ResolveDevice(path);
      if device == 0 { return ENOENT; }
      var handle := 0;
      while handle < MAX_OPEN_FILES && handles[handle] != 0
        invariant handle <= MAX_OPEN_FILES && FreeDev(handles[..], 0) == FreeDev(handles[..], handle)
      {
        handle := handle + 1;
      }
      if handle == MAX_OPEN_FILES { return EMFILE; }
      handles[handle] := device;
      r := handle;
    }

    /** `devfs_close` */
    method Close(handle: int) returns (r: int)
      requires Valid()
      modifies handles
      ensures Valid() && (r, handles[..]) == DevClose(old(handles[..]), handle)
    {
      if handle < 0 || handle >= MAX_OPEN_FILES || handles[handle] == 0 { return EBADF; }
      handles[handle] := 0;
      r := 0;
    }

    /** The loop that reads the keyboard: up to `count` characters, up to a newline, up to what there is. */
    method ReadLine(count: nat) returns (buf: seq<Byte>)
      requires keyboard.Valid()
      modifies keyboard
      ensures keyboard.Valid()
      ensures var keys, n := old(keyboard.Contents()), Line(old(keyboard.Contents()), count);
              buf == keys[..n] && keyboard.Contents() == keys[n..]
    {
      ghost var keys := keyboard.Contents();
      buf := [];
      while |buf| < count
        invariant keyboard.Valid() && Took(keys, count, buf) && keyboard.Contents() == keys[|buf|..]
      {
        TookMore(keys, count, buf);
        var c := NextKey(keys, |buf|);
        if c == 0 { return; }
        buf := buf + [c];
        if c == 10 { return; }
      }
      TookMore(keys, count, buf);
    }

    /** `buf` is the beginning of the line that is to be read. */
    ghost predicate Took(keys: seq<Byte>, count: nat, buf: seq<Byte>)
    {
      |buf| <= |keys| && |buf| <= count && buf == keys[..|buf|] && LineEnd(keys, count, |buf|) == Line(keys, count)
    }

    lemma TookMore(keys: seq<Byte>, count: nat, buf: seq<Byte>)
      requires Took(keys, count, buf)
      ensures |buf| == |keys| || |buf| == count ==> |buf| == Line(keys, count)
      ensures |buf| < |keys| && |buf| < count ==>
                && buf + [keys[|buf|]] == keys[..|buf| + 1]
                && if keys[|buf|] == 10 then |buf| + 1 == Line(keys, count) else Took(keys, count, buf + [keys[|buf|]])
    {
    }

    /** The key after the first `n`, if there is one. */
    method NextKey(ghost keys: seq<Byte>, ghost n: nat) returns (c: Byte)
      requires keyboard.Valid() && n <= |keys| && keyboard.Contents() == keys[n..]
      modifies keyboard
      ensures keyboard.Valid()
      ensures n == |keys| ==> c == 0 && keyboard.Contents() == keys[n..]
      ensures n < |keys| ==> c != 0 && c == keys[n] && keyboard.Contents() == keys[n + 1..]
    {
      c := keyboard.GetChar();
    }

    /** `devfs_read` */
    method Read(handle: int, count: uint32) returns (r: int, buf: seq<Byte>)
      requires Valid()
      modifies keyboard
      ensures Valid() && r == DevRead(handles[..], handle, count, old(keyboard.Contents()))
      ensures if 0 <= handle < MAX_OPEN_FILES && handles[handle] == CONSOLE then
                buf == old(keyboard.Contents())[..r] && keyboard.Contents() == old(keyboard.Contents())[r..]
              else
                && keyboard.Contents() == old(keyboard.Contents())
                && (0 <= handle < MAX_OPEN_FILES && handles[handle] == NULL_DEVICE ==> r == 0 && buf == [])
                && (0 <= handle < MAX_OPEN_FILES && handles[handle] == ZERO_DEVICE ==>
                      Signed(r, count) && |buf| == count && forall i | 0 <= i < |buf| :: buf[i] == 0)
    {
      r, buf := EIO, [];
      if handle < 0 || handle >= MAX_OPEN_FILES || handles[handle] == 0 { return EBADF, []; }
      if handles[handle] == CONSOLE {
        buf := ReadLine(count);
        r := |buf|;
      } else if handles[handle] == NULL_DEVICE {
        r := 0;
      } else if handles[handle] == ZERO_DEVICE {
        buf := seq(count, i => 0);
        r := Int32(count);
      }
    }

    /** `fb_putchar` for every byte. */
    method Show(buf: seq<Byte>)
      requires screen.Valid()
      modifies screen`cursor, screen`low, screen`high, screen.fb
      ensures screen.Valid() && screen.View() == PutAll(old(screen.View()), buf, Attr(screen.fg, screen.bg))
    {
      var i := 0;
      while i < |buf|
        invariant i <= |buf| && screen.Valid()
        invariant screen.View() == PutAll(old(screen.View()), buf[..i], Attr(screen.fg, screen.bg))
      {
        var _ := screen.Write([buf[i]]);
        PutAppend(old(screen.View()), buf[..i], [buf[i]], Attr(screen.fg, screen.bg));
        i := i + 1;
        assert buf[..i] == buf[..i - 1] + [buf[i - 1]];
      }
      assert buf[..|buf|] == buf;
    }

    /** `devfs_write` */
    method Write(handle: int, buf: seq<Byte>) returns (r: int)
      requires Valid() && |buf| < TWO32
      modifies screen`cursor, screen`low, screen`high, screen.fb
      ensures Valid() && r == DevWrite(handles[..], handle, |buf|)
      ensures screen.View() == if 0 <= handle < MAX_OPEN_FILES && handles[handle] == CONSOLE
                               then PutAll(old(screen.View()), buf, Attr(screen.fg, screen.bg)) else old(screen.View())
    {
      if handle < 0 || handle >= MAX_OPEN_FILES || handles[handle] == 0 { return EBADF; }
      if handles[handle] == CONSOLE {
        Show(buf);
      }
      r := Int32(|buf|);
    }
  }
}
