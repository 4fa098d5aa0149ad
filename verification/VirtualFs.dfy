/** The virtual file system: dispatch from descriptors to the two file systems. */
module VirtualFs {
  import opened Bytes
  import opened OpenFiles
  import opened OpenFileRuns
  import opened FileResults
  import opened FileSystems
  import opened ScreenText

  class Vfs {
    const ram: RamFileSystem
    const dev: DeviceFileSystem
    const openFiles: array<OpenFile>
    var fsList: seq<Registered>

    ghost function View(): Tables
      reads this, openFiles, ram.handles, dev.handles
    {
      Tables(fsList, openFiles[..], ram.handles[..], dev.handles[..])
    }

    ghost predicate Valid()
      reads this, openFiles, ram.handles, dev.handles
      reads dev.keyboard, dev.keyboard.kbuf, dev.screen, dev.screen.fb
    {
      ram.Valid() && dev.Valid() && Inv(ram.files, View())
    }

    /** `vfs_init`, after which both file systems register. */
    constructor (ram: RamFileSystem, dev: DeviceFileSystem)
      requires ram.Valid() && dev.Valid() && ram.handles[..] == Initial().ram && dev.handles[..] == Initial().dev
      ensures Valid() && fresh(openFiles) && this.ram == ram && this.dev == dev && View() == Initial()
    {
      this.ram, this.dev := ram, dev;
      fsList := [];
      openFiles := new OpenFile[MAX_OPEN_FILES](i => CLOSED);
      new;
      openFiles[0] := OpenFile(None, 0, 0, 1, 1);
      openFiles[1] := OpenFile(None, 0, 0, 2, 1);
      openFiles[2] := OpenFile(None, 0, 0, 2, 1);
      fsList := [Registered("ramfs", RamFs)];
      fsList := [Registered("devfs", DevFs)] + fsList;
      assert openFiles[..] == Initial().fds;
      InitialInv(ram.files);
    }

    /** `vfs_register_fs` */
    method Register(name: Option<string>, ops: Option<FsType>, memory: bool) returns (r: int)
      requires Valid()
      modifies this`fsList
      ensures Valid() && (r, View()) == OpenFiles.Register(old(View()), name, ops, memory)
    {
      if name.None? || ops.None? { return EINVAL; }
      if !memory { return ENOMEM; }
      var added := [Registered(Cut(name.value), ops.value)] + fsList;
      RegisterKeeps(ram.files, View(), added);
      fsList := added;
      r := 0;
    }

    /** `vfs_find_registered`, for the name that `vfs_resolve_fs` chooses. */
    method ResolveFs(path: string) returns (fs: Option<FsType>)
      ensures fs == Resolve(fsList, path)
    {
      var name := if "/dev/" <= path then "devfs" else "ramfs";
      var list := fsList;
      while list != [] && list[0].name != name
        invariant FindFs(list, name) == FindFs(fsList, name)
        decreases |list|
      {
        list := list[1..];
      }
      fs := if list == [] then None else Some(list[0].ops);
    }

    /** `vfs_open` */
    method Open(path: Option<string>, flags: int) returns (r: int)
      requires Valid()
      modifies openFiles, ram.handles, dev.handles
      ensures Valid() && (r, View()) == OpenFiles.Open(ram.files, old(View()), path, flags)
      ensures r >= 0 ==> path != None && OnNamed(ram.files, View(), r, path.value)
    {
      if path != None { OpenNames(ram.files, View(), path.value, flags); }
      StepKeeps(ram.files, View(), DoOpen(path, flags));
      if path.None? { return EINVAL; }
      var fs := ResolveFs(path.value);
      if fs.None? { return ENOENT; }
      var fd := 3;
      while fd < MAX_OPEN_FILES && openFiles[fd].refCount != 0
        invariant 3 <= fd <= MAX_OPEN_FILES && FreeFd(openFiles[..], 3) == FreeFd(openFiles[..], fd)
      {
        fd := fd + 1;
      }
      if fd == MAX_OPEN_FILES { return EMFILE; }
      r := OpenAt(fs.value, fd, path.value, flags);
    }

    /** Ask the file system for a handle and put it in the descriptor `fd`. */
    method OpenAt(fs: FsType, fd: nat, path: string, flags: int) returns (r: int)
      requires ram.Valid() && dev.Valid() && fd < openFiles.Length
      modifies openFiles, ram.handles, dev.handles
      ensures ram.Valid() && dev.Valid()
      ensures var (h, t) := FsOpen(ram.files, old(View()), fs, path, flags);
              if h < 0 then r == h && View() == t
              else r == fd && View() == t.(fds := old(openFiles[..])[fd := OpenFile(Some(fs), h, 0, flags, 1)])
    {
      var result;
      match fs {
        case RamFs => result := ram.Open(path, flags);
        case DevFs => result := dev.Open(path);
      }
      if result < 0 { return result; }
      openFiles[fd] := OpenFile(Some(fs), result, 0, flags, 1);
      r := fd;
    }

    /** `vfs_close` */
    method Close(fd: int) returns (r: int)
      requires Valid()
      modifies openFiles, ram.handles, dev.handles
      ensures Valid() && (r, View()) == OpenFiles.Close(old(View()), fd)
    {
      StepKeeps(ram.files, View(), DoClose(fd));
      if fd < 0 || fd >= MAX_OPEN_FILES || openFiles[fd].refCount == 0 { return EBADF; }
      var f := openFiles[fd];
      openFiles[fd] := f.(refCount := f.refCount - 1);
      if f.refCount - 1 > 0 { return 0; }
      if f.fs.Some? {
        var _ := CloseHandle(f.fs.value, f.handle);
      }
      openFiles[fd] := CLOSED;
      assert openFiles[..] == old(openFiles[..])[fd := CLOSED];
      r := 0;
    }

    method CloseHandle(ops: FsType, handle: nat) returns (r: int)
      requires ram.Valid() && dev.Valid()
      modifies ram.handles, dev.handles
      ensures ram.Valid() && dev.Valid()
      ensures ops.RamFs? ==>
          ram.handles[..] == RamClose(old(ram.handles[..]), handle).1 && dev.handles[..] == old(dev.handles[..])
      ensures ops.DevFs? ==>
          dev.handles[..] == DevClose(old(dev.handles[..]), handle).1 && ram.handles[..] == old(ram.handles[..])
    {
      match ops {
        case RamFs => r := ram.Close(handle);
        case DevFs => r := dev.Close(handle);
      }
    }

    /** `vfs_read`: from a file of the RAM file system the bytes at its position, from the console the
        characters typed, from the zero device zeros. */
    method Read(fd: int, count: uint32) returns (r: int, buf: seq<Byte>)
      requires Valid()
      modifies openFiles, ram.handles, dev.keyboard
      ensures Valid() && (r, View()) == OpenFiles.Read(ram.files, old(View()), fd, count, old(dev.keyboard.Contents()))
      ensures old(ReadsRam(fd)) ==>
                var h := old(View()).ram[old(View()).fds[fd].handle];
                var data := ram.files[h.file].data;
                && |buf| == ReadCount(h.pos, |data|, count)
                && (h.pos + |buf| <= |data| ==> buf == data[h.pos..h.pos + |buf|])
      ensures if old(ReadsDevice(fd, CONSOLE)) then
                buf == old(dev.keyboard.Contents())[..r] && dev.keyboard.Contents() == old(dev.keyboard.Contents())[r..]
              else dev.keyboard.Contents() == old(dev.keyboard.Contents())
      ensures old(ReadsDevice(fd, ZERO_DEVICE)) ==> |buf| == count && forall i | 0 <= i < |buf| :: buf[i] == 0
    {
      buf := [];
      StepKeeps(ram.files, View(), DoRead(fd, count, dev.keyboard.Contents()));
      if fd < 0 || fd >= MAX_OPEN_FILES || openFiles[fd].refCount == 0 { return EBADF, []; }
      var f := openFiles[fd];
      if f.flags % 2 == 0 && f.flags % 4 == 0 { return EACCES, []; }
      if f.fs.None? { return EIO, []; }
      match f.fs.value {
        case RamFs => r, buf := ram.Read(f.handle, count);
        case DevFs => r, buf := dev.Read(f.handle, count);
      }
      Step(fd, r);
    }

    /** Move the position kept in the descriptor by a positive result. */
    method Step(fd: nat, r: int)
      requires fd < openFiles.Length && ram.Valid() && dev.Valid()
      modifies openFiles
      ensures ram.Valid() && dev.Valid() && View() == Advance(old(View()), fd, r)
    {
      if r > 0 {
        openFiles[fd] := openFiles[fd].(pos := Word(openFiles[fd].pos + r));
      }
    }

    /** A read of `fd` reaches the RAM file system, or a device. */
    ghost predicate ReadsRam(fd: int)
      reads this, openFiles, ram.handles, dev.handles
    {
      && Live(View(), fd) && !ReadDenied(openFiles[fd].flags) && openFiles[fd].fs == Some(RamFs)
      && RamOk(ram.files, ram.handles[..], openFiles[fd].handle)
    }

    ghost predicate ReadsDevice(fd: int, device: nat)
      reads this, openFiles, ram.handles, dev.handles
    {
      && Live(View(), fd) && !ReadDenied(openFiles[fd].flags) && openFiles[fd].fs == Some(DevFs)
      && openFiles[fd].handle < dev.handles.Length && dev.handles[openFiles[fd].handle] == device
    }

    /** A write to `fd` reaches the screen. */
    ghost predicate WritesScreen(fd: int)
      reads this, openFiles, ram.handles, dev.handles
    {
      && Live(View(), fd) && !WriteDenied(openFiles[fd].flags)
      && (fd == 1 || fd == 2
          || (openFiles[fd].fs == Some(DevFs) && openFiles[fd].handle < dev.handles.Length
              && dev.handles[openFiles[fd].handle] == CONSOLE))
    }

    /** `vfs_write`: standard output and the console go to the screen, character by character. */
    method Write(fd: int, buf: seq<Byte>) returns (r: int)
      requires Valid() && |buf| < TWO32
      modifies openFiles, dev.screen`cursor, dev.screen`low, dev.screen`high, dev.screen.fb
      ensures Valid() && (r, View()) == OpenFiles.Write(old(View()), fd, |buf|)
      ensures dev.screen.View() == if old(WritesScreen(fd)) then PutAll(old(dev.screen.View()), buf,
          Attr(dev.screen.fg, dev.screen.bg))
                                   else old(dev.screen.View())
    {
      StepKeeps(ram.files, View(), DoWrite(fd, |buf|));
      if fd < 0 || fd >= MAX_OPEN_FILES || openFiles[fd].refCount == 0 { return EBADF; }
      var f := openFiles[fd];
      if f.flags / 2 % 2 == 0 && f.flags % 4 == 0 { return EACCES; }
      if fd == 1 || fd == 2 {
        dev.Show(buf);
        return Int32(|buf|);
      }
      if f.fs.None? { return EIO; }
      if f.fs.value.RamFs? { return EACCES; }
      r := dev.Write(f.handle, buf);
      Step(fd, r);
    }

    /** `vfs_seek` */
    method Seek(fd: int, offset: int, whence: int) returns (r: int)
      requires Valid()
      modifies ram.handles
      ensures Valid() && (r, View()) == OpenFiles.Seek(ram.files, old(View()), fd, offset, whence)
    {
      StepKeeps(ram.files, View(), DoSeek(fd, offset, whence));
      if fd < 0 || fd >= MAX_OPEN_FILES || openFiles[fd].refCount == 0 { return EBADF; }
      var f := openFiles[fd];
      if f.fs.None? { return EIO; }
      if f.fs.value.DevFs? { return EINVAL; }
      r := ram.Seek(f.handle, offset, whence);
    }
  }
}
