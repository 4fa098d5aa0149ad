/** The keyboard's ring buffer.  It never checks for being full, so what it keeps
    after an overflow needs saying. */
module Keyboard {
  import opened Bytes

  const KBUF_SIZE: nat := 256

  /** ASCII codes of the keys, by scan code. */
  const NORMAL_MAP: seq<Byte> :=
    [0, 0, 49, 50, 51, 52, 53, 54, 55, 56, 57, 48, 45, 61, 8]
    + [9, 113, 119, 101, 114, 116, 121, 117, 105, 111, 112, 91, 93, 10]
    + [0, 97, 115, 100, 102, 103, 104, 106, 107, 108, 59, 39, 96, 0]
    + [92, 122, 120, 99, 118, 98, 110, 109, 44, 46, 47, 0, 42, 0, 32]

  /** `scancode_to_char`: 0 for a key release and for a key without a character. */
  function ScancodeToChar(sc: Byte): Byte
  {
    if sc >= 0x80 then 0
    else if sc == 0x0E then 8
    else if sc == 0x1C then 10
    else if sc as int < |NORMAL_MAP| then NORMAL_MAP[sc] else 0
  }

  /** Bytes the keyboard sends that are not keys. */
  predicate IsResponse(sc: Byte)
  {
    sc == 0xFA || sc == 0xAA || sc == 0 || sc == 0xFF
  }

  /** Key `sc` is one of those whose codes are consecutive from `first` on, and `c` is what is printed on it. */
  predicate InRow(sc: Byte, c: Byte, first: int, keys: string)
  {
    first <= sc as int < first + |keys| && c as int == keys[sc as int - first] as int
  }

  /** The keyboard row by row, and backspace, tab and enter: pressing the key `sc` types `c`. */
  predicate Types(sc: Byte, c: Byte)
  {
    || InRow(sc, c, 0x02, "1234567890-=")
    || InRow(sc, c, 0x10, "qwertyuiop[]")
    || InRow(sc, c, 0x1E, "asdfghjkl;'`")
    || InRow(sc, c, 0x2B, "\\zxcvbnm,./")
    || InRow(sc, c, 0x37, "*")
    || InRow(sc, c, 0x39, " ")
    || (sc == 0x0E && c == 8) || (sc == 0x0F && c == 9) || (sc == 0x1C && c == 10)
  }

  lemma Rows()
    ensures forall i | 0 <= i < 12 :: NORMAL_MAP[0x02 + i] as int == "1234567890-="[i] as int
    ensures forall i | 0 <= i < 12 :: NORMAL_MAP[0x10 + i] as int == "qwertyuiop[]"[i] as int
    ensures forall i | 0 <= i < 12 :: NORMAL_MAP[0x1E + i] as int == "asdfghjkl;'`"[i] as int
    ensures forall i | 0 <= i < 11 :: NORMAL_MAP[0x2B + i] as int == "\\zxcvbnm,./"[i] as int
  {
  }

  lemma FirstRow(sc: Byte, c: Byte)
    requires sc < 0x10 && c != 0
    ensures ScancodeToChar(sc) == c <==> Types(sc, c)
  {
    Rows();
  }

  lemma SecondRow(sc: Byte, c: Byte)
    requires 0x10 <= sc < 0x1E && c != 0
    ensures ScancodeToChar(sc) == c <==> Types(sc, c)
  {
    Rows();
  }

  lemma ThirdRow(sc: Byte, c: Byte)
    requires 0x1E <= sc < 0x2B && c != 0
    ensures ScancodeToChar(sc) == c <==> Types(sc, c)
  {
    Rows();
  }

  lemma FourthRow(sc: Byte, c: Byte)
    requires 0x2B <= sc && c != 0
    ensures ScancodeToChar(sc) == c <==> Types(sc, c)
  {
    Rows();
  }

  /** The conversion gives every key its character, and nothing to any other code; those from 0x80 on are
      the releases. */
  lemma KeyMeaning(sc: Byte, c: Byte)
    ensures c != 0 ==> (ScancodeToChar(sc) == c <==> Types(sc, c))
    ensures Types(sc, c) ==> c != 0 && sc < 0x80
  {
    if c != 0 {
      if sc < 0x10 { FirstRow(sc, c); }
      else if sc < 0x1E { SecondRow(sc, c); }
      else if sc < 0x2B { ThirdRow(sc, c); }
      else { FourthRow(sc, c); }
    }
  }

  /** So a key types what the conversion gives, and nothing if that is 0. */
  lemma KeyTypes(sc: Byte)
    ensures forall c :: Types(sc, c) <==> c != 0 && ScancodeToChar(sc) == c
    ensures sc >= 0x80 || IsResponse(sc) ==> ScancodeToChar(sc) == 0
  {
    forall c: Byte
      ensures Types(sc, c) <==> c != 0 && ScancodeToChar(sc) == c
    {
      KeyMeaning(sc, c);
    }
  }

  /** Every character comes from one key. */
  lemma OneKey(a: Byte, b: Byte, c: Byte)
    requires Types(a, c) && Types(b, c)
    ensures a == b
  {
    if a < b { Apart(a, b, c); }
    if b < a { Apart(b, a, c); }
  }

  lemma Apart(a: Byte, b: Byte, c: Byte)
    requires a < b && Types(a, c)
    ensures !Types(b, c)
  {
    if a < 0x10 { ApartFirst(a, b, c); }
    else if a < 0x1E { ApartSecond(a, b, c); }
    else { ApartThird(a, b, c); }
  }

  lemma ApartFirst(a: Byte, b: Byte, c: Byte)
    requires a < b && a < 0x10 && Types(a, c)
    ensures !Types(b, c)
  {
  }

  lemma ApartSecond(a: Byte, b: Byte, c: Byte)
    requires 0x10 <= a < b && a < 0x1E && Types(a, c)
    ensures !Types(b, c)
  {
  }

  lemma ApartThird(a: Byte, b: Byte, c: Byte)
    requires 0x1E <= a < b && Types(a, c)
    ensures !Types(b, c)
  {
  }

  function Last(s: seq<Byte>, n: nat): (t: seq<Byte>)
    requires n <= |s|
    ensures |t| == n && forall i | 0 <= i < n :: t[i] == s[|s| - n + i]
  {
    s[|s| - n..]
  }

  /** What can be read after the characters `stored` have come in and `gets` have been read. */
  function Readable(stored: seq<Byte>, gets: nat): seq<Byte>
    requires gets <= |stored|
  {
    Last(stored, (|stored| - gets) % KBUF_SIZE)
  }

  // ----- the ring as a queue

  datatype Op = Store(c: Byte) | Get

  /** A queue that holds 255 characters and is emptied by the 256th. */
  function Apply(q: seq<Byte>, op: Op): (r: seq<Byte>)
    requires |q| < KBUF_SIZE
    ensures |r| < KBUF_SIZE
  {
    match op
    case Store(c) => if |q| == KBUF_SIZE - 1 then [] else q + [c]
    case Get => if q == [] then [] else q[1..]
  }

  function ApplyAll(ops: seq<Op>): (q: seq<Byte>)
    ensures |q| < KBUF_SIZE
  {
    if ops == [] then [] else Apply(ApplyAll(ops[..|ops| - 1]), ops[|ops| - 1])
  }

  function Stores(ops: seq<Op>): seq<Byte>
  {
    if ops == [] then []
    else Stores(ops[..|ops| - 1]) + StoredBy(ops[|ops| - 1])
  }

  function StoredBy(op: Op): seq<Byte>
  {
    match op
    case Store(c) => [c]
    case Get => []
  }

  /** The reads that found a character. */
  function Gets(ops: seq<Op>): nat
  {
    if ops == [] then 0
    else Gets(ops[..|ops| - 1]) + (if ops[|ops| - 1].Get? && ApplyAll(ops[..|ops| - 1]) != [] then 1 else 0)
  }

  lemma ModStep(a: nat)
    ensures (a + 1) % KBUF_SIZE == if a % KBUF_SIZE == KBUF_SIZE - 1 then 0 else a % KBUF_SIZE + 1
    ensures a > 0 ==> (a - 1) % KBUF_SIZE == if a % KBUF_SIZE == 0 then KBUF_SIZE - 1 else a % KBUF_SIZE - 1
    ensures a % KBUF_SIZE <= a
  {
  }

  /** One more character: it is appended, or everything is lost. */
  lemma StoreReadable(stored: seq<Byte>, gets: nat, c: Byte)
    requires gets <= |stored|
    ensures Readable(stored + [c], gets) == Apply(Readable(stored, gets), Store(c))
  {
    ModStep(|stored| - gets);
  }

  lemma GetReadable(stored: seq<Byte>, gets: nat)
    requires gets <= |stored| && Readable(stored, gets) != []
    ensures gets < |stored| && Readable(stored, gets + 1) == Readable(stored, gets)[1..]
  {
    ModStep(|stored| - gets);
  }

  /** The ring law: after any interleaving of stores and reads, what is left to read is the most recent
      (H - T) mod 256 characters, in order, where H were stored and T read. */
  lemma {:induction false} RingLaw(ops: seq<Op>)
    ensures Gets(ops) <= |Stores(ops)|
    ensures ApplyAll(ops) == Readable(Stores(ops), Gets(ops))
  {
    if ops != [] {
      var before, op := ops[..|ops| - 1], ops[|ops| - 1];
      RingLaw(before);
      RingStep(Stores(before), Gets(before), op);
    }
  }

  lemma RingStep(stored: seq<Byte>, gets: nat, op: Op)
    requires gets <= |stored|
    ensures var s, g := stored + StoredBy(op), gets + (if op.Get? && Readable(stored, gets) != [] then 1 else 0);
            g <= |s| && Apply(Readable(stored, gets), op) == Readable(s, g)
  {
    match op
    case Store(c) => StoreReadable(stored, gets, c);
    case Get =>
      assert stored + [] == stored;
      if Readable(stored, gets) != [] {
        GetReadable(stored, gets);
      }
  }

  /** It is a plain queue, which loses nothing, exactly as long as at most 255 characters are pending. */
  lemma PlainQueue(ops: seq<Op>)
    ensures Gets(ops) <= |Stores(ops)|
    ensures ApplyAll(ops) == Stores(ops)[Gets(ops)..] <==> |Stores(ops)| - Gets(ops) < KBUF_SIZE
  {
    RingLaw(ops);
    PlainReadable(Stores(ops), Gets(ops));
  }

  lemma PlainReadable(stored: seq<Byte>, gets: nat)
    requires gets <= |stored|
    ensures Readable(stored, gets) == stored[gets..] <==> |stored| - gets < KBUF_SIZE
  {
    SmallRemainder(|stored| - gets);
    assert |Readable(stored, gets)| == (|stored| - gets) % KBUF_SIZE;
    assert |stored[gets..]| == |stored| - gets;
  }

  lemma SmallRemainder(a: nat)
    ensures a % KBUF_SIZE == a <==> a < KBUF_SIZE
  {
  }

  /** The buffer holds the last 256 characters, each in its slot. */
  ghost predicate Holds(kbuf: seq<Byte>, stored: seq<Byte>)
  {
    && |kbuf| == KBUF_SIZE
    && forall i | 0 <= i < |stored| && |stored| - KBUF_SIZE <= i :: kbuf[i % KBUF_SIZE] == stored[i]
  }

  lemma OldestSlot(kbuf: seq<Byte>, stored: seq<Byte>, gets: nat)
    requires Holds(kbuf, stored) && gets <= |stored| && Readable(stored, gets) != []
    ensures kbuf[gets % KBUF_SIZE] == Readable(stored, gets)[0]
  {
    SameSlot(|stored|, gets);
    var i := |stored| - (|stored| - gets) % KBUF_SIZE;
    assert kbuf[i % KBUF_SIZE] == stored[i];
  }

  lemma NewestSlot(kbuf: seq<Byte>, stored: seq<Byte>, c: Byte)
    requires Holds(kbuf, stored)
    ensures Holds(kbuf[|stored| % KBUF_SIZE := c], stored + [c])
  {
    Next(|stored|);
  }

  lemma Next(a: nat)
    ensures (a % KBUF_SIZE + 1) % KBUF_SIZE == (a + 1) % KBUF_SIZE
    ensures forall i | a - KBUF_SIZE < i < a && i >= 0 :: i % KBUF_SIZE != a % KBUF_SIZE
  {
  }

  lemma SameSlot(h: nat, t: nat)
    requires t <= h
    ensures h % KBUF_SIZE == t % KBUF_SIZE <==> (h - t) % KBUF_SIZE == 0
    ensures (h - (h - t) % KBUF_SIZE) % KBUF_SIZE == t % KBUF_SIZE
  {
  }

  /** The ring: characters come in at `head` and are read at `tail`. */
  class Ring {
    const kbuf: array<Byte>
    var head: nat
    var tail: nat
    ghost var stored: seq<Byte>
    ghost var gets: nat

    ghost predicate Valid()
      reads this, kbuf
    {
      && Holds(kbuf[..], stored) && gets <= |stored|
      && head == |stored| % KBUF_SIZE && tail == gets % KBUF_SIZE
      && (forall i | 0 <= i < |stored| :: stored[i] != 0)
    }

    ghost function Contents(): seq<Byte>
      reads this, kbuf
      requires Valid()
    {
      Readable(stored, gets)
    }

    constructor ()
      ensures Valid() && fresh(kbuf) && Contents() == []
    {
      kbuf := new Byte[KBUF_SIZE](i => 0);
      head, tail, stored, gets := 0, 0, [], 0;
    }

    /** `keyboard_input_handler` */
    method Input(sc: Byte)
      requires Valid()
      modifies this, kbuf
      ensures Valid() && gets == old(gets)
      ensures var c := if IsResponse(sc) then 0 else ScancodeToChar(sc);
              && stored == (if c == 0 then old(stored) else old(stored) + [c])
              && Contents() == (if c == 0 then old(Contents()) else Apply(old(Contents()), Store(c)))
      // what that means: a key types its character; a release, or any code that is no key, changes nothing
      ensures sc >= 0x80 ==> Contents() == old(Contents())
      ensures forall c | Types(sc, c) :: Contents() == Apply(old(Contents()), Store(c))
      ensures (forall c :: !Types(sc, c)) ==> Contents() == old(Contents())
    {
      KeyTypes(sc);
      if IsResponse(sc) { return; }
      var c := ScancodeToChar(sc);
      if c != 0 {
        assert Types(sc, c);
        Keep(c);
      }
    }

    /** Store the character at `head`. */
    method Keep(c: Byte)
      requires Valid() && c != 0
      modifies this, kbuf
      ensures Valid() && gets == old(gets) && stored == old(stored) + [c]
      ensures Contents() == Apply(old(Contents()), Store(c))
    {
      StoreReadable(stored, gets, c);
      NewestSlot(kbuf[..], stored, c);
      Next(|stored|);
      kbuf[head] := c;
      head := (head + 1) % KBUF_SIZE;
      stored := stored + [c];
    }

    /** `keyboard_get_char`: the oldest readable character, or 0 exactly when there is none. */
    method GetChar() returns (c: Byte)
      requires Valid()
      modifies this
      ensures Valid() && stored == old(stored)
      ensures Contents() == Apply(old(Contents()), Get)
      ensures if old(Contents()) == [] then c == 0 && gets == old(gets) else
          c == old(Contents())[0] && c != 0 && gets == old(gets) + 1
    {
      SameSlot(|stored|, gets);
      if head == tail { return 0; }
      OldestSlot(kbuf[..], stored, gets);
      GetReadable(stored, gets);
      Next(gets);
      c := kbuf[tail];
      tail := (tail + 1) % KBUF_SIZE;
      gets := gets + 1;
    }
  }
}
