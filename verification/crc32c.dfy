/** The table-driven checksum, against the bit-at-a-time definition of section 12.1 of RFC 3720. */
module Crc32c {
  /** The CRC32C polynomial, reflected. */
  const POLY: bv32 := 0x82F63B78
  const ALL_ONES: bv32 := 0xFFFF_FFFF

  /** What one bit does to the register. */
  type Step = bv32 -> bv32

  function Shift(c: bv32): bv32
  {
    if c & 1 == 1 then POLY ^ (c >> 1) else c >> 1
  }

  /** Eight steps, a byte's worth. */
  function Octet<T>(f: T -> T, c: T): T
  {
    f(f(f(f(f(f(f(f(c))))))))
  }

  function Fold<S, B>(feed: (S, B) -> S, c: S, bytes: seq<B>): S
    decreases |bytes|
  {
    if bytes == [] then c else Fold(feed, feed(c, bytes[0]), bytes[1..])
  }

  /** A byte enters the register, low bit first, one bit at a time. */
  function Feed(c: bv32, b: bv8): bv32
  {
    Octet(Shift, c ^ (b as bv32))
  }

  function Finish(c: bv32): bv32
  {
    c ^ ALL_ONES
  }

  /** The reference checksum. */
  function Checksum(bytes: seq<bv8>, initial: bv32): bv32
  {
    Finish(Fold(Feed, initial, bytes))
  }

  function Xor(a: bv32, b: bv32): bv32
  {
    a ^ b
  }

  ghost predicate Linear<T(!new)>(f: T -> T, add: (T, T) -> T)
  {
    forall a, b :: f(add(a, b)) == add(f(a), f(b))
  }

  /** Eight steps of a state whose low byte is zero just move it down. */
  ghost predicate MovesDown(f: Step)
  {
    forall c :: c & 0xFF == 0 ==> Octet(f, c) == c >> 8
  }

  lemma XorBits(a: bv32, b: bv32)
    ensures (a ^ b) >> 1 == (a >> 1) ^ (b >> 1)
    ensures (a ^ b) & 1 == (a & 1) ^ (b & 1)
    ensures a & 1 == 0 || a & 1 == 1
  {
  }

  lemma XorTwice(p: bv32, x: bv32, y: bv32)
    ensures (p ^ x) ^ y == p ^ (x ^ y) == x ^ (p ^ y)
    ensures (p ^ x) ^ (p ^ y) == x ^ y
  {
  }

  lemma ShiftLinear(a: bv32, b: bv32)
    ensures Shift(a ^ b) == Shift(a) ^ Shift(b)
  {
    XorBits(a, b);
    XorBits(b, a);
    XorTwice(POLY, a >> 1, b >> 1);
  }

  lemma ShiftIsLinear()
    ensures Linear(Shift, Xor)
  {
    forall a, b ensures Shift(Xor(a, b)) == Xor(Shift(a), Shift(b)) {
      ShiftLinear(a, b);
    }
  }

  lemma EvenShifts(c: bv32)
    requires c & 3 == 0
    ensures Shift(Shift(c)) == c >> 2
  {
    assert Shift(c) == c >> 1;
  }

  lemma FourShifts(c: bv32)
    requires c & 15 == 0
    ensures Shift(Shift(Shift(Shift(c)))) == c >> 4
  {
    EvenShifts(c);
    EvenShifts(c >> 2);
  }

  lemma ShiftMovesDown()
    ensures MovesDown(Shift)
  {
    forall c: bv32 | c & 0xFF == 0 ensures Octet(Shift, c) == c >> 8 {
      FourShifts(c);
      FourShifts(c >> 4);
    }
  }

  lemma OctetLinear<T(!new)>(f: T -> T, add: (T, T) -> T, a: T, b: T)
    requires Linear(f, add)
    ensures Octet(f, add(a, b)) == add(Octet(f, a), Octet(f, b))
  {
  }

  lemma LowAndHigh(c: bv32)
    ensures (c & 0xFF) ^ (c & 0xFFFF_FF00) == c
    ensures (c & 0xFFFF_FF00) & 0xFF == 0 && (c & 0xFFFF_FF00) >> 8 == c >> 8
  {
  }

  lemma ByteIsLow(c: bv32, b: bv8)
    ensures (c ^ (b as bv32)) >> 8 == c >> 8
  {
  }

  /** One table step is eight bit steps. */
  lemma TableStep(f: Step, c: bv32, b: bv8)
    requires Linear(f, Xor) && MovesDown(f)
    ensures Octet(f, c ^ (b as bv32)) == Xor(Octet(f, (c ^ (b as bv32)) & 0xFF), c >> 8)
  {
    var x := c ^ (b as bv32);
    LowAndHigh(x);
    OctetLinear(f, Xor, x & 0xFF, x & 0xFFFF_FF00);
    ByteIsLow(c, b);
  }

  function Steps<T>(f: T -> T, c: T, n: nat): T
    decreases n
  {
    if n == 0 then c else f(Steps(f, c, n - 1))
  }

  lemma EightSteps<T>(f: T -> T, c: T)
    ensures Steps(f, c, 8) == Octet(f, c)
  {
  }

  /** A place in the table, by byte value. */
  datatype Slot = Slot(value: bv32)

  type Table = map<Slot, bv32>

  /** The table's entries for the byte values below `n`. */
  ghost predicate Tabled(t: Table, entry: Step, n: bv32)
  {
    forall k :: k < n ==> Slot(k) in t && t[Slot(k)] == entry(k)
  }

  function Entry(i: bv32): bv32
  {
    Octet(Shift, i)
  }

  lemma Below(i: bv32, k: bv32)
    requires i < 256
    ensures k < i + 1 <==> k < i || k == i
  {
  }

  lemma TabledNext(t: Table, entry: Step, i: bv32)
    requires Tabled(t, entry, i) && i < 256
    ensures Tabled(t[Slot(i) := entry(i)], entry, i + 1)
  {
    var after := t[Slot(i) := entry(i)];
    forall k | k < i + 1 ensures Slot(k) in after && after[Slot(k)] == entry(k) {
      Below(i, k);
      if k != i {
        assert Slot(k) in t;
      }
    }
  }

  method BuildTable() returns (t: Table)
    ensures Tabled(t, Entry, 256)
  {
    t := map[];
    var i: bv32 := 0;
    while i < 256
      invariant i <= 256 && Tabled(t, Entry, i)
      decreases 256 - i
    {
      var e := TableEntry(i);
      TabledNext(t, Entry, i);
      t := t[Slot(i) := e];
      i := i + 1;
    }
  }

  method TableEntry(i: bv32) returns (c: bv32)
    ensures c == Entry(i)
  {
    c := i;
    var j := 0;
    while j < 8
      invariant 0 <= j <= 8 && c == Steps(Shift, i, j)
    {
      c := if c & 1 == 1 then POLY ^ (c >> 1) else c >> 1;
      j := j + 1;
    }
    EightSteps(Shift, i);
  }

  lemma LowByte(x: bv32)
    ensures x & 0xFF < 256
  {
  }

  /** The table-driven loop computes the reference checksum, from any initial state. */
  method Crc32c(t: Table, buf: seq<bv8>, initial: bv32) returns (r: bv32)
    requires Tabled(t, Entry, 256)
    ensures r == Checksum(buf, initial)
  {
    var c := initial;
    var i := 0;
    while i < |buf|
      invariant 0 <= i <= |buf| && Fold(Feed, initial, buf) == Fold(Feed, c, buf[i..])
    {
      c := FeedByte(t, c, buf[i]);
      assert buf[i..][1..] == buf[i + 1..];
      i := i + 1;
    }
    r := Finish(c);
  }

  /** Looking up the low byte is what the bit-by-bit step does. */
  lemma FedByTable(c: bv32, b: bv8)
    ensures Feed(c, b) == Xor(Entry((c ^ (b as bv32)) & 0xFF), c >> 8)
  {
    ShiftIsLinear();
    ShiftMovesDown();
    TableStep(Shift, c, b);
  }

  method FeedByte(t: Table, c: bv32, b: bv8) returns (r: bv32)
    requires Tabled(t, Entry, 256)
    ensures r == Feed(c, b)
  {
    var low := (c ^ (b as bv32)) & 0xFF;
    LowByte(c ^ (b as bv32));
    FedByTable(c, b);
    assert t[Slot(low)] == Entry(low);
    r := Xor(t[Slot(low)], c >> 8);
  }

  lemma {:induction false} FoldSplit<S, B>(feed: (S, B) -> S, c: S, a: seq<B>, b: seq<B>)
    ensures Fold(feed, c, a + b) == Fold(feed, Fold(feed, c, a), b)
    decreases |a|
  {
    if a == [] {
      assert a + b == b;
    } else {
      assert (a + b)[1..] == a[1..] + b;
      FoldSplit(feed, feed(c, a[0]), a[1..], b);
    }
  }

  lemma FinishTwice(x: bv32)
    ensures Finish(Finish(x)) == x
  {
  }

  /** A checksum is continued by passing the complement of the first part's as the initial state. */
  lemma ChecksumContinues(a: seq<bv8>, b: seq<bv8>, initial: bv32)
    ensures Checksum(a + b, initial) == Checksum(b, Finish(Checksum(a, initial)))
  {
    FoldSplit(Feed, initial, a, b);
    FinishTwice(Fold(Feed, initial, a));
  }

  ghost predicate Injective<T(!new)>(f: T -> T)
  {
    forall a, b :: f(a) == f(b) ==> a == b
  }

  lemma ShiftBack(a: bv32)
    ensures var s := Shift(a);
            a == if s >= 0x8000_0000 then ((s ^ POLY) << 1) | 1 else s << 1
  {
  }

  /** The polynomial's top bit records the bit shifted out, so no two states shift to one. */
  lemma ShiftInjective()
    ensures Injective(Shift)
  {
    forall a, b | Shift(a) == Shift(b) ensures a == b {
      ShiftBack(a);
      ShiftBack(b);
    }
  }

  lemma OctetInjective<T(!new)>(f: T -> T, a: T, b: T)
    requires Injective(f) && Octet(f, a) == Octet(f, b)
    ensures a == b
  {
  }

  lemma XorInjective(c: bv32, d: bv32, a: bv8, b: bv8)
    ensures c ^ (a as bv32) == d ^ (a as bv32) ==> c == d
    ensures c ^ (a as bv32) == c ^ (b as bv32) ==> a == b
    ensures Finish(c) == Finish(d) ==> c == d
  {
  }

  /** Neither two registers nor two bytes can be fed to one result. */
  ghost predicate Apart<S(!new), B(!new)>(feed: (S, B) -> S)
  {
    && (forall c, d, b :: feed(c, b) == feed(d, b) ==> c == d)
    && forall c, a, b :: feed(c, a) == feed(c, b) ==> a == b
  }

  lemma FeedApart()
    ensures Apart(Feed)
  {
    ShiftInjective();
    forall c, d, b | Feed(c, b) == Feed(d, b) ensures c == d {
      OctetInjective(Shift, c ^ (b as bv32), d ^ (b as bv32));
      XorInjective(c, d, b, b);
    }
    forall c, a, b | Feed(c, a) == Feed(c, b) ensures a == b {
      OctetInjective(Shift, c ^ (a as bv32), c ^ (b as bv32));
      XorInjective(c, c, a, b);
    }
  }

  lemma {:induction false} RegistersStayApart<S(!new), B(!new)>(feed: (S, B) -> S, c: S, d: S, bytes: seq<B>)
    requires Apart(feed) && c != d
    ensures Fold(feed, c, bytes) != Fold(feed, d, bytes)
    decreases |bytes|
  {
    if bytes != [] {
      RegistersStayApart(feed, feed(c, bytes[0]), feed(d, bytes[0]), bytes[1..]);
    }
  }

  lemma ByteChangeKept<S(!new), B(!new)>(feed: (S, B) -> S, c: S, a: seq<B>, x: B, y: B, b: seq<B>)
    requires Apart(feed) && x != y
    ensures Fold(feed, c, a + ([x] + b)) != Fold(feed, c, a + ([y] + b))
  {
    var s := Fold(feed, c, a);
    FoldSplit(feed, c, a, [x] + b);
    FoldSplit(feed, c, a, [y] + b);
    assert ([x] + b)[1..] == b && ([y] + b)[1..] == b;
    RegistersStayApart(feed, feed(s, x), feed(s, y), b);
  }

  /** Changing any one byte of a message changes its checksum. */
  lemma OneByteChangeDetected(a: seq<bv8>, x: bv8, y: bv8, b: seq<bv8>, initial: bv32)
    requires x != y
    ensures Checksum(a + ([x] + b), initial) != Checksum(a + ([y] + b), initial)
  {
    FeedApart();
    ByteChangeKept(Feed, initial, a, x, y, b);
    XorInjective(Fold(Feed, initial, a + ([x] + b)), Fold(Feed, initial, a + ([y] + b)), 0, 0);
  }
}
