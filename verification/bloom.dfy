/** The Bloom filter of one SSTable: a bit array probed at positions derived from two hashes. */
module Bloom {
  import opened Keys
  import opened Versions
  import opened RecordFormat

  /** `(b >> k) & 1`, bit by bit. */
  predicate HasBit(b: nat, k: nat)
  {
    if k == 0 then b % 2 == 1 else HasBit(b / 2, k - 1)
  }

  /** `b | (1 << k)`, bit by bit. */
  function SetBit(b: nat, k: nat): nat
  {
    if k == 0 then b / 2 * 2 + 1 else SetBit(b / 2, k - 1) * 2 + b % 2
  }

  lemma {:induction false} SetBitSets(b: nat, k: nat, j: nat)
    ensures HasBit(SetBit(b, k), j) <==> j == k || HasBit(b, j)
  {
    if j > 0 && k > 0 {
      SetBitSets(b / 2, k - 1, j - 1);
    }
  }

  function Pow2(k: nat): nat
  {
    if k == 0 then 1 else 2 * Pow2(k - 1)
  }

  lemma {:induction false} SetBitFits(b: nat, k: nat, width: nat)
    requires k < width && b < Pow2(width)
    ensures SetBit(b, k) < Pow2(width)
  {
    if k > 0 {
      SetBitFits(b / 2, k - 1, width - 1);
    }
  }

  /** Bit `p` of a bit array, eight to a byte. */
  predicate BitAt(bits: seq<Byte>, p: nat)
  {
    p / 8 < |bits| && HasBit(bits[p / 8] as nat, p % 8)
  }

  ghost predicate Covers(bits: seq<Byte>, probe: seq<nat>)
  {
    forall i :: 0 <= i < |probe| ==> BitAt(bits, probe[i])
  }

  lemma OneBitSet(bits: seq<Byte>, b: nat)
    requires b / 8 < |bits|
    ensures SetBit(bits[b / 8] as nat, b % 8) < 256
    ensures var after := bits[b / 8 := SetBit(bits[b / 8] as nat, b % 8) as Byte];
            forall p: nat :: BitAt(after, p) <==> BitAt(bits, p) || p == b
  {
    assert Pow2(8) == 256;
    SetBitFits(bits[b / 8] as nat, b % 8, 8);
    var after := bits[b / 8 := SetBit(bits[b / 8] as nat, b % 8) as Byte];
    forall p: nat ensures BitAt(after, p) <==> BitAt(bits, p) || p == b {
      if p / 8 == b / 8 {
        SetBitSets(bits[b / 8] as nat, b % 8, p % 8);
      }
    }
  }

  /** Any deterministic 32-bit hash of a key under a seed. */
  type Hash = (Key, Word) -> Word

  function ProbeAt(hash: Hash, size: nat, item: Key, i: nat): nat
    requires size > 0
  {
    (hash(item, 0) + i * hash(item, 0xdeadbeef)) % 0x1_0000_0000 % size
  }

  function Probe(hash: Hash, size: nat, hashCount: nat, item: Key): seq<nat>
    requires size > 0
  {
    seq(hashCount, i requires 0 <= i => ProbeAt(hash, size, item, i))
  }

  class BloomFilter {
    const hash: Hash
    const size: nat
    const hashCount: nat
    const bitArray: array<Byte>

    ghost predicate Valid()
    {
      size > 0 && bitArray.Length * 8 >= size
    }

    constructor (hash: Hash, size: nat, hashCount: nat)
      requires size > 0
      ensures Valid() && fresh(bitArray)
      ensures this.hash == hash && this.size == size && this.hashCount == hashCount
      ensures bitArray.Length == (size + 7) / 8
    {
      this.hash, this.size, this.hashCount := hash, size, hashCount;
      bitArray := new Byte[(size + 7) / 8](_ => 0);
    }

    constructor FromRaw(hash: Hash, size: nat, hashCount: nat, rawBytes: Buf)
      requires 0 < size <= |rawBytes| * 8
      ensures Valid() && fresh(bitArray) && bitArray[..] == rawBytes
      ensures this.hash == hash && this.size == size && this.hashCount == hashCount
    {
      this.hash, this.size, this.hashCount := hash, size, hashCount;
      bitArray := new Byte[|rawBytes|](i requires 0 <= i < |rawBytes| => rawBytes[i]);
    }

    method ProbeItem(item: Key) returns (out: seq<nat>)
      requires Valid()
      ensures out == Probe(hash, size, hashCount, item)
    {
      out := [];
      var i := 0;
      while i < hashCount
        invariant 0 <= i <= hashCount && |out| == i
        invariant forall j :: 0 <= j < i ==> out[j] == ProbeAt(hash, size, item, j)
      {
        out := out + [ProbeAt(hash, size, item, i)];
        i := i + 1;
      }
    }

    /** Sets the item's bits and no others. */
    method Add(item: Key)
      requires Valid()
      modifies bitArray
      ensures forall p: nat :: BitAt(bitArray[..], p) <==>
                BitAt(old(bitArray[..]), p) || p in Probe(hash, size, hashCount, item)
    {
      var probe := ProbeItem(item);
      var i := 0;
      while i < |probe|
        invariant 0 <= i <= |probe|
        invariant forall p: nat :: BitAt(bitArray[..], p) <==> BitAt(old(bitArray[..]), p) || p in probe[..i]
      {
        var b := probe[i];
        assert b == ProbeAt(hash, size, item, i) < size;
        OneBitSet(bitArray[..], b);
        bitArray[b / 8] := SetBit(bitArray[b / 8] as nat, b % 8) as Byte;
        assert probe[..i + 1] == probe[..i] + [b];
        i := i + 1;
      }
      assert probe[..i] == probe;
    }

    method Check(item: Key) returns (r: bool)
      requires Valid()
      ensures r <==> Covers(bitArray[..], Probe(hash, size, hashCount, item))
    {
      var probe := ProbeItem(item);
      var i := 0;
      while i < |probe|
        invariant 0 <= i <= |probe|
        invariant forall j :: 0 <= j < i ==> BitAt(bitArray[..], probe[j])
      {
        var b := probe[i];
        assert b == ProbeAt(hash, size, item, i) < size;
        if !HasBit(bitArray[b / 8] as nat, b % 8) {
          return false;
        }
        i := i + 1;
      }
      return true;
    }
  }
}
