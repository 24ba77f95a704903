/**
 * Byte streams made of frames: what can be read back when a stream is cut at any byte. The write-ahead
 * log and the replica protocol are both such streams.
 */
module Framing {
  import opened Versions

  /** What draining a buffer delivers, what it leaves, and whether it got through without a throw. */
  datatype Drain<R> = Drain(records: seq<R>, rest: Buf, ok: bool)

  function Prepended<R>(rs: seq<R>, d: Drain<R>): Drain<R>
  {
    d.(records := rs + d.records)
  }

  function Concat(chunks: seq<Buf>): Buf
  {
    if chunks == [] then [] else chunks[0] + Concat(chunks[1..])
  }

  lemma PrependedTwice<R>(a: seq<R>, b: seq<R>, d: Drain<R>)
    ensures Prepended(a, Prepended(b, d)) == Prepended(a + b, d)
  {
    assert a + (b + d.records) == (a + b) + d.records;
  }

  /** Draining gets the record from the frame's bytes when it is whole, and nothing before. */
  ghost predicate Delivers<R>(drain: Buf -> Drain<R>, frame: Buf, r: R)
  {
    && frame != []
    && (forall tail :: drain(frame + tail) == Prepended([r], drain(tail)))
    && forall n: nat :: n < |frame| ==> drain(frame[..n]) == Drain([], frame[..n], true)
  }

  ghost predicate AllDeliver<R>(drain: Buf -> Drain<R>, frames: seq<Buf>, rs: seq<R>)
  {
    && drain([]) == Drain([], [], true)
    && |frames| == |rs| && forall i :: 0 <= i < |frames| ==> Delivers(drain, frames[i], rs[i])
  }

  /** How many of the frames lie wholly within the first `n` bytes. */
  ghost function Whole(frames: seq<Buf>, n: nat): (k: nat)
    ensures k <= |frames|
  {
    if frames == [] || n < |frames[0]| then 0 else 1 + Whole(frames[1..], n - |frames[0]|)
  }

  /** The whole frames are exactly the first ones that fit. */
  lemma {:induction false} WholeFit(frames: seq<Buf>, n: nat)
    requires n <= |Concat(frames)|
    ensures var k := Whole(frames, n); |Concat(frames[..k])| <= n && (k < |frames| ==> n < |Concat(frames[..k + 1])|)
  {
    if frames != [] && n >= |frames[0]| {
      var k := Whole(frames, n);
      WholeFit(frames[1..], n - |frames[0]|);
      assert frames[..k][1..] == frames[1..][..k - 1];
      if k < |frames| {
        assert frames[..k + 1][1..] == frames[1..][..k];
      }
    } else if frames != [] {
      assert frames[..1][1..] == [];
    }
  }

  /** After `n` bytes of the frames: the whole ones are delivered, and what follows them is left. */
  ghost predicate DrainsTo<R>(frames: seq<Buf>, rs: seq<R>, n: nat, d: Drain<R>)
    requires |frames| == |rs|
  {
    var k := Whole(frames, n);
    && |Concat(frames[..k])| <= n <= |Concat(frames)| && (k < |frames| ==> n < |Concat(frames[..k + 1])|)
    && d == Drain(rs[..k], Concat(frames)[|Concat(frames[..k])|..n], true)
  }

  lemma TailDelivers<R>(drain: Buf -> Drain<R>, frames: seq<Buf>, rs: seq<R>)
    requires AllDeliver(drain, frames, rs) && frames != []
    ensures Delivers(drain, frames[0], rs[0]) && AllDeliver(drain, frames[1..], rs[1..])
  {
  }

  /** Cut anywhere, a stream drains to the records of its whole frames and leaves the cut one. */
  lemma {:induction false} StreamDrains<R>(drain: Buf -> Drain<R>, frames: seq<Buf>, rs: seq<R>, n: nat)
    requires AllDeliver(drain, frames, rs) && n <= |Concat(frames)|
    ensures DrainsTo(frames, rs, n, drain(Concat(frames)[..n]))
    decreases |frames|
  {
    WholeFit(frames, n);
    if frames == [] {
      assert Concat(frames)[..n] == [];
    } else {
      TailDelivers(drain, frames, rs);
      if n < |frames[0]| {
        assert Concat(frames)[..n] == frames[0][..n];
      } else {
        StreamDrains(drain, frames[1..], rs[1..], n - |frames[0]|);
        NextDrains(drain, frames, rs, n);
      }
    }
  }

  /** Whole frames are delivered, whatever follows them. */
  lemma {:induction false} FramesFirst<R>(drain: Buf -> Drain<R>, frames: seq<Buf>, rs: seq<R>, tail: Buf)
    requires AllDeliver(drain, frames, rs)
    ensures drain(Concat(frames) + tail) == Prepended(rs, drain(tail))
    decreases |frames|
  {
    if frames == [] {
      assert Concat(frames) + tail == tail && rs + drain(tail).records == drain(tail).records;
    } else {
      TailDelivers(drain, frames, rs);
      assert Concat(frames) + tail == frames[0] + (Concat(frames[1..]) + tail);
      FramesFirst(drain, frames[1..], rs[1..], tail);
      PrependedTwice([rs[0]], rs[1..], drain(tail));
      assert rs == [rs[0]] + rs[1..];
    }
  }

  lemma NextDrains<R>(drain: Buf -> Drain<R>, frames: seq<Buf>, rs: seq<R>, n: nat)
    requires |frames| == |rs| && frames != [] && |frames[0]| <= n && Delivers(drain, frames[0], rs[0])
    requires n <= |Concat(frames)|
    requires DrainsTo(frames[1..], rs[1..], n - |frames[0]|, drain(Concat(frames[1..])[..n - |frames[0]|]))
    ensures DrainsTo(frames, rs, n, drain(Concat(frames)[..n]))
  {
    var f, k, m := frames[0], Whole(frames, n), n - |frames[0]|;
    WholeFit(frames, n);
    assert frames[..k][1..] == frames[1..][..k - 1];
    FrameThenStream(drain, f, rs[0], Concat(frames[1..]), m, |Concat(frames[1..][..k - 1])|, rs[1..][..k - 1]);
    assert rs[..k] == [rs[0]] + rs[1..][..k - 1];
  }

  lemma FrameThenStream<R>(drain: Buf -> Drain<R>, f: Buf, r: R, rest: Buf, m: nat, cut: nat, out: seq<R>)
    requires Delivers(drain, f, r) && cut <= m <= |rest|
    requires drain(rest[..m]) == Drain(out, rest[cut..m], true)
    ensures drain((f + rest)[..|f| + m]) == Drain([r] + out, (f + rest)[|f| + cut..|f| + m], true)
  {
    assert (f + rest)[..|f| + m] == f + rest[..m];
    assert (f + rest)[|f| + cut..|f| + m] == rest[cut..m];
  }

  lemma PrefixDrains<R>(drain: Buf -> Drain<R>, frames: seq<Buf>, rs: seq<R>, arrived: Buf, rest: Buf)
    requires AllDeliver(drain, frames, rs) && arrived + rest == Concat(frames)
    ensures DrainsTo(frames, rs, |arrived|, drain(arrived))
  {
    StreamDrains(drain, frames, rs, |arrived|);
    assert (arrived + rest)[..|arrived|] == arrived;
  }
}
