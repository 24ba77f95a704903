/** Keys in the order of their last use, and the blocks kept under them: what the block cache refines. */
module Recency {
  import opened Options
  import opened Versions

  type BlockKey = string

  datatype Recent = Recent(order: seq<BlockKey>, blocks: map<BlockKey, Buf>)

  ghost predicate Distinct(ks: seq<BlockKey>)
  {
    forall i, j :: 0 <= i < j < |ks| ==> ks[i] != ks[j]
  }

  ghost function Elements(ks: seq<BlockKey>): set<BlockKey>
  {
    set k | k in ks
  }

  function Filtered(ks: seq<BlockKey>, gone: set<BlockKey>): seq<BlockKey>
  {
    if ks == [] then []
    else if ks[0] in gone then Filtered(ks[1..], gone)
    else [ks[0]] + Filtered(ks[1..], gone)
  }

  ghost function Restricted(blocks: map<BlockKey, Buf>, ks: seq<BlockKey>): map<BlockKey, Buf>
  {
    map k | k in blocks && k in ks :: blocks[k]
  }

  /** A hit moves the key to the front. */
  ghost function Touched(r: Recent, key: BlockKey): Recent
  {
    if key in r.blocks then Recent([key] + Filtered(r.order, {key}), r.blocks) else r
  }

  ghost function Pushed(r: Recent, key: BlockKey, data: Buf): Recent
  {
    Recent([key] + r.order, r.blocks[key := data])
  }

  /** The last key leaves, with its block. */
  ghost function Cut(r: Recent): Recent
    requires r.order != []
  {
    var kept := r.order[..|r.order| - 1];
    Recent(kept, Restricted(r.blocks, kept))
  }

  /** The key goes to the front; if it is new and now there is one key too many, the last one leaves. */
  ghost function Inserted(r: Recent, key: BlockKey, data: Buf, capacity: nat): Recent
  {
    var pushed := Pushed(Recent(Filtered(r.order, {key}), r.blocks), key, data);
    if key !in r.blocks && |pushed.order| > capacity then Cut(pushed) else pushed
  }

  ghost function Invalidated(r: Recent, gone: set<BlockKey>): Recent
  {
    Recent(Filtered(r.order, gone), r.blocks - gone)
  }

  lemma {:induction false} FilteredElements(ks: seq<BlockKey>, gone: set<BlockKey>)
    ensures forall k :: k in Filtered(ks, gone) <==> k in ks && k !in gone
    ensures Distinct(ks) ==> Distinct(Filtered(ks, gone))
    ensures |Filtered(ks, gone)| <= |ks|
  {
    if ks != [] {
      FilteredElements(ks[1..], gone);
      assert forall k :: k in ks <==> k == ks[0] || k in ks[1..];
      if Distinct(ks) {
        assert forall i :: 0 < i < |ks| ==> ks[i] == ks[1..][i - 1];
        assert Distinct(ks[1..]) && ks[0] !in ks[1..];
      }
    }
  }

  lemma {:induction false} FilteredNone(ks: seq<BlockKey>, gone: set<BlockKey>)
    requires forall k :: k in ks ==> k !in gone
    ensures Filtered(ks, gone) == ks
  {
    if ks != [] { FilteredNone(ks[1..], gone); }
  }

  lemma {:induction false} FilteredSplit(a: seq<BlockKey>, b: seq<BlockKey>, gone: set<BlockKey>)
    ensures Filtered(a + b, gone) == Filtered(a, gone) + Filtered(b, gone)
  {
    if a == [] {
      assert a + b == b;
    } else {
      assert (a + b)[1..] == a[1..] + b;
      FilteredSplit(a[1..], b, gone);
    }
  }

  lemma {:induction false} FilteredTwice(ks: seq<BlockKey>, s: set<BlockKey>, t: set<BlockKey>)
    ensures Filtered(Filtered(ks, s), t) == Filtered(ks, s + t)
  {
    if ks != [] {
      FilteredTwice(ks[1..], s, t);
    }
  }

  lemma OthersDiffer(ks: seq<BlockKey>, i: nat)
    requires i < |ks| && Distinct(ks)
    ensures ks[i] !in ks[..i] && ks[i] !in ks[i + 1..]
  {
  }

  /** Taking one key out of a list of distinct keys closes the gap. */
  lemma FilteredAt(ks: seq<BlockKey>, i: nat)
    requires i < |ks| && Distinct(ks)
    ensures Filtered(ks, {ks[i]}) == ks[..i] + ks[i + 1..]
  {
    var a, b := ks[..i], ks[i + 1..];
    assert ks == a + ([ks[i]] + b);
    FilteredSplit(a, [ks[i]] + b, {ks[i]});
    OthersDiffer(ks, i);
    FilteredNone(a, {ks[i]});
    FilteredNone(b, {ks[i]});
    assert ([ks[i]] + b)[1..] == b;
  }

  lemma {:induction false} DistinctSize(ks: seq<BlockKey>)
    requires Distinct(ks)
    ensures |Elements(ks)| == |ks|
  {
    if ks != [] {
      assert Distinct(ks[1..]) by {
        assert forall i :: 0 < i < |ks| ==> ks[i] == ks[1..][i - 1];
      }
      DistinctSize(ks[1..]);
      assert Elements(ks) == Elements(ks[1..]) + {ks[0]};
      assert ks[0] !in ks[1..];
    }
  }

  ghost predicate Tidy(r: Recent, capacity: nat)
  {
    Distinct(r.order) && r.blocks.Keys == Elements(r.order) && |r.order| <= capacity
  }

  ghost function WithPrefix(keys: set<BlockKey>, prefix: string): set<BlockKey>
  {
    set k | k in keys && prefix <= k
  }

  datatype Op = Set(key: BlockKey, data: Buf) | Get(key: BlockKey) | Invalidate(prefix: string)

  ghost function Stepped(r: Recent, op: Op, capacity: nat): Recent
  {
    match op
    case Set(key, data) => Inserted(r, key, data, capacity)
    case Get(key) => Touched(r, key)
    case Invalidate(prefix) => Invalidated(r, WithPrefix(r.blocks.Keys, prefix))
  }

  /** The cache after a run of calls. */
  ghost function AfterAll(ops: seq<Op>, capacity: nat): Recent
  {
    if ops == [] then Recent([], map[])
    else Stepped(AfterAll(ops[..|ops| - 1], capacity), ops[|ops| - 1], capacity)
  }

  /** Every key ever used, most recently used first: set, or got while it was there. */
  ghost function History(ops: seq<Op>, capacity: nat): seq<BlockKey>
  {
    if ops == [] then []
    else
      var before, op := ops[..|ops| - 1], ops[|ops| - 1];
      if op.Set? || (op.Get? && op.key in AfterAll(before, capacity).blocks) then
        [op.key] + Filtered(History(before, capacity), {op.key})
      else History(before, capacity)
  }

  /** The block last set under the key, unless that was invalidated since. */
  function LastSet(ops: seq<Op>, key: BlockKey): Option<Buf>
  {
    if ops == [] then None
    else
      var op := ops[|ops| - 1];
      if op.Set? && op.key == key then Some(op.data)
      else if op.Invalidate? && op.prefix <= key then None
      else LastSet(ops[..|ops| - 1], key)
  }

  /** The number of the last call that set or got the key. */
  function LastUse(ops: seq<Op>, key: BlockKey): int
  {
    if ops == [] then -1
    else
      var op := ops[|ops| - 1];
      if !op.Invalidate? && op.key == key then |ops| - 1 else LastUse(ops[..|ops| - 1], key)
  }

  ghost function Take(ks: seq<BlockKey>, n: nat): seq<BlockKey>
  {
    if |ks| <= n then ks else ks[..n]
  }

  /** A list cut short and used once more is the uncut list, used once more and cut short. */
  lemma TakeThenUse(ks: seq<BlockKey>, key: BlockKey, n: nat)
    requires Distinct(ks)
    ensures Take([key] + Filtered(Take(ks, n), {key}), n) == Take([key] + Filtered(ks, {key}), n)
  {
    if |ks| > n {
      var a, b := ks[..n], ks[n..];
      assert ks == a + b;
      FilteredSplit(a, b, {key});
      assert Distinct(a);
      if key in a {
        var i :| 0 <= i < n && a[i] == key;
        FilteredAt(a, i);
        assert |Filtered(a, {key})| == n - 1;
        assert forall j :: 0 <= j < |b| ==> b[j] == ks[n + j] && ks[i] != ks[n + j];
      } else {
        FilteredNone(a, {key});
      }
    }
  }

  lemma {:induction false} HistoryDistinct(ops: seq<Op>, capacity: nat)
    ensures Distinct(History(ops, capacity))
  {
    if ops != [] {
      var before, op := ops[..|ops| - 1], ops[|ops| - 1];
      HistoryDistinct(before, capacity);
      if !op.Invalidate? {
        FilteredElements(History(before, capacity), {op.key});
      }
    }
  }

  /**
   * Least recently used, said outright: after any calls of `get` and `set`, the cache holds the `capacity` keys
   * used most recently, in that order.
   */
  lemma {:induction false} HoldsMostRecent(ops: seq<Op>, capacity: nat)
    requires forall i :: 0 <= i < |ops| ==> !ops[i].Invalidate?
    ensures AfterAll(ops, capacity).order == Take(History(ops, capacity), capacity)
  {
    if ops != [] {
      var before, op := ops[..|ops| - 1], ops[|ops| - 1];
      assert !op.Invalidate?;
      HoldsMostRecent(before, capacity);
      HistoryDistinct(before, capacity);
      MixedRun(before, capacity);
      TakeThenUse(History(before, capacity), op.key, capacity);
      UsedTidy(AfterAll(before, capacity), op, capacity);
    }
  }

  /** Later in the list, earlier in use. */
  ghost predicate ByLastUse(ops: seq<Op>, order: seq<BlockKey>)
  {
    forall i, j :: 0 <= i < j < |order| ==> LastUse(ops, order[i]) > LastUse(ops, order[j])
  }

  ghost predicate HoldsLastSet(ops: seq<Op>, blocks: map<BlockKey, Buf>)
  {
    forall key :: key in blocks ==> LastSet(ops, key) == Some(blocks[key])
  }

  /**
   * After any calls at all the cache is in order: no more keys than it may hold, those used last in front, and
   * each with the block it was last given, which no invalidation has come upon since.
   */
  lemma {:induction false} MixedRun(ops: seq<Op>, capacity: nat)
    ensures var r := AfterAll(ops, capacity);
            Tidy(r, capacity) && ByLastUse(ops, r.order) && HoldsLastSet(ops, r.blocks)
  {
    if ops != [] {
      var before, op := ops[..|ops| - 1], ops[|ops| - 1];
      var r := AfterAll(before, capacity);
      MixedRun(before, capacity);
      StepHoldsLastSet(ops, r, capacity);
      if op.Invalidate? {
        InvalidatedTidy(r, WithPrefix(r.blocks.Keys, op.prefix), capacity);
        FilteredInOrder(before, r.order, WithPrefix(r.blocks.Keys, op.prefix));
      } else {
        UsedTidy(r, op, capacity);
        FilteredInOrder(before, r.order, {op.key});
        UsedInOrder(ops, r.order);
      }
    }
  }

  lemma StepHoldsLastSet(ops: seq<Op>, r: Recent, capacity: nat)
    requires ops != [] && Tidy(r, capacity) && HoldsLastSet(ops[..|ops| - 1], r.blocks)
    ensures HoldsLastSet(ops, Stepped(r, ops[|ops| - 1], capacity).blocks)
  {
  }

  /** One use: the key in front, if it is or gets there. */
  lemma UsedTidy(r: Recent, op: Op, capacity: nat)
    requires Tidy(r, capacity) && !op.Invalidate?
    ensures Tidy(Stepped(r, op, capacity), capacity)
    ensures Stepped(r, op, capacity).order ==
            if op.Set? || op.key in r.blocks then Take([op.key] + Filtered(r.order, {op.key}), capacity) else r.order
  {
    match op {
      case Set(key, data) => InsertedTidy(r, key, data, capacity);
      case Get(key) =>
        if key in r.blocks {
          TouchedTidy(r, key, capacity);
        }
      case Invalidate(_) =>
    }
  }

  lemma TouchedTidy(r: Recent, key: BlockKey, capacity: nat)
    requires Tidy(r, capacity) && key in r.blocks
    ensures Tidy(Touched(r, key), capacity) && |[key] + Filtered(r.order, {key})| == |r.order|
  {
    FilteredElements(r.order, {key});
    var i :| 0 <= i < |r.order| && r.order[i] == key;
    FilteredAt(r.order, i);
  }

  lemma InvalidatedTidy(r: Recent, gone: set<BlockKey>, capacity: nat)
    requires Tidy(r, capacity)
    ensures Tidy(Invalidated(r, gone), capacity)
  {
    FilteredElements(r.order, gone);
  }

  /** What is left of an ordered list is ordered. */
  lemma {:induction false} FilteredInOrder(ops: seq<Op>, ks: seq<BlockKey>, gone: set<BlockKey>)
    requires ByLastUse(ops, ks)
    ensures ByLastUse(ops, Filtered(ks, gone))
  {
    if ks != [] {
      assert forall i, j :: 0 <= i < j < |ks[1..]| ==> ks[1..][i] == ks[i + 1] && ks[1..][j] == ks[j + 1];
      FilteredInOrder(ops, ks[1..], gone);
      FilteredElements(ks[1..], gone);
      var rest := Filtered(ks[1..], gone);
      forall j | 0 <= j < |rest| ensures LastUse(ops, ks[0]) > LastUse(ops, rest[j]) {
        assert rest[j] in rest;
        var k :| 0 <= k < |ks[1..]| && ks[1..][k] == rest[j];
      }
    }
  }

  lemma {:induction false} LastUseBefore(ops: seq<Op>, key: BlockKey)
    ensures -1 <= LastUse(ops, key) < |ops|
  {
    if ops != [] {
      LastUseBefore(ops[..|ops| - 1], key);
    }
  }

  /** The key just used comes before all others, and the others' order is as it was. */
  lemma UsedInOrder(ops: seq<Op>, ks: seq<BlockKey>)
    requires ops != [] && !ops[|ops| - 1].Invalidate? && ByLastUse(ops[..|ops| - 1], ks)
    requires ByLastUse(ops[..|ops| - 1], Filtered(ks, {ops[|ops| - 1].key}))
    ensures ops[|ops| - 1].key !in ks ==> ByLastUse(ops, ks)
    ensures ByLastUse(ops, [ops[|ops| - 1].key] + Filtered(ks, {ops[|ops| - 1].key}))
  {
    var key, rest := ops[|ops| - 1].key, Filtered(ks, {ops[|ops| - 1].key});
    FilteredElements(ks, {key});
    forall j | 0 <= j < |rest| ensures LastUse(ops, rest[j]) == LastUse(ops[..|ops| - 1], rest[j]) < LastUse(ops, key) {
      assert rest[j] in rest;
      LastUseBefore(ops[..|ops| - 1], rest[j]);
    }
    if key !in ks {
      forall j | 0 <= j < |ks| ensures LastUse(ops, ks[j]) == LastUse(ops[..|ops| - 1], ks[j]) {
        assert ks[j] in ks;
      }
    }
  }

  /** A key leaves only when invalidated, or as the one least recently used when a full cache is given a new key. */
  lemma WhoLeaves(ops: seq<Op>, op: Op, capacity: nat, key: BlockKey)
    requires key in AfterAll(ops, capacity).blocks && key !in Stepped(AfterAll(ops, capacity), op, capacity).blocks
    ensures var r := AfterAll(ops, capacity);
            if op.Invalidate? then op.prefix <= key
            else op.Set? && op.key !in r.blocks && |r.order| == capacity
                 && forall k :: k in r.blocks ==> LastUse(ops, key) <= LastUse(ops, k)
  {
    var r := AfterAll(ops, capacity);
    MixedRun(ops, capacity);
    if op.Set? {
      WhoIsCut(r, op.key, op.data, capacity, key);
      LastUsedLeast(ops, r);
    }
  }

  lemma LastUsedLeast(ops: seq<Op>, r: Recent)
    requires ByLastUse(ops, r.order) && r.blocks.Keys == Elements(r.order) && r.order != []
    ensures forall k :: k in r.blocks ==> LastUse(ops, r.order[|r.order| - 1]) <= LastUse(ops, k)
  {
  }

  lemma WhoIsCut(r: Recent, key: BlockKey, data: Buf, capacity: nat, gone: BlockKey)
    requires Tidy(r, capacity) && gone in r.blocks && gone !in Inserted(r, key, data, capacity).blocks
    ensures key !in r.blocks && |r.order| == capacity > 0 && gone == r.order[|r.order| - 1]
  {
    MostStay(r, key, data, capacity);
    assert gone in r.order;
  }

  /** An insertion costs at most the last key. */
  lemma MostStay(r: Recent, key: BlockKey, data: Buf, capacity: nat)
    requires Tidy(r, capacity)
    ensures key in r.blocks || |r.order| < capacity ==> r.blocks.Keys <= Inserted(r, key, data, capacity).blocks.Keys
    ensures key !in r.blocks ==>
              forall i :: 0 <= i < |r.order| - 1 ==> r.order[i] in Inserted(r, key, data, capacity).blocks
  {
    if key !in r.blocks {
      FilteredNone(r.order, {key});
      var kept := ([key] + r.order)[..|r.order|];
      forall i | 0 <= i < |r.order| - 1 ensures r.order[i] in kept {
        assert kept[i + 1] == r.order[i];
      }
    }
  }

  lemma InsertedTidy(r: Recent, key: BlockKey, data: Buf, capacity: nat)
    requires Tidy(r, capacity)
    ensures Tidy(Inserted(r, key, data, capacity), capacity)
    ensures Inserted(r, key, data, capacity).order == Take([key] + Filtered(r.order, {key}), capacity)
  {
    FilteredElements(r.order, {key});
    if key in r.blocks {
      var i :| 0 <= i < |r.order| && r.order[i] == key;
      FilteredAt(r.order, i);
    }
  }
}

/** The block cache: a doubly linked list threaded through a map by key. */
module BlockCache {
  import opened Options
  import opened Versions
  import opened Recency

  datatype CacheEntry = CacheEntry(data: Buf, prev: Option<BlockKey>, next: Option<BlockKey>)

  type Links = map<BlockKey, CacheEntry>

  /** How the source tests a link: the empty string counts as no link. */
  predicate Truthy(link: Option<BlockKey>)
  {
    link.Some? && link.value != ""
  }

  function At(ks: seq<BlockKey>, i: int): Option<BlockKey>
  {
    if 0 <= i < |ks| then Some(ks[i]) else None
  }

  /** `prev` and `next` thread the keys in this order. */
  ghost predicate Threaded(links: Links, ks: seq<BlockKey>)
  {
    Distinct(ks) && forall i :: 0 <= i < |ks| ==> ThreadedAt(links, ks, i)
  }

  ghost predicate ThreadedAt(links: Links, ks: seq<BlockKey>, i: nat)
    requires i < |ks|
  {
    && ks[i] != "" && ks[i] in links
    && links[ks[i]].prev == At(ks, i - 1) && links[ks[i]].next == At(ks, i + 1)
  }

  /** The map holds these keys and no others. */
  ghost predicate Keyed(links: Links, ks: seq<BlockKey>)
  {
    links.Keys == Elements(ks)
  }

  ghost function BlocksOf(links: Links): map<BlockKey, Buf>
  {
    map k | k in links :: links[k].data
  }

  /** The entry a link points at gets a new `next`; a null link points at none. */
  ghost function WithNext(links: Links, at: Option<BlockKey>, next: Option<BlockKey>): Links
    requires Truthy(at) ==> at.value in links
  {
    if Truthy(at) then links[at.value := links[at.value].(next := next)] else links
  }

  ghost function WithPrev(links: Links, at: Option<BlockKey>, prev: Option<BlockKey>): Links
    requires Truthy(at) ==> at.value in links
  {
    if Truthy(at) then links[at.value := links[at.value].(prev := prev)] else links
  }

  lemma LinksKeepBlocks(links: Links, key: BlockKey, prev: Option<BlockKey>, next: Option<BlockKey>)
    requires key in links
    ensures BlocksOf(links[key := links[key].(prev := prev)]) == BlocksOf(links)
    ensures BlocksOf(links[key := links[key].(next := next)]) == BlocksOf(links)
    ensures BlocksOf(links[key := links[key].(prev := prev, next := next)]) == BlocksOf(links)
  {
  }

  ghost predicate HasNeighbours(links: Links, key: BlockKey)
  {
    && key in links
    && (Truthy(links[key].prev) ==> links[key].prev.value in links)
    && (Truthy(links[key].next) ==> links[key].next.value in links)
  }

  ghost function Bypassed(links: Links, key: BlockKey): Links
    requires HasNeighbours(links, key)
  {
    var e := links[key];
    WithPrev(WithNext(links, e.prev, e.next), e.next, e.prev)
  }

  lemma NeighboursListed(links: Links, ks: seq<BlockKey>, i: nat)
    requires Threaded(links, ks) && i < |ks|
    ensures ks[i] in links && links[ks[i]].prev == At(ks, i - 1) && links[ks[i]].next == At(ks, i + 1)
    ensures Truthy(links[ks[i]].prev) <==> i > 0
    ensures Truthy(links[ks[i]].next) <==> i + 1 < |ks|
    ensures HasNeighbours(links, ks[i])
  {
    assert ThreadedAt(links, ks, i);
    assert i > 0 ==> ThreadedAt(links, ks, i - 1);
    assert i + 1 < |ks| ==> ThreadedAt(links, ks, i + 1);
  }

  /** Letting the neighbours of a key bypass it threads the list without it. */
  lemma BypassThreads(links: Links, ks: seq<BlockKey>, i: nat)
    requires Threaded(links, ks) && i < |ks|
    requires HasNeighbours(links, ks[i])
    ensures Threaded(Bypassed(links, ks[i]), Filtered(ks, {ks[i]}))
  {
    var after, rest := Bypassed(links, ks[i]), Filtered(ks, {ks[i]});
    FilteredAt(ks, i);
    FilteredElements(ks, {ks[i]});
    forall j | 0 <= j < |rest|
      ensures ThreadedAt(after, rest, j)
    {
      var k := if j < i then j else j + 1;
      assert At(rest, j) == Some(ks[k]);
      BypassThreadsAt(links, ks, i, k);
    }
  }

  lemma BypassThreadsAt(links: Links, ks: seq<BlockKey>, i: nat, k: nat)
    requires Threaded(links, ks) && i < |ks| && k < |ks| && k != i
    requires HasNeighbours(links, ks[i])
    ensures var rest, j := ks[..i] + ks[i + 1..], if k < i then k else k - 1;
            && ks[k] in Bypassed(links, ks[i]) && ks[k] != ""
            && Bypassed(links, ks[i])[ks[k]].prev == At(rest, j - 1)
            && Bypassed(links, ks[i])[ks[k]].next == At(rest, j + 1)
  {
    NeighboursListed(links, ks, i);
    NeighboursListed(links, ks, k);
    assert ThreadedAt(links, ks, k);
    BypassedEntry(links, ks[i], ks[k]);
    BypassAt(ks, i, k);
  }

  lemma BypassedEntry(links: Links, key: BlockKey, k: BlockKey)
    requires HasNeighbours(links, key) && k in links && k != key && k != ""
    ensures k in Bypassed(links, key)
    ensures Bypassed(links, key)[k].prev == if links[key].next == Some(k) then links[key].prev else links[k].prev
    ensures Bypassed(links, key)[k].next == if links[key].prev == Some(k) then links[key].next else links[k].next
  {
  }

  /** The neighbours of a key in the list without `ks[i]`. */
  lemma BypassAt(ks: seq<BlockKey>, i: nat, k: nat)
    requires Distinct(ks) && i < |ks| && k < |ks| && k != i
    ensures var rest, j := ks[..i] + ks[i + 1..], if k < i then k else k - 1;
            && At(rest, j) == Some(ks[k])
            && At(rest, j - 1) == (if At(ks, i + 1) == Some(ks[k]) then At(ks, i - 1) else At(ks, k - 1))
            && At(rest, j + 1) == (if At(ks, i - 1) == Some(ks[k]) then At(ks, i + 1) else At(ks, k + 1))
  {
    var j := if k < i then k else k - 1;
    AtOnce(ks, i - 1, k);
    AtOnce(ks, i + 1, k);
    AtRest(ks, i, j);
    AtRest(ks, i, j - 1);
    AtRest(ks, i, j + 1);
  }

  lemma AtOnce(ks: seq<BlockKey>, i: int, k: nat)
    requires Distinct(ks) && k < |ks|
    ensures At(ks, i) == Some(ks[k]) <==> i == k
  {
  }

  lemma AtRest(ks: seq<BlockKey>, i: nat, m: int)
    requires i < |ks|
    ensures At(ks[..i] + ks[i + 1..], m) == At(ks, if m < i then m else m + 1)
  {
  }

  /** Changing an entry off the list does not disturb the list. */
  lemma OffList(links: Links, ks: seq<BlockKey>, key: BlockKey, e: CacheEntry)
    requires Threaded(links, ks) && key !in ks
    ensures Threaded(links[key := e], ks)
  {
    var after := links[key := e];
    forall i | 0 <= i < |ks| ensures ThreadedAt(after, ks, i) {
      assert ThreadedAt(links, ks, i);
    }
  }

  lemma Detached(links: Links, ks: seq<BlockKey>, i: nat) returns (after: Links)
    requires Threaded(links, ks) && i < |ks|
    requires HasNeighbours(links, ks[i])
    ensures ks[i] in Bypassed(links, ks[i])
    ensures after == Bypassed(links, ks[i])[ks[i] := Bypassed(links, ks[i])[ks[i]].(prev := None, next := None)]
    ensures after.Keys == links.Keys && BlocksOf(after) == BlocksOf(links)
    ensures Threaded(after, Filtered(ks, {ks[i]}))
    ensures At(Filtered(ks, {ks[i]}), 0) == if i == 0 then At(ks, 1) else At(ks, 0)
    ensures At(Filtered(ks, {ks[i]}), |Filtered(ks, {ks[i]})| - 1) == At(ks, if i == |ks| - 1 then i - 1 else |ks| - 1)
  {
    var key := ks[i];
    var bypassed := Bypassed(links, key);
    NeighboursListed(links, ks, i);
    BypassThreads(links, ks, i);
    BypassKeepsBlocks(links, key);
    EndsWithout(ks, i);
    FilteredElements(ks, {key});
    OffList(bypassed, Filtered(ks, {key}), key, bypassed[key].(prev := None, next := None));
    LinksKeepBlocks(bypassed, key, None, None);
    after := bypassed[key := bypassed[key].(prev := None, next := None)];
  }

  lemma BypassKeepsBlocks(links: Links, key: BlockKey)
    requires HasNeighbours(links, key)
    ensures Bypassed(links, key).Keys == links.Keys && BlocksOf(Bypassed(links, key)) == BlocksOf(links)
  {
    var e := links[key];
    if Truthy(e.prev) { LinksKeepBlocks(links, e.prev.value, None, e.next); }
    var half := WithNext(links, e.prev, e.next);
    if Truthy(e.next) { LinksKeepBlocks(half, e.next.value, e.prev, None); }
  }

  lemma EndsWithout(ks: seq<BlockKey>, i: nat)
    requires Distinct(ks) && i < |ks|
    ensures var rest := Filtered(ks, {ks[i]});
            && At(rest, 0) == (if i == 0 then At(ks, 1) else At(ks, 0))
            && At(rest, |rest| - 1) == At(ks, if i == |ks| - 1 then i - 1 else |ks| - 1)
  {
    FilteredAt(ks, i);
    AtRest(ks, i, 0);
    AtRest(ks, i, |ks| - 2);
  }

  lemma PushThreads(links: Links, ks: seq<BlockKey>, key: BlockKey)
    requires Threaded(links, ks) && key !in ks && key != "" && key in links
    requires links[key].prev == None && links[key].next == At(ks, 0)
    ensures Truthy(At(ks, 0)) <==> ks != []
    ensures ks != [] ==> ks[0] in links && Truthy(At(ks, |ks| - 1))
    ensures Threaded(WithPrev(links, At(ks, 0), Some(key)), [key] + ks)
  {
    if ks != [] {
      assert ThreadedAt(links, ks, 0) && ThreadedAt(links, ks, |ks| - 1);
    }
    var after, all := WithPrev(links, At(ks, 0), Some(key)), [key] + ks;
    forall j | 0 <= j < |all|
      ensures ThreadedAt(after, all, j)
    {
      if j > 0 {
        assert ThreadedAt(links, ks, j - 1);
        assert all[j] == ks[j - 1];
        assert j > 1 ==> ks[j - 1] != ks[0];
      }
    }
  }

  lemma MovedElements(ks: seq<BlockKey>, key: BlockKey)
    requires Distinct(ks) && key in ks
    ensures Elements([key] + Filtered(ks, {key})) == Elements(ks) && |Filtered(ks, {key})| == |ks| - 1
    ensures key !in Filtered(ks, {key})
  {
    FilteredElements(ks, {key});
    var i :| 0 <= i < |ks| && ks[i] == key;
    FilteredAt(ks, i);
  }

  lemma MovedKeyed(before: Links, after: Links, ks: seq<BlockKey>, key: BlockKey)
    requires Keyed(before, ks) && Distinct(ks) && key in ks && BlocksOf(after) == BlocksOf(before)
    ensures Keyed(after, [key] + Filtered(ks, {key})) && |[key] + Filtered(ks, {key})| == |ks|
  {
    MovedElements(ks, key);
    assert forall k :: k in after <==> k in BlocksOf(after);
    assert forall k :: k in before <==> k in BlocksOf(before);
  }

  lemma WithPrefixStep(keys: set<BlockKey>, todo: set<BlockKey>, prefix: string, key: BlockKey)
    requires key in todo && todo <= keys
    ensures var gone := WithPrefix(keys - todo, prefix);
            && key !in gone
            && WithPrefix(keys - (todo - {key}), prefix) == if prefix <= key then gone + {key} else gone
  {
  }

  /** Every key but those still to do has been looked at. */
  ghost function Cleared(r: Recent, todo: set<BlockKey>, prefix: string): Recent
  {
    Invalidated(r, WithPrefix(r.blocks.Keys - todo, prefix))
  }

  lemma ClearedNone(r: Recent, prefix: string)
    ensures Cleared(r, r.blocks.Keys, prefix) == r
  {
    assert WithPrefix(r.blocks.Keys - r.blocks.Keys, prefix) == {};
    FilteredNone(r.order, {});
  }

  lemma LastFiltered(ks: seq<BlockKey>)
    requires Distinct(ks) && ks != []
    ensures Filtered(ks, {ks[|ks| - 1]}) == ks[..|ks| - 1]
  {
    var n := |ks| - 1;
    FilteredAt(ks, n);
    assert ks[n + 1..] == [];
  }

  /** What the map and the list without its last key hold. */
  lemma CutBlocks(links: Links, ks: seq<BlockKey>)
    requires Distinct(ks) && ks != [] && Keyed(links, ks)
    ensures Filtered(ks, {ks[|ks| - 1]}) == ks[..|ks| - 1]
    ensures BlocksOf(links) - {ks[|ks| - 1]} == Restricted(BlocksOf(links), ks[..|ks| - 1])
  {
    LastFiltered(ks);
    FilteredElements(ks, {ks[|ks| - 1]});
  }

  lemma PushKeyed(before: Links, after: Links, ks: seq<BlockKey>, key: BlockKey, data: Buf)
    requires Keyed(before, ks) && Distinct(ks) && key !in ks && BlocksOf(after) == BlocksOf(before)[key := data]
    ensures Keyed(after, [key] + ks) && |after| == |ks| + 1
  {
    assert after.Keys == BlocksOf(after).Keys == before.Keys + {key};
    assert forall k :: k in [key] + ks <==> k in ks || k == key;
    DistinctSize(ks);
    assert |after.Keys| == |before.Keys| + 1;
  }

  lemma PutBack(blocks: map<BlockKey, Buf>, key: BlockKey)
    requires key in blocks
    ensures blocks[key := blocks[key]] == blocks
  {
  }

  lemma BlocksWithout(links: Links, key: BlockKey)
    ensures BlocksOf(links - {key}) == BlocksOf(links) - {key}
  {
  }

  class LRUBlockCache {
    var cache: Links
    var head: Option<BlockKey>
    var tail: Option<BlockKey>
    const capacity: nat
    /** The keys from `head` to `tail`. */
    ghost var order: seq<BlockKey>

    constructor (capacity: nat)
      ensures Valid() && Contents() == Recent([], map[]) && this.capacity == capacity
    {
      this.capacity := capacity;
      cache, head, tail, order := map[], None, None, [];
    }

    /** The list from `head` by `next` is `order`; some entries may be off the list. */
    ghost predicate Listed()
      reads this
    {
      Threaded(cache, order) && head == At(order, 0) && tail == At(order, |order| - 1)
    }

    ghost predicate Valid()
      reads this
    {
      Listed() && Keyed(cache, order) && |order| <= capacity
    }

    ghost function Contents(): Recent
      reads this
    {
      Recent(order, BlocksOf(cache))
    }

    /** `unlinkNode`: the key leaves the list, its entry stays. */
    method UnlinkNode(key: BlockKey)
      requires Listed() && key in order
      modifies `cache, `head, `tail, `order
      ensures Listed() && order == Filtered(old(order), {key})
      ensures cache.Keys == old(cache).Keys && BlocksOf(cache) == BlocksOf(old(cache))
    {
      ghost var i :| 0 <= i < |order| && order[i] == key;
      NeighboursListed(cache, order, i);
      ghost var after := Detached(cache, order, i);
      var e := cache[key];
      if Truthy(e.prev) {
        cache := cache[e.prev.value := cache[e.prev.value].(next := e.next)];
      } else {
        head := e.next;
      }
      if Truthy(e.next) {
        cache := cache[e.next.value := cache[e.next.value].(prev := e.prev)];
      } else {
        tail := e.prev;
      }
      cache := cache[key := cache[key].(prev := None, next := None)];
      order := Filtered(order, {key});
      assert cache == after;
    }

    /** What `set` and `moveToHead` share: a key off the list becomes the head. */
    method PushFront(key: BlockKey, data: Buf)
      requires Listed() && key !in order && key != ""
      modifies `cache, `head, `tail, `order
      ensures Listed() && Contents() == Pushed(old(Contents()), key, data)
    {
      OffList(cache, order, key, CacheEntry(data, None, head));
      cache := cache[key := CacheEntry(data, None, head)];
      PushThreads(cache, order, key);
      if Truthy(head) {
        LinksKeepBlocks(cache, head.value, Some(key), None);
        cache := cache[head.value := cache[head.value].(prev := Some(key))];
      }
      head := Some(key);
      if !Truthy(tail) {
        tail := Some(key);
      }
      order := [key] + order;
    }

    method MoveToHead(key: BlockKey)
      requires Valid() && key in cache
      modifies `cache, `head, `tail, `order
      ensures Valid() && order == [key] + Filtered(old(order), {key})
      ensures BlocksOf(cache) == BlocksOf(old(cache))
    {
      FilteredElements(order, {key});
      if head == Some(key) {
        FilteredAt(order, 0);
        return;
      }
      Nonempty(key);
      UnlinkNode(key);
      PutBack(BlocksOf(cache), key);
      PushFront(key, cache[key].data);
      MovedKeyed(old(cache), cache, old(order), key);
    }

    lemma Nonempty(key: BlockKey)
      requires Valid() && key in cache
      ensures key != ""
    {
      var i :| 0 <= i < |order| && order[i] == key;
      assert ThreadedAt(cache, order, i);
    }

    method Get(key: BlockKey) returns (data: Option<Buf>)
      requires Valid()
      modifies `cache, `head, `tail, `order
      ensures Valid() && Contents() == Touched(old(Contents()), key)
      ensures data == if key in old(cache) then Some(old(cache)[key].data) else None
    {
      if key !in cache {
        return None;
      }
      data := Some(cache[key].data);
      MoveToHead(key);
    }

    method EvictTail()
      requires Listed() && Keyed(cache, order) && order != []
      modifies `cache, `head, `tail, `order
      ensures Listed() && Keyed(cache, order) && Contents() == Cut(old(Contents()))
    {
      TailIsLast();
      CutBlocks(cache, order);
      if !Truthy(tail) {
        return;
      }
      var evict := tail.value;
      UnlinkNode(evict);
      DropUnlinked(evict, old(order));
    }

    lemma TailIsLast()
      requires Listed() && order != []
      ensures tail == Some(order[|order| - 1]) && Truthy(tail)
    {
      assert ThreadedAt(cache, order, |order| - 1);
    }

    method DropUnlinked(key: BlockKey, ghost before: seq<BlockKey>)
      requires Listed() && Keyed(cache, before) && key in before && order == Filtered(before, {key})
      modifies `cache
      ensures Listed() && Keyed(cache, order)
      ensures BlocksOf(cache) == BlocksOf(old(cache)) - {key}
    {
      BlocksWithout(cache, key);
      FilteredElements(before, {key});
      forall i | 0 <= i < |order| ensures ThreadedAt(cache - {key}, order, i) {
        assert ThreadedAt(cache, order, i);
      }
      cache := cache - {key};
    }

    method Set(key: BlockKey, data: Buf)
      requires Valid() && key != ""
      modifies `cache, `head, `tail, `order
      ensures Valid() && Contents() == Inserted(old(Contents()), key, data, capacity)
    {
      FilteredElements(order, {key});
      if key in cache {
        Replace(key, data);
        MoveToHead(key);
      } else {
        Insert(key, data);
      }
    }

    method Insert(key: BlockKey, data: Buf)
      requires Valid() && key != "" && key !in cache
      modifies `cache, `head, `tail, `order
      ensures Valid() && Contents() == Inserted(old(Contents()), key, data, capacity)
    {
      FilteredNone(order, {key});
      PushFront(key, data);
      PushKeyed(old(cache), cache, old(order), key, data);
      if |cache| > capacity {
        EvictTail();
      }
    }

    method Replace(key: BlockKey, data: Buf)
      requires Valid() && key in cache
      modifies `cache
      ensures Valid() && BlocksOf(cache) == BlocksOf(old(cache))[key := data]
    {
      var after := cache[key := cache[key].(data := data)];
      forall i | 0 <= i < |order| ensures ThreadedAt(after, order, i) {
        assert ThreadedAt(cache, order, i);
      }
      cache := after;
    }

    /** `invalidate`: every key with the prefix leaves, and the others keep their order. */
    method Invalidate(prefix: string)
      requires Valid()
      modifies `cache, `head, `tail, `order
      ensures Valid()
      ensures Contents() == Invalidated(old(Contents()), WithPrefix(old(cache).Keys, prefix))
    {
      var todo := cache.Keys;
      ghost var before := Contents();
      assert todo == before.blocks.Keys;
      ClearedNone(before, prefix);
      while todo != {}
        invariant Valid() && todo <= before.blocks.Keys && Contents() == Cleared(before, todo, prefix)
        decreases todo
      {
        var key :| key in todo;
        WithPrefixStep(before.blocks.Keys, todo, prefix, key);
        InvalidateOne(key, prefix, before, WithPrefix(before.blocks.Keys - todo, prefix));
        todo := todo - {key};
      }
      assert before.blocks.Keys - todo == old(cache).Keys;
    }

    method InvalidateOne(key: BlockKey, prefix: string, ghost before: Recent, ghost gone: set<BlockKey>)
      requires Valid() && Contents() == Invalidated(before, gone) && key in before.blocks && key !in gone
      modifies `cache, `head, `tail, `order
      ensures Valid()
      ensures Contents() == Invalidated(before, if prefix <= key then gone + {key} else gone)
    {
      if prefix <= key {
        InvalidatedTwice(before, gone, key);
        assert key in BlocksOf(cache);
        Remove(key);
      }
    }

    lemma InvalidatedTwice(r: Recent, gone: set<BlockKey>, key: BlockKey)
      ensures Filtered(Filtered(r.order, gone), {key}) == Filtered(r.order, gone + {key})
      ensures (r.blocks - gone) - {key} == r.blocks - (gone + {key})
    {
      FilteredTwice(r.order, gone, {key});
    }

    method Remove(key: BlockKey)
      requires Valid() && key in cache
      modifies `cache, `head, `tail, `order
      ensures Valid() && order == Filtered(old(order), {key})
      ensures BlocksOf(cache) == BlocksOf(old(cache)) - {key}
    {
      FilteredElements(order, {key});
      UnlinkNode(key);
      DropUnlinked(key, old(order));
    }

    /** Everything cached is what the disk holds. */
    ghost predicate Coherent(disk: BlockKey -> Buf)
      reads `cache
    {
      forall k :: k in cache ==> BlocksOf(cache)[k] == disk(k)
    }

    /** How a block is read: from the cache, or from disk and then kept. */
    method ReadThrough(key: BlockKey, disk: BlockKey -> Buf) returns (data: Buf)
      requires Valid() && Coherent(disk) && key != ""
      modifies `cache, `head, `tail, `order
      ensures Valid() && Coherent(disk) && data == disk(key)
      ensures Contents() == if key in old(cache) then Touched(old(Contents()), key)
                            else Inserted(old(Contents()), key, data, capacity)
    {
      ghost var before := Contents();
      assert cache.Keys == BlocksOf(cache).Keys;
      var hit := Get(key);
      if hit.Some? {
        assert BlocksOf(cache) == before.blocks;
        assert cache.Keys == BlocksOf(cache).Keys;
        return hit.value;
      }
      data := disk(key);
      Set(key, data);
      assert BlocksOf(cache) == Inserted(before, key, data, capacity).blocks;
      assert cache.Keys == BlocksOf(cache).Keys;
    }
  }
}
