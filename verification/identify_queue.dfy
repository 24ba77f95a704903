/** The identify rate limiter of the gateway: one grant per bucket every five seconds. */
module IdentifyQueues {
  const IDENTIFY_BUCKET_SPACING_MS: nat := 5_000

  datatype Grant = Grant(bucket: nat, time: nat)

  /** A change of the concurrency, a call of `waitTurn`, or the next turn: when it starts, and when it is over. */
  datatype Event = SetMax(n: int) | Ask(shardId: nat) | Turn(now: nat, done: nat)

  /** `waiting` holds the buckets of the calls whose turn is still to come, in the order they were made. */
  datatype QueueState = QueueState(
    maxConcurrency: nat,
    waiting: seq<nat>,
    last: map<nat, nat>,
    clock: nat,
    grants: seq<Grant>)

  function AtLeastOne(n: int): nat
  {
    if n > 1 then n else 1
  }

  function NewQueue(n: int): QueueState
  {
    QueueState(AtLeastOne(n), [], map[], 0, [])
  }

  function LastGrant(last: map<nat, nat>, bucket: nat): nat
  {
    if bucket in last then last[bucket] else 0
  }

  /** How long a turn asks to sleep. */
  function SleepMs(last: map<nat, nat>, bucket: nat, now: nat): nat
  {
    var elapsed := now - LastGrant(last, bucket);
    if elapsed < IDENTIFY_BUCKET_SPACING_MS then IDENTIFY_BUCKET_SPACING_MS - elapsed else 0
  }

  /** Turns come one behind the other, the clock does not run back, and no sleep is cut short. */
  predicate IsFair(st: QueueState, e: Event)
  {
    e.Turn? ==>
      st.waiting != [] && st.clock <= e.now && e.now + SleepMs(st.last, st.waiting[0], e.now) <= e.done
  }

  function Next(st: QueueState, e: Event): QueueState
    requires st.maxConcurrency > 0 && IsFair(st, e)
  {
    match e
    case SetMax(n) => st.(maxConcurrency := AtLeastOne(n))
    case Ask(shardId) => st.(waiting := st.waiting + [shardId % st.maxConcurrency])
    case Turn(_, done) =>
      st.(waiting := st.waiting[1..],
          last := st.last[st.waiting[0] := done],
          clock := done,
          grants := st.grants + [Grant(st.waiting[0], done)])
  }

  /** `clockAfter(ms)` is what the clock shows after a sleep of `ms` that starts at `now`: never too little. */
  ghost predicate NeverEarly(clockAfter: nat -> nat, now: nat)
  {
    forall ms :: now + ms <= clockAfter(ms)
  }

  /** Every sleep takes just the time asked for. */
  ghost predicate IsExact(clockAfter: nat -> nat, now: nat)
  {
    forall ms :: clockAfter(ms) == now + ms
  }

  class IdentifyQueue {
    var maxConcurrency: nat
    var queue: seq<nat>
    var lastIdentifyByBucket: map<nat, nat>
    /** The time the last turn was over, and the grants so far. */
    ghost var clock: nat
    ghost var grants: seq<Grant>

    constructor (maxConcurrency: int)
      ensures State() == NewQueue(maxConcurrency)
      ensures this.maxConcurrency == if maxConcurrency > 1 then maxConcurrency else 1
    {
      this.maxConcurrency := if maxConcurrency > 1 then maxConcurrency else 1;
      queue, lastIdentifyByBucket, clock, grants := [], map[], 0, [];
    }

    ghost function State(): QueueState
      reads this
    {
      QueueState(maxConcurrency, queue, lastIdentifyByBucket, clock, grants)
    }

    method SetMaxConcurrency(n: int)
      requires maxConcurrency > 0
      modifies `maxConcurrency
      ensures State() == Next(old(State()), SetMax(n)) && maxConcurrency == if n > 1 then n else 1
    {
      maxConcurrency := if n > 1 then n else 1;
    }

    function BucketFor(shardId: nat): nat
      reads `maxConcurrency
      requires maxConcurrency > 0
    {
      shardId % maxConcurrency
    }

    /** The bucket is settled when the turn is asked for, not when it comes. */
    method WaitTurn(shardId: nat)
      requires maxConcurrency > 0
      modifies `queue
      ensures State() == Next(old(State()), Ask(shardId))
      ensures queue == old(queue) + [shardId % maxConcurrency]
    {
      var bucket := BucketFor(shardId);
      queue := queue + [bucket];
    }

    /** The next turn, which starts when the clock shows `now`. If its sleep is exact it ends when it first may. */
    method RunTurn(now: nat, clockAfter: nat -> nat) returns (ghost done: nat)
      requires maxConcurrency > 0 && queue != [] && clock <= now && NeverEarly(clockAfter, now)
      modifies this
      ensures IsFair(old(State()), Turn(now, done))
      ensures State() == Next(old(State()), Turn(now, done))
      ensures IsExact(clockAfter, now) ==> forall d {:trigger IsFair(old(State()), Turn(now, d))} ::
                IsFair(old(State()), Turn(now, d)) ==> done <= d
      ensures IsExact(clockAfter, now) ==>
                var bucket, last := old(queue)[0], old(lastIdentifyByBucket);
                done == if bucket !in last then (if now >= 5_000 then now else 5_000)
                        else if now >= last[bucket] + 5_000 then now else last[bucket] + 5_000
    {
      var bucket := queue[0];
      queue := queue[1..];
      var last := if bucket in lastIdentifyByBucket then lastIdentifyByBucket[bucket] else 0;
      var elapsed := now - last;
      var awake;
      if elapsed < IDENTIFY_BUCKET_SPACING_MS {
        awake := clockAfter(IDENTIFY_BUCKET_SPACING_MS - elapsed);
      } else {
        awake := clockAfter(0);
      }
      lastIdentifyByBucket := lastIdentifyByBucket[bucket := awake];
      done, clock, grants := awake, awake, grants + [Grant(bucket, awake)];
    }
  }

  ghost predicate IsRun(st: QueueState, es: seq<Event>)
    requires st.maxConcurrency > 0
    decreases |es|
  {
    es == [] || (IsFair(st, es[0]) && IsRun(Next(st, es[0]), es[1..]))
  }

  function After(st: QueueState, es: seq<Event>): QueueState
    requires st.maxConcurrency > 0 && IsRun(st, es)
    decreases |es|
  {
    if es == [] then st else After(Next(st, es[0]), es[1..])
  }

  /** Grants in one bucket are at least the spacing apart. */
  ghost predicate Spaced(grants: seq<Grant>)
  {
    forall i, j :: 0 <= i < j < |grants| && grants[i].bucket == grants[j].bucket ==>
      grants[i].time + IDENTIFY_BUCKET_SPACING_MS <= grants[j].time
  }

  /** `m` bounds every concurrency there has been. */
  ghost predicate Inv(st: QueueState, m: nat)
  {
    && 0 < st.maxConcurrency <= m && Spaced(st.grants)
    && (forall i :: 0 <= i < |st.waiting| ==> st.waiting[i] < m)
    && (forall i :: 0 <= i < |st.grants| ==> st.grants[i].bucket < m)
    && forall i :: 0 <= i < |st.grants| ==>
         st.grants[i].bucket in st.last && st.grants[i].time <= st.last[st.grants[i].bucket]
  }

  ghost predicate NeverAbove(es: seq<Event>, m: nat)
  {
    forall i :: 0 <= i < |es| && es[i].SetMax? ==> es[i].n <= m
  }

  lemma {:induction false} RunKeeps(st: QueueState, es: seq<Event>, m: nat)
    requires Inv(st, m) && IsRun(st, es) && NeverAbove(es, m)
    ensures Inv(After(st, es), m)
    decreases |es|
  {
    if es != [] {
      TurnKeeps(st, es[0], m);
      RunKeeps(Next(st, es[0]), es[1..], m);
    }
  }

  lemma TurnKeeps(st: QueueState, e: Event, m: nat)
    requires Inv(st, m) && IsFair(st, e) && (e.SetMax? ==> e.n <= m)
    ensures Inv(Next(st, e), m)
  {
    if e.Turn? {
      assert st.waiting[0] < m;
      assert LastGrant(st.last, st.waiting[0]) + IDENTIFY_BUCKET_SPACING_MS <= e.done;
    } else if e.Ask? {
      assert e.shardId % st.maxConcurrency < st.maxConcurrency;
    }
  }

  ghost function InWindow(grants: seq<Grant>, from: nat): set<nat>
  {
    set i | 0 <= i < |grants| && from <= grants[i].time < from + IDENTIFY_BUCKET_SPACING_MS
  }

  ghost function Below(m: nat): (r: set<nat>)
    ensures |r| == m && forall b: nat :: b in r <==> b < m
  {
    if m == 0 then {} else Below(m - 1) + {m - 1}
  }

  lemma OneInWindow(grants: seq<Grant>, from: nat, i: nat, k: nat)
    requires Spaced(grants) && i != k && i in InWindow(grants, from) && k in InWindow(grants, from)
    ensures grants[i].bucket != grants[k].bucket
  {
  }

  /** Distinct grants of a window have distinct buckets, so there are no more of them than buckets. */
  lemma {:induction false} NoMoreThanBuckets(grants: seq<Grant>, from: nat, s: set<nat>, buckets: set<nat>)
    requires Spaced(grants) && s <= InWindow(grants, from) && forall i :: i in s ==> grants[i].bucket in buckets
    ensures |s| <= |buckets|
    decreases |s|
  {
    if s != {} {
      var i :| i in s;
      var rest, others := s - {i}, buckets - {grants[i].bucket};
      forall k | k in rest ensures grants[k].bucket in others {
        OneInWindow(grants, from, i, k);
      }
      NoMoreThanBuckets(grants, from, rest, others);
    }
  }

  /**
   * The identify rate bound. In every run, grants in one bucket are at least five seconds apart, and any
   * half-open window of five seconds holds at most as many grants as the greatest concurrency there was.
   */
  lemma RateBound(n: int, es: seq<Event>, m: nat, from: nat)
    requires IsRun(NewQueue(n), es) && NeverAbove(es, m) && AtLeastOne(n) <= m
    ensures Spaced(After(NewQueue(n), es).grants)
    ensures |InWindow(After(NewQueue(n), es).grants, from)| <= m
  {
    RunKeeps(NewQueue(n), es, m);
    var grants := After(NewQueue(n), es).grants;
    NoMoreThanBuckets(grants, from, InWindow(grants, from), Below(m));
  }

  /** What is kept of a bucket is when it was granted last. */
  ghost predicate KeepsLatest(st: QueueState)
  {
    && (forall i :: 0 <= i < |st.grants| ==>
          st.grants[i].bucket in st.last && st.grants[i].time <= st.last[st.grants[i].bucket])
    && forall b :: b in st.last ==> Grant(b, st.last[b]) in st.grants
  }

  lemma {:induction false} LatestStays(st: QueueState, es: seq<Event>, m: nat)
    requires Inv(st, m) && KeepsLatest(st) && IsRun(st, es) && NeverAbove(es, m)
    ensures KeepsLatest(After(st, es))
    decreases |es|
  {
    if es != [] {
      TurnKeeps(st, es[0], m);
      var next := Next(st, es[0]);
      if es[0].Turn? {
        var bucket, done := st.waiting[0], es[0].done;
        assert LastGrant(st.last, bucket) + 5_000 <= done;
        assert next.grants[|st.grants|] == Grant(bucket, done);
        forall b | b in next.last ensures Grant(b, next.last[b]) in next.grants {
          assert b != bucket ==> Grant(b, st.last[b]) in st.grants;
        }
      }
      LatestStays(next, es[1..], m);
    }
  }

  /**
   * No turn is held back for longer than it must be. In every run, a turn that starts at `now` may end at any
   * moment from then on that is five seconds into the clock and five seconds behind every grant of its bucket,
   * and at no other.
   */
  lemma MayEndIff(n: int, es: seq<Event>, m: nat, now: nat, done: nat)
    requires IsRun(NewQueue(n), es) && NeverAbove(es, m) && AtLeastOne(n) <= m
    ensures var st := After(NewQueue(n), es);
            IsFair(st, Turn(now, done)) <==>
              && st.waiting != [] && st.clock <= now <= done && 5_000 <= done
              && forall g :: g in st.grants && g.bucket == st.waiting[0] ==> g.time + 5_000 <= done
  {
    LatestStays(NewQueue(n), es, m);
    var st := After(NewQueue(n), es);
    if st.waiting != [] && st.waiting[0] in st.last {
      assert Grant(st.waiting[0], st.last[st.waiting[0]]) in st.grants;
    }
  }

  /** The buckets asked for in a run, each under the concurrency of its moment. */
  function Asked(st: QueueState, es: seq<Event>): seq<nat>
    requires st.maxConcurrency > 0 && IsRun(st, es)
    decreases |es|
  {
    if es == [] then []
    else AskedNow(st, es[0]) + Asked(Next(st, es[0]), es[1..])
  }

  function AskedNow(st: QueueState, e: Event): seq<nat>
    requires st.maxConcurrency > 0
  {
    if e.Ask? then [e.shardId % st.maxConcurrency] else []
  }

  /** The calls so far, answered or not. */
  function Calls(st: QueueState): seq<nat>
  {
    Granted(st.grants) + st.waiting
  }

  lemma CallsNext(st: QueueState, e: Event)
    requires st.maxConcurrency > 0 && IsFair(st, e)
    ensures Calls(Next(st, e)) == Calls(st) + AskedNow(st, e)
  {
    if e.Turn? {
      assert Next(st, e).grants[..|st.grants|] == st.grants;
    }
  }

  function Granted(grants: seq<Grant>): (bs: seq<nat>)
    ensures |bs| == |grants|
  {
    if grants == [] then [] else Granted(grants[..|grants| - 1]) + [grants[|grants| - 1].bucket]
  }

  /** Every call gets one grant, in the order of the calls: none is lost, doubled or overtaken. */
  lemma {:induction false} GrantsFollowCalls(st: QueueState, es: seq<Event>)
    requires st.maxConcurrency > 0 && IsRun(st, es)
    ensures Calls(After(st, es)) == Calls(st) + Asked(st, es)
    decreases |es|
  {
    if es != [] {
      var next := Next(st, es[0]);
      CallsNext(st, es[0]);
      assert Calls(st) + Asked(st, es) == Calls(next) + Asked(next, es[1..]);
      GrantsFollowCalls(next, es[1..]);
    }
  }

  /** Shards `j` up to `k`, each with its turn at once. */
  function Turns(j: nat, k: nat, start: nat): seq<Event>
    requires j <= k
    decreases k - j
  {
    if j == k then [] else [Ask(j), Turn(start, start)] + Turns(j + 1, k, start)
  }

  /** The bound is reached: turns of as many shards as there are buckets can all come at one moment. */
  lemma BoundIsReached(m: nat, start: nat)
    requires 0 < m && start >= IDENTIFY_BUCKET_SPACING_MS
    ensures IsRun(NewQueue(m), Turns(0, m, start))
    ensures |InWindow(After(NewQueue(m), Turns(0, m, start)).grants, start)| == m
  {
    FirstTurns(m, 0, start, NewQueue(m));
    var grants := After(NewQueue(m), Turns(0, m, start)).grants;
    assert InWindow(grants, start) == Below(m);
  }

  lemma {:induction false} FirstTurns(m: nat, j: nat, start: nat, st: QueueState)
    requires 0 < m && j <= m && start >= IDENTIFY_BUCKET_SPACING_MS && st.maxConcurrency == m && st.waiting == []
    requires st.clock <= start && (forall b :: b in st.last ==> b < j)
    requires |st.grants| == j && forall i :: 0 <= i < j ==> st.grants[i] == Grant(i, start)
    ensures IsRun(st, Turns(j, m, start))
    ensures var grants := After(st, Turns(j, m, start)).grants;
            |grants| == m && forall i :: 0 <= i < m ==> grants[i] == Grant(i, start)
    decreases m - j
  {
    if j < m {
      assert j % m == j;
      var asked := Next(st, Ask(j));
      var rest := Turns(j + 1, m, start);
      assert Turns(j, m, start)[1..] == [Turn(start, start)] + rest;
      assert Turns(j, m, start)[1..][1..] == rest;
      FirstTurns(m, j + 1, start, Next(asked, Turn(start, start)));
    }
  }
}
