/**
 capa-x/src/parallel.rs: the bounded, deterministic parallel map.
 The pool is a state machine; one step is one action of one worker on the shared cursor and stop flag.
 */
module ParallelMap {
  import opened Base
  import opened Sorting

  type Jobs = n: nat | n >= 1 witness 1

  // ---- the serial reference ----

  function Serial<T, R, E>(items: seq<T>, f: T -> Outcome<R, E>): Outcome<seq<R>, E> {
    if items == [] then Ok([])
    else
      var first :- f(items[0]);
      var rest :- Serial(items[1..], f);
      Ok([first] + rest)
  }

  lemma {:induction false} SerialHasAll<T, R, E>(items: seq<T>, f: T -> Outcome<R, E>)
    ensures Serial(items, f).Ok? ==> |Serial(items, f).value| == |items|
  {
    if items != [] {
      SerialHasAll(items[1..], f);
    }
  }

  lemma {:induction false} SerialSucceeds<T, R, E>(items: seq<T>, f: T -> Outcome<R, E>, values: seq<R>)
    requires |values| == |items| && forall i | 0 <= i < |items| :: f(items[i]) == Ok(values[i])
    ensures Serial(items, f) == Ok(values)
  {
    if items != [] {
      SerialSucceeds(items[1..], f, values[1..]);
      assert [values[0]] + values[1..] == values;
    }
  }

  lemma {:induction false} SerialFails<T, R, E>(items: seq<T>, f: T -> Outcome<R, E>, lowest: nat)
    requires lowest < |items| && f(items[lowest]).Err?
    requires forall i | 0 <= i < lowest :: f(items[i]).Ok?
    ensures Serial(items, f) == Err(f(items[lowest]).error)
  {
    if lowest > 0 {
      assert f(items[0]).Ok?;
      SerialFails(items[1..], f, lowest - 1);
    }
  }

  // ---- the pool ----

  datatype Pc = AtLoad | AtClaim | Running(index: nat) | Exited

  datatype Worker<R, E> = Worker(pc: Pc, produced: seq<(nat, R)>, error: Option<(nat, E)>)

  datatype Pool<R, E> = Pool(cursor: nat, failed: bool, workers: seq<Worker<R, E>>)

  function Start<R, E>(workers: nat): Pool<R, E> {
    Pool(0, false, seq(workers, _ => Worker(AtLoad, [], None)))
  }

  /** One action of worker `w`. A read of the stop flag may be stale: it may miss a flag that is already set. */
  function Step<T, R, E>(items: seq<T>, f: T -> Outcome<R, E>, pool: Pool<R, E>, w: nat, stale: bool): Pool<R, E>
    requires w < |pool.workers| && !pool.workers[w].pc.Exited?
    requires pool.workers[w].pc.Running? ==> pool.workers[w].pc.index < |items|
  {
    var me := pool.workers[w];
    match me.pc
    case AtLoad =>
      pool.(workers := pool.workers[w := me.(pc := if pool.failed && !stale then Exited else AtClaim)])
    case AtClaim =>
      pool.(cursor := pool.cursor + 1,
            workers := pool.workers[w := me.(pc := if pool.cursor < |items| then Running(pool.cursor) else Exited)])
    case Running(index) =>
      match f(items[index])
      case Ok(value) =>
        pool.(workers := pool.workers[w := me.(pc := AtLoad, produced := me.produced + [(index, value)])])
      case Err(e) =>
        pool.(failed := true, workers := pool.workers[w := me.(pc := Exited, error := Some((index, e)))])
  }

  ghost predicate AllExited<R, E>(pool: Pool<R, E>) {
    forall w | 0 <= w < |pool.workers| :: pool.workers[w].pc.Exited?
  }

  // ---- what every step keeps ----

  ghost function ProducedIndices<R, E>(w: Worker<R, E>): set<nat> {
    set k | 0 <= k < |w.produced| :: w.produced[k].0
  }

  /** The indices that worker `w` has claimed. */
  ghost function Held<R, E>(w: Worker<R, E>): set<nat> {
    ProducedIndices(w) + (if w.pc.Running? then {w.pc.index} else {})
    + (if w.error.Some? then {w.error.value.0} else {})
  }

  ghost predicate WorkerOk<T, R, E>(items: seq<T>, f: T -> Outcome<R, E>, w: Worker<R, E>) {
    && (forall k | 0 <= k < |w.produced| ::
          w.produced[k].0 < |items| && f(items[w.produced[k].0]) == Ok(w.produced[k].1))
    && (forall j, k | 0 <= j < k < |w.produced| :: w.produced[j].0 != w.produced[k].0)
    && (w.pc.Running? ==> w.pc.index < |items| && w.pc.index !in ProducedIndices(w))
    && (w.error.Some? ==>
          w.pc.Exited? && w.error.value.0 < |items| && f(items[w.error.value.0]) == Err(w.error.value.1))
  }

  ghost predicate Claimed<R, E>(pool: Pool<R, E>, i: nat) {
    exists w | 0 <= w < |pool.workers| :: i in Held(pool.workers[w])
  }

  ghost predicate Inv<T, R, E>(items: seq<T>, f: T -> Outcome<R, E>, pool: Pool<R, E>) {
    && (forall w | 0 <= w < |pool.workers| :: WorkerOk(items, f, pool.workers[w]))
    && (forall v, w | 0 <= v < w < |pool.workers| :: Held(pool.workers[v]) !! Held(pool.workers[w]))
    && (forall i: nat :: i < pool.cursor && i < |items| <==> Claimed(pool, i))
    && FlagIsRight(pool)
    && (forall w | 0 <= w < |pool.workers| && pool.workers[w].pc.Exited? :: pool.failed || pool.cursor >= |items|)
  }

  lemma StartIsOk<T, R, E>(items: seq<T>, f: T -> Outcome<R, E>, workers: nat)
    ensures Inv(items, f, Start<R, E>(workers))
  {
  }

  lemma StepKeepsInv<T, R, E>(items: seq<T>, f: T -> Outcome<R, E>, pool: Pool<R, E>, w: nat, stale: bool)
    requires Inv(items, f, pool)
    requires w < |pool.workers| && !pool.workers[w].pc.Exited?
    ensures Inv(items, f, Step(items, f, pool, w, stale))
  {
    var next := Step(items, f, pool, w, stale);
    var me, after := pool.workers[w], next.workers[w];
    CursorIsUnclaimed(items, f, pool);
    StepHolds(items, f, pool, w, stale);
    var added := if me.pc.AtClaim? && pool.cursor < |items| then {pool.cursor} else {};
    StepClaims(pool, next, w, added);
    StepRaisesFlag(items, f, pool, w, stale);
    forall v | 0 <= v < |pool.workers| && v != w ensures Held(next.workers[v]) !! Held(after) {
      assert next.workers[v] == pool.workers[v];
    }
  }

  lemma CursorIsUnclaimed<T, R, E>(items: seq<T>, f: T -> Outcome<R, E>, pool: Pool<R, E>)
    requires Inv(items, f, pool)
    ensures forall v | 0 <= v < |pool.workers| :: pool.cursor !in Held(pool.workers[v])
  {
    forall v | 0 <= v < |pool.workers| ensures pool.cursor !in Held(pool.workers[v]) {
      if pool.cursor in Held(pool.workers[v]) {
        assert Claimed(pool, pool.cursor);
      }
    }
  }

  ghost predicate FlagIsRight<R, E>(pool: Pool<R, E>) {
    pool.failed <==> exists w :: 0 <= w < |pool.workers| && pool.workers[w].error.Some?
  }

  lemma StepRaisesFlag<T, R, E>(items: seq<T>, f: T -> Outcome<R, E>, pool: Pool<R, E>, w: nat, stale: bool)
    requires Inv(items, f, pool) && w < |pool.workers| && !pool.workers[w].pc.Exited?
    ensures FlagIsRight(Step(items, f, pool, w, stale))
  {
    var next := Step(items, f, pool, w, stale);
    assert WorkerOk(items, f, pool.workers[w]);
    if v :| 0 <= v < |pool.workers| && pool.workers[v].error.Some? {
      assert next.workers[v].error.Some?;
    }
    if next.workers[w].error.Some? {
      assert next.failed;
    }
  }

  /** When one worker comes to hold `added` more, so does the pool. */
  lemma StepClaims<R, E>(pool: Pool<R, E>, next: Pool<R, E>, w: nat, added: set<nat>)
    requires w < |pool.workers| == |next.workers|
    requires forall v | 0 <= v < |pool.workers| && v != w :: next.workers[v] == pool.workers[v]
    requires Held(next.workers[w]) == Held(pool.workers[w]) + added
    ensures forall i: nat :: Claimed(next, i) <==> Claimed(pool, i) || i in added
  {
    forall i: nat ensures Claimed(next, i) <==> Claimed(pool, i) || i in added {
      if v :| 0 <= v < |pool.workers| && i in Held(pool.workers[v]) {
        assert i in Held(next.workers[v]);
      }
      if i in added {
        assert i in Held(next.workers[w]);
      }
    }
  }

  /** A step changes what its worker holds only by the index it claims. */
  lemma StepHolds<T, R, E>(items: seq<T>, f: T -> Outcome<R, E>, pool: Pool<R, E>, w: nat, stale: bool)
    requires w < |pool.workers| && !pool.workers[w].pc.Exited? && WorkerOk(items, f, pool.workers[w])
    ensures var me, after := pool.workers[w], Step(items, f, pool, w, stale).workers[w];
            && Held(after) == Held(me) + (if me.pc.AtClaim? && pool.cursor < |items| then {pool.cursor} else {})
            && (pool.cursor !in Held(me) ==> WorkerOk(items, f, after))
  {
    var me, after := pool.workers[w], Step(items, f, pool, w, stale).workers[w];
    if me.pc.Running? && f(items[me.pc.index]).Ok? {
      assert ProducedIndices(after) == ProducedIndices(me) + {me.pc.index} by {
        assert after.produced[|me.produced|].0 == me.pc.index;
        forall k | 0 <= k < |me.produced| ensures me.produced[k].0 in ProducedIndices(after) {
          assert after.produced[k] == me.produced[k];
        }
      }
      forall k | 0 <= k < |me.produced| ensures me.produced[k].0 != me.pc.index {
        assert me.produced[k].0 in ProducedIndices(me);
      }
    } else {
      assert ProducedIndices(after) == ProducedIndices(me);
    }
  }

  // ---- runs ----

  ghost predicate CanFollow<T, R, E>(items: seq<T>, f: T -> Outcome<R, E>, pool: Pool<R, E>, next: Pool<R, E>) {
    exists w, stale | 0 <= w < |pool.workers| && !pool.workers[w].pc.Exited?
                      && (pool.workers[w].pc.Running? ==> pool.workers[w].pc.index < |items|) ::
      next == Step(items, f, pool, w, stale)
  }

  /** An interleaving: a start, then any worker's action after any other's, with any reads of the flag. */
  ghost predicate IsRun<T, R, E>(items: seq<T>, f: T -> Outcome<R, E>, workers: nat, run: seq<Pool<R, E>>) {
    && run != [] && run[0] == Start(workers)
    && forall i | 0 <= i < |run| - 1 :: CanFollow(items, f, run[i], run[i + 1])
  }

  lemma {:induction false} RunKeepsInv<T, R, E>(items: seq<T>, f: T -> Outcome<R, E>, workers: nat,
                                                run: seq<Pool<R, E>>)
    requires IsRun(items, f, workers, run)
    ensures Inv(items, f, run[|run| - 1]) && |run[|run| - 1].workers| == workers
  {
    if |run| == 1 {
      StartIsOk(items, f, workers);
    } else {
      var init := run[..|run| - 1];
      assert forall i | 0 <= i < |init| - 1 :: CanFollow(items, f, run[i], run[i + 1]);
      RunKeepsInv(items, f, workers, init);
      var last := init[|init| - 1];
      assert CanFollow(items, f, run[|run| - 2], run[|run| - 1]);
      var w, stale :| 0 <= w < |last.workers| && !last.workers[w].pc.Exited?
                      && (last.workers[w].pc.Running? ==> last.workers[w].pc.index < |items|)
                      && run[|run| - 1] == Step(items, f, last, w, stale);
      StepKeepsInv(items, f, last, w, stale);
    }
  }

  // ---- every run ends ----

  function PcRank(pc: Pc): nat {
    match pc
    case AtLoad => 2
    case AtClaim => 1
    case Running(_) => 3
    case Exited => 0
  }

  function SumRanks<R, E>(workers: seq<Worker<R, E>>): nat {
    if workers == [] then 0 else SumRanks(workers[..|workers| - 1]) + PcRank(workers[|workers| - 1].pc)
  }

  function StepsLeft<T, R, E>(items: seq<T>, pool: Pool<R, E>): nat {
    SumRanks(pool.workers) + (if pool.cursor < |items| then 3 * (|items| - pool.cursor) else 0)
  }

  lemma {:induction false} SumRanksUpdate<R, E>(workers: seq<Worker<R, E>>, w: nat, next: Worker<R, E>)
    requires w < |workers|
    ensures SumRanks(workers[w := next]) == SumRanks(workers) - PcRank(workers[w].pc) + PcRank(next.pc)
  {
    var last := |workers| - 1;
    if w == last {
      assert workers[w := next][..last] == workers[..last];
    } else {
      SumRanksUpdate(workers[..last], w, next);
      assert workers[w := next][..last] == workers[..last][w := next];
    }
  }

  /** Each action uses up one of boundedly many, so no interleaving runs on for ever. */
  lemma StepUsesUp<T, R, E>(items: seq<T>, f: T -> Outcome<R, E>, pool: Pool<R, E>, w: nat, stale: bool)
    requires Inv(items, f, pool)
    requires w < |pool.workers| && !pool.workers[w].pc.Exited?
    ensures StepsLeft(items, Step(items, f, pool, w, stale)) < StepsLeft(items, pool)
  {
    SumRanksUpdate(pool.workers, w, Step(items, f, pool, w, stale).workers[w]);
  }

  // ---- what is left when every worker has exited ----

  /** A recorded failure means the lowest failing item was claimed, processed and recorded too. */
  lemma LowestErrorIsRecorded<T, R, E>(items: seq<T>, f: T -> Outcome<R, E>, pool: Pool<R, E>, i: nat)
    requires Inv(items, f, pool) && AllExited(pool)
    requires i < |items| && f(items[i]).Err? && Claimed(pool, i)
    ensures exists w | 0 <= w < |pool.workers| :: pool.workers[w].error == Some((i, f(items[i]).error))
  {
    var w :| 0 <= w < |pool.workers| && i in Held(pool.workers[w]);
    assert WorkerOk(items, f, pool.workers[w]);
  }

  /** The recorded error with the lowest index is the error of the serial loop. */
  lemma LowestErrorIsSerial<T, R, E>(items: seq<T>, f: T -> Outcome<R, E>, pool: Pool<R, E>, w: nat)
    requires Inv(items, f, pool) && AllExited(pool)
    requires w < |pool.workers| && pool.workers[w].error.Some?
    requires forall v | 0 <= v < |pool.workers| && pool.workers[v].error.Some? ::
               pool.workers[w].error.value.0 <= pool.workers[v].error.value.0
    ensures Serial(items, f) == Err(pool.workers[w].error.value.1)
  {
    var lowest := pool.workers[w].error.value.0;
    assert WorkerOk(items, f, pool.workers[w]);
    assert lowest in Held(pool.workers[w]);
    assert Claimed(pool, lowest);
    forall i | 0 <= i < lowest ensures f(items[i]).Ok? {
      assert Claimed(pool, i);
      if f(items[i]).Err? {
        LowestErrorIsRecorded(items, f, pool, i);
      }
    }
    SerialFails(items, f, lowest);
  }

  /** With no recorded error, the workers together hold the result of every item. */
  lemma EveryItemIsProduced<T, R, E>(items: seq<T>, f: T -> Outcome<R, E>, pool: Pool<R, E>, i: nat)
    requires Inv(items, f, pool) && AllExited(pool) && |pool.workers| > 0 && i < |items|
    requires forall w | 0 <= w < |pool.workers| :: pool.workers[w].error.None?
    ensures exists w | 0 <= w < |pool.workers| :: i in ProducedIndices(pool.workers[w])
  {
    assert pool.workers[0].pc.Exited?;
    assert Claimed(pool, i);
    var w :| 0 <= w < |pool.workers| && i in Held(pool.workers[w]);
    assert i in ProducedIndices(pool.workers[w]);
  }

  function Index<R>(entry: (nat, R)): int {
    entry.0
  }

  ghost predicate Has<R>(s: seq<(nat, R)>, i: nat) {
    exists k | 0 <= k < |s| :: s[k].0 == i
  }

  /** Distinct indices that cover `0..n` are, once sorted, exactly `0..n`. */
  lemma SortedIndices<R(!new)>(s: seq<(nat, R)>, n: nat)
    requires SortedBy(s, Index) && DistinctKeys(s, Index)
    requires forall e | e in s :: e.0 < n
    requires forall i: nat | i < n :: Has(s, i)
    ensures |s| == n && forall i | 0 <= i < n :: s[i].0 == i
  {
    assert forall j, k | 0 <= j < k < |s| :: Index(s[j]) <= Index(s[k]) && Index(s[j]) != Index(s[k]);
    for k := 0 to n
      invariant k <= |s| && forall i | 0 <= i < k :: s[i].0 == i
    {
      assert Has(s, k);
      var j :| 0 <= j < |s| && s[j].0 == k;
      assert Index(s[k]) <= Index(s[j]);
      assert k > 0 ==> Index(s[k - 1]) < Index(s[k]);
    }
  }

  // ---- the merge after the join ----

  /** One of the first `n` workers produced the result of item `i`. */
  ghost predicate ProducedBy<R, E>(pool: Pool<R, E>, n: nat, i: nat)
    requires n <= |pool.workers|
  {
    exists w | 0 <= w < n :: i in ProducedIndices(pool.workers[w])
  }

  /** `produced` collects what the first `n` workers hold, each index once. */
  ghost predicate Collects<T, R(!new), E>(items: seq<T>, f: T -> Outcome<R, E>, pool: Pool<R, E>, n: nat,
                                          produced: seq<(nat, R)>)
    requires n <= |pool.workers|
  {
    && (forall k | 0 <= k < |produced| :: produced[k].0 < |items| && f(items[produced[k].0]) == Ok(produced[k].1))
    && (forall k | 0 <= k < |produced| :: ProducedBy(pool, n, produced[k].0))
    && (forall i: nat | ProducedBy(pool, n, i) :: Has(produced, i))
    && DistinctKeys(produced, Index)
  }

  lemma HasConcat<R>(a: seq<(nat, R)>, b: seq<(nat, R)>, i: nat)
    ensures Has(a + b, i) <==> Has(a, i) || Has(b, i)
  {
    if Has(a, i) {
      var k :| 0 <= k < |a| && a[k].0 == i;
      assert (a + b)[k].0 == i;
    }
    if Has(b, i) {
      var k :| 0 <= k < |b| && b[k].0 == i;
      assert (a + b)[|a| + k].0 == i;
    }
  }

  lemma CollectsMore<T, R(!new), E>(items: seq<T>, f: T -> Outcome<R, E>, pool: Pool<R, E>, n: nat,
                                    produced: seq<(nat, R)>)
    requires n < |pool.workers| && Inv(items, f, pool) && Collects(items, f, pool, n, produced)
    ensures Collects(items, f, pool, n + 1, produced + pool.workers[n].produced)
  {
    var more := pool.workers[n].produced;
    var all := produced + more;
    assert WorkerOk(items, f, pool.workers[n]);
    forall i: nat
      ensures ProducedBy(pool, n + 1, i) <==> ProducedBy(pool, n, i) || i in ProducedIndices(pool.workers[n])
    {
    }
    forall i: nat ensures Has(all, i) <==> Has(produced, i) || i in ProducedIndices(pool.workers[n]) {
      HasConcat(produced, more, i);
    }
    CollectedKeysAreDistinct(items, f, pool, n, produced);
  }

  lemma CollectedKeysAreDistinct<T, R(!new), E>(items: seq<T>, f: T -> Outcome<R, E>, pool: Pool<R, E>, n: nat,
                                                produced: seq<(nat, R)>)
    requires n < |pool.workers| && Inv(items, f, pool) && Collects(items, f, pool, n, produced)
    ensures DistinctKeys(produced + pool.workers[n].produced, Index)
  {
    var more := pool.workers[n].produced;
    assert WorkerOk(items, f, pool.workers[n]);
    forall j, k | 0 <= j < |produced| && 0 <= k < |more| ensures produced[j].0 != more[k].0 {
      assert ProducedBy(pool, n, produced[j].0);
      var w :| 0 <= w < n && produced[j].0 in ProducedIndices(pool.workers[w]);
      assert Held(pool.workers[w]) !! Held(pool.workers[n]);
      assert more[k].0 in Held(pool.workers[n]);
    }
  }

  /** Sorting what was collected lists every index once, in order. */
  lemma AllAreCollected<T, R(!new), E>(items: seq<T>, f: T -> Outcome<R, E>, pool: Pool<R, E>,
                                       produced: seq<(nat, R)>, i: nat)
    requires Inv(items, f, pool) && AllExited(pool) && |pool.workers| > 0
    requires forall w | 0 <= w < |pool.workers| :: pool.workers[w].error.None?
    requires Collects(items, f, pool, |pool.workers|, produced) && i < |items|
    ensures Has(produced, i)
  {
    EveryItemIsProduced(items, f, pool, i);
  }

  lemma SortedHas<R(!new)>(produced: seq<(nat, R)>, i: nat)
    requires Has(produced, i)
    ensures Has(SortByKey(produced, Index), i)
  {
    var sorted := SortByKey(produced, Index);
    SortByKeySorts(produced, Index);
    var k :| 0 <= k < |produced| && produced[k].0 == i;
    assert produced[k] in multiset(sorted);
    assert produced[k] in sorted;
  }

  lemma CollectedSorts<T, R(!new), E>(items: seq<T>, f: T -> Outcome<R, E>, pool: Pool<R, E>, produced: seq<(nat, R)>)
    requires Inv(items, f, pool) && AllExited(pool) && |pool.workers| > 0
    requires forall w | 0 <= w < |pool.workers| :: pool.workers[w].error.None?
    requires Collects(items, f, pool, |pool.workers|, produced)
    ensures var sorted := SortByKey(produced, Index);
            && |sorted| == |items|
            && forall i | 0 <= i < |items| :: sorted[i].0 == i && f(items[i]) == Ok(sorted[i].1)
  {
    var sorted := SortByKey(produced, Index);
    SortByKeySorts(produced, Index);
    SortKeepsDistinct(produced, Index);
    forall e | e in sorted ensures e.0 < |items| && f(items[e.0]) == Ok(e.1) {
      assert e in multiset(produced);
    }
    forall i: nat | i < |items| ensures Has(sorted, i) {
      AllAreCollected(items, f, pool, produced, i);
      SortedHas(produced, i);
    }
    SortedIndices(sorted, |items|);
    assert forall i | 0 <= i < |items| :: sorted[i] in sorted;
  }

  function Values<R>(entries: seq<(nat, R)>): seq<R> {
    seq(|entries|, i requires 0 <= i < |entries| => entries[i].1)
  }

  ghost predicate NoErrors<R, E>(pool: Pool<R, E>, n: nat)
    requires n <= |pool.workers|
  {
    forall w | 0 <= w < n :: pool.workers[w].error.None?
  }

  /** Among the first `n` workers, `w` recorded the error of the lowest item. */
  ghost predicate HasLowestError<R, E>(pool: Pool<R, E>, n: nat, w: nat)
    requires n <= |pool.workers|
  {
    && w < n && pool.workers[w].error.Some?
    && forall v | 0 <= v < n && pool.workers[v].error.Some? ::
         pool.workers[w].error.value.0 <= pool.workers[v].error.value.0
  }

  /** `error` is the error of the lowest item among the first `n` workers, if they recorded any. */
  ghost predicate IsLowestError<R, E>(pool: Pool<R, E>, n: nat, error: Option<(nat, E)>)
    requires n <= |pool.workers|
  {
    if error.None? then NoErrors(pool, n)
    else exists w: nat :: HasLowestError(pool, n, w) && pool.workers[w].error == error
  }

  /** The error so far, unless the next worker's is of a lower item. */
  function LowerError<E>(first: Option<(nat, E)>, error: Option<(nat, E)>): Option<(nat, E)> {
    if error.Some? && (first.None? || error.value.0 < first.value.0) then error else first
  }

  lemma LowerErrorIsLowest<R, E>(pool: Pool<R, E>, n: nat, first: Option<(nat, E)>)
    requires n < |pool.workers| && IsLowestError(pool, n, first)
    ensures IsLowestError(pool, n + 1, LowerError(first, pool.workers[n].error))
  {
    if first.Some? {
      var w: nat :| HasLowestError(pool, n, w) && pool.workers[w].error == first;
      assert HasLowestError(pool, n + 1, if LowerError(first, pool.workers[n].error) == first then w else n);
    } else if pool.workers[n].error.Some? {
      assert HasLowestError(pool, n + 1, n);
    }
  }

  /** Some worker produced this value for item `i`. */
  ghost predicate Produced<R, E>(pool: Pool<R, E>, i: nat, value: R) {
    exists w | 0 <= w < |pool.workers| :: (i, value) in pool.workers[w].produced
  }

  lemma CollectedIsSerial<T, R(!new), E>(items: seq<T>, f: T -> Outcome<R, E>, pool: Pool<R, E>,
                                         produced: seq<(nat, R)>)
    requires Inv(items, f, pool) && AllExited(pool) && |pool.workers| > 0 && NoErrors(pool, |pool.workers|)
    requires Collects(items, f, pool, |pool.workers|, produced)
    ensures Serial(items, f) == Ok(Values(SortByKey(produced, Index)))
  {
    CollectedSorts(items, f, pool, produced);
    SerialSucceeds(items, f, Values(SortByKey(produced, Index)));
  }

  /** After the join: gather every worker's results and the error with the lowest index, then sort. */
  method Join<T, R(!new), E>(ghost items: seq<T>, ghost f: T -> Outcome<R, E>, pool: Pool<R, E>)
    returns (r: Outcome<seq<R>, E>)
    requires Inv(items, f, pool) && AllExited(pool) && |pool.workers| > 0
    ensures r == Serial(items, f)
  {
    var produced: seq<(nat, R)> := [];
    var firstError: Option<(nat, E)> := None;
    for n := 0 to |pool.workers|
      invariant Collects(items, f, pool, n, produced)
      invariant IsLowestError(pool, n, firstError)
    {
      CollectsMore(items, f, pool, n, produced);
      LowerErrorIsLowest(pool, n, firstError);
      produced := produced + pool.workers[n].produced;
      firstError := LowerError(firstError, pool.workers[n].error);
    }
    if firstError.Some? {
      ghost var first: nat :| HasLowestError(pool, |pool.workers|, first) && pool.workers[first].error == firstError;
      LowestErrorIsSerial(items, f, pool, first);
      return Err(firstError.value.1);
    }
    CollectedIsSerial(items, f, pool, produced);
    r := Ok(Values(SortByKey(produced, Index)));
  }

  /**
   The parallel map under an arbitrary scheduler: which worker acts next, and whether it sees a stale flag, is free.
   Whatever is chosen, the outcome is the serial loop's, including which error is reported.
   */
  method TryMap<T, R(!new), E>(jobs: Jobs, items: seq<T>, f: T -> Outcome<R, E>) returns (r: Outcome<seq<R>, E>)
    ensures r == Serial(items, f)
  {
    if jobs == 1 || |items| < 2 {
      return Serial(items, f);
    }
    var workers := if jobs < |items| then jobs else |items|;
    var pool: Pool<R, E> := Start(workers);
    StartIsOk(items, f, workers);
    while exists w | 0 <= w < |pool.workers| :: !pool.workers[w].pc.Exited?
      invariant Inv(items, f, pool) && |pool.workers| == workers
      decreases StepsLeft(items, pool)
    {
      var w :| 0 <= w < |pool.workers| && !pool.workers[w].pc.Exited?;
      var stale: bool := *;
      assert WorkerOk(items, f, pool.workers[w]);
      StepKeepsInv(items, f, pool, w, stale);
      StepUsesUp(items, f, pool, w, stale);
      pool := Step(items, f, pool, w, stale);
    }
    r := Join(items, f, pool);
  }

  /** Safety over whole runs: any interleaving that ends leaves the pool in a state whose join is the serial result. */
  lemma EveryRunEndsSerially<T, R(!new), E>(items: seq<T>, f: T -> Outcome<R, E>, workers: nat, run: seq<Pool<R, E>>)
    requires workers > 0 && IsRun(items, f, workers, run) && AllExited(run[|run| - 1])
    ensures var end := run[|run| - 1];
            match Serial(items, f)
            case Ok(values) =>
              && NoErrors(end, |end.workers|) && |values| == |items|
              && forall i | 0 <= i < |items| :: Produced(end, i, values[i])
            case Err(e) =>
              exists w: nat :: HasLowestError(end, |end.workers|, w) && end.workers[w].error.value.1 == e
  {
    var end := run[|run| - 1];
    RunKeepsInv(items, f, workers, run);
    if NoErrors(end, |end.workers|) {
      var values := ProducedValues(items, f, end);
      SerialSucceeds(items, f, values);
    } else {
      var some :| 0 <= some < |end.workers| && end.workers[some].error.Some?;
      var w := LowestError(end, |end.workers|, some);
      LowestErrorIsSerial(items, f, end, w);
    }
  }

  lemma ProducedValues<T, R(!new), E>(items: seq<T>, f: T -> Outcome<R, E>, pool: Pool<R, E>) returns (values: seq<R>)
    requires Inv(items, f, pool) && AllExited(pool) && |pool.workers| > 0
    requires forall w | 0 <= w < |pool.workers| :: pool.workers[w].error.None?
    ensures |values| == |items| && forall i | 0 <= i < |items| :: f(items[i]) == Ok(values[i])
    ensures forall i | 0 <= i < |items| :: Produced(pool, i, values[i])
  {
    values := [];
    for i := 0 to |items|
      invariant |values| == i && forall j | 0 <= j < i :: f(items[j]) == Ok(values[j])
      invariant forall j | 0 <= j < i :: Produced(pool, j, values[j])
    {
      var value := ItemValue(items, f, pool, i);
      values := values + [value];
    }
  }

  lemma ItemValue<T, R(!new), E>(items: seq<T>, f: T -> Outcome<R, E>, pool: Pool<R, E>, i: nat) returns (value: R)
    requires Inv(items, f, pool) && AllExited(pool) && |pool.workers| > 0 && NoErrors(pool, |pool.workers|)
             && i < |items|
    ensures f(items[i]) == Ok(value) && Produced(pool, i, value)
  {
    EveryItemIsProduced(items, f, pool, i);
    var w :| 0 <= w < |pool.workers| && i in ProducedIndices(pool.workers[w]);
    assert WorkerOk(items, f, pool.workers[w]);
    var k :| 0 <= k < |pool.workers[w].produced| && pool.workers[w].produced[k].0 == i;
    value := pool.workers[w].produced[k].1;
    assert pool.workers[w].produced[k] == (i, value);
  }

  lemma {:induction false} LowestError<R, E>(pool: Pool<R, E>, n: nat, some: nat) returns (w: nat)
    requires some < n <= |pool.workers| && pool.workers[some].error.Some?
    ensures HasLowestError(pool, n, w)
    decreases n
  {
    if some == n - 1 {
      w := some;
      if other :| 0 <= other < n - 1 && pool.workers[other].error.Some? {
        w := LowestError(pool, n - 1, other);
      }
    } else {
      w := LowestError(pool, n - 1, some);
    }
    if pool.workers[n - 1].error.Some? && pool.workers[n - 1].error.value.0 < pool.workers[w].error.value.0 {
      w := n - 1;
    }
  }
}
