/**
 The work-stealing pool shared by both exporters (src/regional_db_export.cpp `runPool`,
 src/regional_export.cpp): threads take chunk numbers from one atomic counter until the
 numbers run out. Schedules are arbitrary sequences of thread choices.
 */
module WorkPool {
  import opened Core

  datatype Pool<T> = Pool(next: nat, claims: seq<Option<nat>>, exited: seq<bool>, results: map<nat, T>)

  function Start<T>(threads: nat): Pool<T> {
    Pool(0, seq(threads, i => None), seq(threads, i => false), map[])
  }

  predicate Live<T>(p: Pool<T>, t: nat) {
    t < |p.claims| && t < |p.exited| && !p.exited[t]
  }

  /** `fetch_add` and claim or leave; or finish the claimed chunk. */
  function Step<T>(p: Pool<T>, n: nat, work: nat -> T, t: nat): Pool<T>
    requires Live(p, t)
  {
    match p.claims[t]
    case None =>
      if p.next < n then p.(next := p.next + 1, claims := p.claims[t := Some(p.next)])
      else p.(next := p.next + 1, exited := p.exited[t := true])
    case Some(ci) => p.(claims := p.claims[t := None], results := p.results[ci := work(ci)])
  }

  /** Running a schedule; choosing a thread that has left does nothing. */
  function Run<T>(p: Pool<T>, n: nat, work: nat -> T, schedule: seq<nat>): Pool<T>
    decreases |schedule|
  {
    if schedule == [] then p
    else
      var q := Run(p, n, work, schedule[..|schedule| - 1]);
      var t := schedule[|schedule| - 1];
      if Live(q, t) then Step(q, n, work, t) else q
  }

  predicate ClaimedBy<T>(p: Pool<T>, t: nat, ci: int)
    requires t < |p.claims|
  {
    p.claims[t].Some? && p.claims[t].value == ci
  }

  ghost predicate Inv<T>(p: Pool<T>, n: nat, work: nat -> T) {
    && |p.exited| == |p.claims|
    && (forall t, ci | 0 <= t < |p.claims| && ClaimedBy(p, t, ci) :: ci < n && ci < p.next && ci !in p.results && !p.exited[t])
    && (forall t, u, ci | 0 <= t < u < |p.claims| && ClaimedBy(p, t, ci) :: !ClaimedBy(p, u, ci))
    && (forall ci | ci in p.results :: ci < n && ci < p.next && p.results[ci] == work(ci))
    && (forall ci: nat | ci < n && ci < p.next && ci !in p.results :: exists t :: 0 <= t < |p.claims| && ClaimedBy(p, t, ci))
    && (forall t | 0 <= t < |p.exited| && p.exited[t] :: p.next >= n)
  }

  lemma OneClaim<T>(p: Pool<T>, n: nat, work: nat -> T, t: nat, u: nat, ci: nat)
    requires Inv(p, n, work) && t < |p.claims| && u < |p.claims| && t != u && ClaimedBy(p, t, ci)
    ensures !ClaimedBy(p, u, ci)
  {}

  lemma FinishKeeps<T>(p: Pool<T>, n: nat, work: nat -> T, t: nat)
    requires Inv(p, n, work) && Live(p, t) && p.claims[t].Some?
    ensures Inv(Step(p, n, work, t), n, work)
    ensures p.claims[t].value !in p.results
  {
    var q, mine := Step(p, n, work, t), p.claims[t].value;
    assert ClaimedBy(p, t, mine);
    forall u | 0 <= u < |p.claims| && u != t ensures !ClaimedBy(p, u, mine) {
      OneClaim(p, n, work, t, u, mine);
    }
    forall u, ci | 0 <= u < |q.claims| && ClaimedBy(q, u, ci)
      ensures ci < n && ci < q.next && ci !in q.results && !q.exited[u] { assert ClaimedBy(p, u, ci); }
    forall u, v, ci | 0 <= u < v < |q.claims| && ClaimedBy(q, u, ci) ensures !ClaimedBy(q, v, ci) {
      assert ClaimedBy(p, u, ci);
      assert ClaimedBy(q, v, ci) ==> ClaimedBy(p, v, ci);
    }
    forall ci: nat | ci < n && ci < q.next && ci !in q.results
      ensures exists u :: 0 <= u < |q.claims| && ClaimedBy(q, u, ci)
    {
      var u :| 0 <= u < |p.claims| && ClaimedBy(p, u, ci);
      assert ClaimedBy(q, u, ci);
    }
  }

  lemma ClaimKeeps<T>(p: Pool<T>, n: nat, work: nat -> T, t: nat)
    requires Inv(p, n, work) && Live(p, t) && p.claims[t].None?
    ensures Inv(Step(p, n, work, t), n, work)
  {
    var q := Step(p, n, work, t);
    forall u, ci | 0 <= u < |q.claims| && ClaimedBy(q, u, ci)
      ensures ci < n && ci < q.next && ci !in q.results && !q.exited[u] { if u != t { assert ClaimedBy(p, u, ci); } }
    forall u, v, ci | 0 <= u < v < |q.claims| && ClaimedBy(q, u, ci) ensures !ClaimedBy(q, v, ci) {
      assert u != t ==> ClaimedBy(p, u, ci);
      assert v != t ==> ClaimedBy(p, v, ci) == ClaimedBy(q, v, ci);
    }
    forall ci: nat | ci < n && ci < q.next && ci !in q.results
      ensures exists u :: 0 <= u < |q.claims| && ClaimedBy(q, u, ci)
    {
      if ci == p.next { assert ClaimedBy(q, t, ci); }
      else { var u :| 0 <= u < |p.claims| && ClaimedBy(p, u, ci); assert ClaimedBy(q, u, ci); }
    }
  }

  lemma {:induction false} RunKeepsInv<T>(threads: nat, n: nat, work: nat -> T, schedule: seq<nat>)
    ensures Inv(Run(Start(threads), n, work, schedule), n, work)
    ensures |Run(Start(threads), n, work, schedule).claims| == threads
  {
    hide Inv;
    if schedule == [] {
      StartInv(threads, n, work);
    } else {
      var init, t := schedule[..|schedule| - 1], schedule[|schedule| - 1];
      RunKeepsInv(threads, n, work, init);
      var q := Run(Start(threads), n, work, init);
      if Live(q, t) {
        if q.claims[t].None? { ClaimKeeps(q, n, work, t); } else { FinishKeeps(q, n, work, t); }
      }
    }
  }

  lemma StartInv<T>(threads: nat, n: nat, work: nat -> T)
    ensures Inv(Start(threads), n, work)
  {
    var p: Pool<T> := Start(threads);
    assert forall t, ci | 0 <= t < |p.claims| :: !ClaimedBy(p, t, ci);
  }

  /**
   For any number of threads and any schedule: once every thread has left, every chunk has
   been processed, by its own work and nothing else, whatever the order was.
   */
  lemma PoolComplete<T>(threads: nat, n: nat, work: nat -> T, schedule: seq<nat>)
    requires threads > 0
    requires var p := Run(Start(threads), n, work, schedule); forall t :: 0 <= t < |p.exited| ==> p.exited[t]
    ensures Run(Start(threads), n, work, schedule).results == map ci: nat | ci < n :: work(ci)
  {
    hide Run;
    var p := Run(Start(threads), n, work, schedule);
    RunKeepsInv(threads, n, work, schedule);
    assert p.exited[0];
    forall ci: nat | ci < n ensures ci in p.results {
      assert forall t :: 0 <= t < |p.claims| ==> !ClaimedBy(p, t, ci);
    }
  }

  // ---------------------------------------------------------------- the pool can finish

  lemma RunSnoc<T>(p: Pool<T>, n: nat, work: nat -> T, schedule: seq<nat>, t: nat)
    ensures Run(p, n, work, schedule + [t]) ==
      var q := Run(p, n, work, schedule); if Live(q, t) then Step(q, n, work, t) else q
  {
    hide Step;
    assert (schedule + [t])[..|schedule|] == schedule;
  }

  predicate Fresh<T>(p: Pool<T>, threads: nat, k: nat) {
    p.next == k && p.claims == seq(threads, i => None) && p.exited == seq(threads, i => false)
  }

  /** Claiming a chunk and finishing it. */
  lemma TwoTurns<T>(p: Pool<T>, threads: nat, n: nat, work: nat -> T, k: nat)
    requires threads > 0 && k < n && Fresh(p, threads, k)
    ensures Live(p, 0) && Live(Step(p, n, work, 0), 0) && Fresh(Step(Step(p, n, work, 0), n, work, 0), threads, k + 1)
  {
    var q := Step(p, n, work, 0);
    assert q.claims[0] == Some(k);
    assert Step(q, n, work, 0).claims == p.claims;
  }

  /** One thread alone can work off every chunk. */
  lemma {:induction false} OneThreadWorks<T>(threads: nat, n: nat, work: nat -> T, k: nat) returns (schedule: seq<nat>)
    requires threads > 0 && k <= n
    ensures Fresh(Run(Start(threads), n, work, schedule), threads, k)
  {
    hide Run, Step, Live, Fresh;
    if k == 0 {
      schedule := [];
      StartFresh(threads, n, work);
    } else {
      var before := OneThreadWorks(threads, n, work, k - 1);
      TwoTurns(Run(Start(threads), n, work, before), threads, n, work, k - 1);
      RunSnoc(Start(threads), n, work, before, 0);
      RunSnoc(Start(threads), n, work, before + [0], 0);
      schedule := before + [0] + [0];
    }
  }

  lemma StartFresh<T>(threads: nat, n: nat, work: nat -> T)
    ensures Fresh(Run(Start(threads), n, work, []), threads, 0)
  {}

  /** Then every thread finds nothing left and leaves. */
  lemma {:induction false} ThreadsLeave<T>(threads: nat, n: nat, work: nat -> T, before: seq<nat>, t: nat) returns (schedule: seq<nat>)
    requires t <= threads
    requires Fresh(Run(Start(threads), n, work, before), threads, n)
    ensures var p := Run(Start(threads), n, work, schedule);
      && p.next >= n && p.claims == seq(threads, i => None) && |p.exited| == threads
      && (forall u :: 0 <= u < threads ==> (p.exited[u] <==> u < t))
  {
    hide Run;
    if t == 0 {
      schedule := before;
    } else {
      schedule := ThreadsLeave(threads, n, work, before, t - 1);
      RunSnoc(Start(threads), n, work, schedule, t - 1);
      schedule := schedule + [t - 1];
    }
  }

  /** Some schedule drains the pool, so what is proved of drained pools is about real runs. */
  lemma PoolCanFinish<T>(threads: nat, n: nat, work: nat -> T) returns (schedule: seq<nat>)
    requires threads > 0
    ensures var p := Run(Start(threads), n, work, schedule);
      |p.exited| == threads && forall t :: 0 <= t < threads ==> p.exited[t]
  {
    hide Run;
    schedule := OneThreadWorks(threads, n, work, n);
    schedule := ThreadsLeave(threads, n, work, schedule, threads);
  }
}
