/**
 * src/reindexer.rs: the background task that keeps the search index in step
 * with the wiki's latest revision.
 *
 * The wiki and the search index are shared handles whose operations are not
 * part of this model (`latest_revision`, `list_pages`, `requires_reindex`,
 * `reindex_pages`, `page_count`): what they answer in a cycle is an input,
 * and the calls a cycle makes on them, with the locks it takes and releases,
 * are recorded in order in the reindexer's log.
 */
module Reindexer {
  import opened Seqs
  import opened Util
  import opened Page

  /** A duration in whole seconds. */
  type Duration = nat

  /** One hour. */
  const DefaultReindexInterval: Duration := 60 * 60

  /** A wiki revision, compared only for equality here. */
  datatype Revision = Revision(number: int)

  /** What the wiki and the search index answer during one cycle. */
  datatype CycleEnv = CycleEnv(
    revision: Result<Revision>,
    required: bool,
    pages: Result<seq<Page>>,
    reindexed: Result<()>,
    pageCount: Result<nat>)

  /** What a reindexer does to the shared handles and the outside world, in order. */
  datatype Event =
    | LockWiki
    | LockSearchWrite
    | LatestRevision
    | RequiresReindex(gateRevision: Revision)
    | ListPages
    | ReindexPages(pages: seq<Page>, revision: Revision)
    | PageCount
    | ReleaseSearch
    | ReleaseWiki
    | Warn(error: Error)
    | Sleep(interval: Duration)

  predicate IsLockEvent(e: Event) {
    e.LockWiki? || e.LockSearchWrite? || e.ReleaseSearch? || e.ReleaseWiki?
  }

  // ---------------------------------------------------------------------
  // One cycle

  /** The calls a cycle makes while it holds both locks: each step runs only if every earlier one succeeded. */
  function CycleCalls(env: CycleEnv): seq<Event> {
    match env.revision
    case Err(_) => [LatestRevision]
    case Ok(rev) =>
      if !env.required then [LatestRevision, RequiresReindex(rev)]
      else
        match env.pages
        case Err(_) => [LatestRevision, RequiresReindex(rev), ListPages]
        case Ok(pages) =>
          [LatestRevision, RequiresReindex(rev), ListPages, ReindexPages(pages, rev)]
          + (if env.reindexed.Err? then [] else [PageCount])
  }

  /** All a cycle does: both locks, wiki first, then its calls, then the locks dropped in reverse order. */
  function CycleEvents(env: CycleEnv): seq<Event> {
    [LockWiki, LockSearchWrite] + CycleCalls(env) + [ReleaseSearch, ReleaseWiki]
  }

  /** What a cycle returns: the error of the first step that fails, otherwise `Ok`. */
  function CycleResult(env: CycleEnv): Result<()> {
    match env.revision
    case Err(e) => Err(e)
    case Ok(_) =>
      if !env.required then Ok(())
      else if env.pages.Err? then Err(env.pages.error)
      else if env.reindexed.Err? then Err(env.reindexed.error)
      else if env.pageCount.Err? then Err(env.pageCount.error)
      else Ok(())
  }

  /** The locks are taken before the revision is read and are held until every other call is over. */
  lemma LocksHeldThroughCycle(env: CycleEnv)
    ensures var ev := CycleEvents(env);
            && |ev| >= 5
            && ev[..3] == [LockWiki, LockSearchWrite, LatestRevision]
            && ev[|ev| - 2..] == [ReleaseSearch, ReleaseWiki]
            && forall i :: 2 <= i < |ev| - 2 ==> !IsLockEvent(ev[i])
  {
    var calls := CycleCalls(env);
    var ev := CycleEvents(env);
    assert calls[0] == LatestRevision;
    forall i | 2 <= i < |ev| - 2
      ensures !IsLockEvent(ev[i])
    {
      assert ev[i] == calls[i - 2];
    }
  }

  /** A closed gate ends the cycle successfully, before any page is listed or indexed. */
  lemma ClosedGateSkipsReindex(env: CycleEnv)
    requires env.revision.Ok? && !env.required
    ensures CycleResult(env) == Ok(())
    ensures ListPages !in CycleEvents(env)
    ensures forall e :: e in CycleEvents(env) ==> !e.ReindexPages? && !e.PageCount?
  {
    assert CycleEvents(env) == [LockWiki, LockSearchWrite, LatestRevision, RequiresReindex(env.revision.value), ReleaseSearch, ReleaseWiki];
  }

  /**
   * Pages are reindexed only when the gate, asked about the revision this
   * cycle read, says so, and then with that revision and the listed pages.
   */
  lemma ReindexUsesCycleRevision(env: CycleEnv, e: Event)
    requires e in CycleEvents(env) && e.ReindexPages?
    ensures env.revision.Ok? && env.required && env.pages.Ok?
    ensures e == ReindexPages(env.pages.value, env.revision.value)
    ensures CycleCalls(env)[..4] == [LatestRevision, RequiresReindex(env.revision.value), ListPages, e]
  {
    var calls := CycleCalls(env);
    assert e in calls by {
      assert CycleEvents(env) == [LockWiki, LockSearchWrite] + calls + [ReleaseSearch, ReleaseWiki];
    }
  }

  /** A failing step ends the cycle with its error, and no later step runs. */
  lemma FailureEndsCycle(env: CycleEnv)
    ensures env.revision.Err? ==> CycleResult(env) == Err(env.revision.error) && CycleCalls(env) == [LatestRevision]
    ensures env.revision.Ok? && env.required && env.pages.Err? ==>
              CycleResult(env) == Err(env.pages.error) && CycleCalls(env)[|CycleCalls(env)| - 1] == ListPages
    ensures env.revision.Ok? && env.required && env.pages.Ok? && env.reindexed.Err? ==>
              CycleResult(env) == Err(env.reindexed.error) && PageCount !in CycleCalls(env)
    ensures CycleResult(env).Err? <==>
              env.revision.Err? || (env.required && (env.pages.Err? || env.reindexed.Err? || env.pageCount.Err?))
  {
  }

  // ---------------------------------------------------------------------
  // Repeated cycles

  /** One turn of `run`: a cycle, a warning if it failed, then one sleep of the interval. */
  function CycleTurn(env: CycleEnv, interval: Duration): seq<Event> {
    CycleEvents(env)
    + (if CycleResult(env).Err? then [Warn(CycleResult(env).error)] else [])
    + [Sleep(interval)]
  }

  /** A turn of `run` at a fixed interval, as a function of the cycle. */
  function TurnAt(interval: Duration): CycleEnv -> seq<Event> {
    env => CycleTurn(env, interval)
  }

  /** The turns of `run` for a sequence of cycles, in order. */
  function RunEvents(envs: seq<CycleEnv>, interval: Duration): seq<Event> {
    Concat(MapSeq(envs, TurnAt(interval)))
  }

  /** Every cycle runs in its turn, whatever the earlier cycles returned. */
  lemma CycleRunsInTurn(envs: seq<CycleEnv>, k: nat, interval: Duration)
    requires k < |envs|
    ensures RunEvents(envs, interval)
            == RunEvents(envs[..k], interval) + CycleTurn(envs[k], interval) + RunEvents(envs[k + 1..], interval)
  {
    var f := TurnAt(interval);
    assert envs == envs[..k] + [envs[k]] + envs[k + 1..];
    MapSeqAppend(envs[..k] + [envs[k]], envs[k + 1..], f);
    MapSeqAppend(envs[..k], [envs[k]], f);
    ConcatAppend(MapSeq(envs[..k], f) + MapSeq([envs[k]], f), MapSeq(envs[k + 1..], f));
    ConcatAppend(MapSeq(envs[..k], f), MapSeq([envs[k]], f));
    assert MapSeq([envs[k]], f) == [CycleTurn(envs[k], interval)];
    assert Concat([CycleTurn(envs[k], interval)]) == CycleTurn(envs[k], interval) by {
      assert [CycleTurn(envs[k], interval)][..0] == [];
    }
  }

  /** A turn takes each lock once and sleeps once, after the locks are dropped. */
  lemma CycleEventCounts(env: CycleEnv, interval: Duration)
    ensures multiset(CycleTurn(env, interval))[Sleep(interval)] == 1
    ensures multiset(CycleTurn(env, interval))[LockWiki] == 1
  {
    var calls := CycleCalls(env);
    assert Sleep(interval) !in calls && LockWiki !in calls;
    assert multiset(calls)[Sleep(interval)] == 0 && multiset(calls)[LockWiki] == 0;
  }

  /** `run` never stops on a failed cycle: n cycles take the locks n times and sleep n times. */
  lemma RunSleepsOncePerCycle(envs: seq<CycleEnv>, interval: Duration)
    ensures multiset(RunEvents(envs, interval))[Sleep(interval)] == |envs|
    ensures multiset(RunEvents(envs, interval))[LockWiki] == |envs|
  {
    var turns := MapSeq(envs, TurnAt(interval));
    forall k | 0 <= k < |turns|
      ensures multiset(turns[k])[Sleep(interval)] == 1 && multiset(turns[k])[LockWiki] == 1
    {
      CycleEventCounts(envs[k], interval);
    }
    ConcatCountOnce(turns, Sleep(interval));
    ConcatCountOnce(turns, LockWiki);
  }

  /** One more cycle appends its turn. */
  lemma RunEventsStep(envs: seq<CycleEnv>, i: nat, interval: Duration)
    requires i < |envs|
    ensures RunEvents(envs[..i + 1], interval) == RunEvents(envs[..i], interval) + CycleTurn(envs[i], interval)
  {
    var f := TurnAt(interval);
    MapSeqPrefix(envs, f, i);
    var pieces := MapSeq(envs[..i], f) + [f(envs[i])];
    assert pieces[..|pieces| - 1] == MapSeq(envs[..i], f);
  }

  // ---------------------------------------------------------------------
  // The reindexer

  class Reindexer {
    /** How long `run` sleeps after each cycle. */
    var interval: Duration
    /** What this reindexer has done to the shared handles and the outside world so far. */
    var log: seq<Event>

    /** `Reindexer::new`: the default interval, nothing done yet. */
    constructor ()
      ensures interval == DefaultReindexInterval && log == []
    {
      interval := DefaultReindexInterval;
      log := [];
    }

    /** `with_interval`: sets the interval and nothing else. */
    method WithInterval(newInterval: Duration)
      modifies this
      ensures interval == newInterval && log == old(log)
    {
      interval := newInterval;
    }

    /** Dropping the two guards at the end of `reindex`, search first. */
    method ReleaseLocks()
      modifies this
      ensures interval == old(interval) && log == old(log) + [ReleaseSearch, ReleaseWiki]
    {
      log := log + [ReleaseSearch];
      log := log + [ReleaseWiki];
    }

    /** `reindex`: one cycle; both guards are dropped, search first, on every way out. */
    method Reindex(env: CycleEnv) returns (r: Result<()>)
      modifies this
      ensures interval == old(interval)
      ensures log == old(log) + CycleEvents(env)
      ensures r == CycleResult(env)
    {
      log := log + [LockWiki];
      log := log + [LockSearchWrite];
      ghost var locked := log;
      r := LockedCalls(env);
      ReleaseLocks();
      assert log == locked + CycleCalls(env) + [ReleaseSearch, ReleaseWiki];
    }

    /** The body of `reindex` while it holds both guards: each `?` returns the first failure. */
    method LockedCalls(env: CycleEnv) returns (r: Result<()>)
      modifies this
      ensures interval == old(interval)
      ensures log == old(log) + CycleCalls(env)
      ensures r == CycleResult(env)
    {
      log := log + [LatestRevision];
      if env.revision.Err? {
        return Err(env.revision.error);
      }
      var revision := env.revision.value;
      log := log + [RequiresReindex(revision)];
      if !env.required {
        return Ok(());
      }
      log := log + [ListPages];
      if env.pages.Err? {
        return Err(env.pages.error);
      }
      log := log + [ReindexPages(env.pages.value, revision)];
      if env.reindexed.Err? {
        return Err(env.reindexed.error);
      }
      log := log + [PageCount];
      if env.pageCount.Err? {
        return Err(env.pageCount.error);
      }
      r := Ok(());
    }

    /** One pass of the loop in `run`: a cycle, a warning if it failed, then a sleep of the interval. */
    method Turn(env: CycleEnv)
      modifies this
      ensures interval == old(interval)
      ensures log == old(log) + CycleTurn(env, interval)
    {
      var r := Reindex(env);
      if r.Err? {
        log := log + [Warn(r.error)];
      }
      log := log + [Sleep(interval)];
    }

    /** `run`, for as many cycles as `envs` describes: a failed cycle is logged, and every cycle is followed by a sleep. */
    method Run(envs: seq<CycleEnv>)
      modifies this
      ensures interval == old(interval)
      ensures log == old(log) + RunEvents(envs, interval)
    {
      ghost var start := log;
      var i := 0;
      assert envs[..0] == [];
      while i < |envs|
        invariant 0 <= i <= |envs|
        invariant interval == old(interval)
        invariant log == start + RunEvents(envs[..i], interval)
      {
        Turn(envs[i]);
        RunEventsStep(envs, i, interval);
        AppendAssociative(start, RunEvents(envs[..i], interval), CycleTurn(envs[i], interval));
        i := i + 1;
      }
      assert envs[..i] == envs;
    }
  }
}
