/**
 Many calls of registerPlayerForTournament in flight at once against one store.
 A schedule picks, one statement at a time, which call moves next; each move is a
 `Registrar.Step`. Starting within capacity with every call before its first read
 (`Init`), whatever the interleaving: no tournament is ever oversubscribed, each
 tournament's version rises by exactly one per committed registration, a finished
 call for a tournament that exists is Registered or Full, and once one call has seen
 Full the Registered calls have taken exactly the free slots, so of N finished calls
 for a tournament with K free slots exactly min(N, K) are Registered. Every statement reads the store as last
 committed: a snapshot kept across the retry is not part of this module.
 */
module Concurrency {
  import opened Store
  import opened Registrar

  /** One in-flight call: its arguments and how far it has got. */
  datatype Call = Call(tid: int, pid: int, phase: Phase)

  datatype System = System(db: Db, calls: seq<Call>)

  /** Call `i` executes its next statement; an index with no call is an idle tick. */
  function Schedule(s: System, i: nat): (s': System)
    ensures |s'.calls| == |s.calls|
    ensures forall j :: 0 <= j < |s.calls| && j != i ==> s'.calls[j] == s.calls[j]
    ensures i >= |s.calls| ==> s' == s
    ensures i < |s.calls| ==>
      var m := Step(s.calls[i].phase, s.db, s.calls[i].tid, s.calls[i].pid);
      && s'.db == m.db
      && s'.calls[i] == Call(s.calls[i].tid, s.calls[i].pid, m.phase)
  {
    if i < |s.calls| then
      var c := s.calls[i];
      var m := Step(c.phase, s.db, c.tid, c.pid);
      System(m.db, s.calls[i := Call(c.tid, c.pid, m.phase)])
    else
      s
  }

  /** The schedule run statement by statement; calls keep their arguments, only their phases move. */
  function Execute(s: System, schedule: seq<nat>): (e: System)
    ensures |e.calls| == |s.calls|
    ensures forall j :: 0 <= j < |s.calls| ==> e.calls[j].tid == s.calls[j].tid && e.calls[j].pid == s.calls[j].pid
    decreases |schedule|
  {
    if |schedule| == 0 then s else Execute(Schedule(s, schedule[0]), schedule[1..])
  }

  /** Running two schedules one after the other is running their concatenation. */
  lemma {:induction false} ExecuteAppend(s: System, a: seq<nat>, b: seq<nat>)
    ensures Execute(s, a + b) == Execute(Execute(s, a), b)
    decreases |a|
  {
    if |a| > 0 {
      assert (a + b)[0] == a[0];
      assert (a + b)[1..] == a[1..] + b;
      ExecuteAppend(Schedule(s, a[0]), a[1..], b);
    } else {
      assert a + b == b;
    }
  }

  /** Every store an execution passes through follows the one before it, for every tournament. */
  lemma {:induction false} ExecuteFollows(s: System, schedule: seq<nat>, t: int)
    ensures Follows(s.db, Execute(s, schedule).db, t)
    decreases |schedule|
  {
    if |schedule| > 0 {
      var i := schedule[0];
      var s' := Schedule(s, i);
      if i < |s.calls| {
        StepFollows(s.calls[i].phase, s.db, s.calls[i].tid, s.calls[i].pid, t);
      }
      ExecuteFollows(s', schedule[1..], t);
      FollowsTransitive(s.db, s'.db, Execute(s', schedule[1..]).db, t);
    }
  }

  /**
   The stores a call sees at its read, its count and its write during one execution
   (after the schedule prefixes `a`, `a + b` and `a + b + c`) form a disciplined round,
   so `Registrar.AttemptKeepsCapacity` applies to every pass inside an execution.
   */
  lemma RoundsOfAnExecutionAreDisciplined(s: System, a: seq<nat>, b: seq<nat>, c: seq<nat>, t: int)
    ensures Disciplined(Round(Execute(s, a).db, Execute(s, a + b).db, Execute(s, a + b + c).db), t)
  {
    ExecuteAppend(s, a, b);
    ExecuteAppend(s, a + b, c);
    ExecuteFollows(Execute(s, a), b, t);
    ExecuteFollows(Execute(s, a + b), c, t);
  }

  /** No tournament has more registrations than its max_players. */
  predicate WithinCapacity(db: Db)
  {
    forall t :: t in db.tournaments ==> Count(db.registrations, t) <= db.tournaments[t].maxPlayers
  }

  /**
   What a call's locals still say about the store: the max_players it read is current,
   the version it read is not ahead of the store, and, once it has counted below
   capacity, that count is still the true one as long as the version has not moved.
   */
  predicate Consistent(c: Call, db: Db)
  {
    match c.phase
    case HaveTournament(maxPlayers, version) =>
      && c.tid in db.tournaments
      && db.tournaments[c.tid].maxPlayers == maxPlayers
      && version <= db.tournaments[c.tid].version
    case Admissible(maxPlayers, version, registered) =>
      && c.tid in db.tournaments
      && db.tournaments[c.tid].maxPlayers == maxPlayers
      && version <= db.tournaments[c.tid].version
      && registered < maxPlayers
      && (db.tournaments[c.tid].version == version ==> Count(db.registrations, c.tid) == registered)
    case _ => true
  }

  /**
   What a finished call's outcome still says about the store: a Full call's tournament
   is still full, a NotFound call's tournament is still absent, and no call ever
   finishes with a conflict.
   */
  predicate OutcomeHolds(c: Call, db: Db)
  {
    match c.phase
    case Done(Full) =>
      c.tid in db.tournaments && Count(db.registrations, c.tid) >= db.tournaments[c.tid].maxPlayers
    case Done(NotFound) => c.tid !in db.tournaments
    case Done(Conflict) => false
    case _ => true
  }

  predicate Inv(s: System)
  {
    && WithinCapacity(s.db)
    && (forall i :: 0 <= i < |s.calls| ==> Consistent(s.calls[i], s.db))
    && (forall i :: 0 <= i < |s.calls| ==> OutcomeHolds(s.calls[i], s.db))
  }

  /** Every call is about to make its first read and no tournament is over capacity. */
  predicate Init(s: System)
  {
    && WithinCapacity(s.db)
    && forall i :: 0 <= i < |s.calls| ==> s.calls[i].phase == Start
  }

  /** What a call has read stays valid across any store change that keeps the version discipline. */
  lemma ConsistentAfterFollows(c: Call, a: Db, b: Db)
    requires Consistent(c, a) && Follows(a, b, c.tid)
    ensures Consistent(c, b)
  {
  }

  /** Every statement of every call keeps the invariant, whichever call the schedule picks. */
  lemma ScheduleKeepsInv(s: System, i: nat)
    requires Inv(s)
    ensures Inv(Schedule(s, i))
  {
    if i < |s.calls| {
      var c := s.calls[i];
      var s' := Schedule(s, i);
      forall j | 0 <= j < |s.calls|
        ensures Consistent(s'.calls[j], s'.db) && OutcomeHolds(s'.calls[j], s'.db)
      {
        StepFollows(c.phase, s.db, c.tid, c.pid, s.calls[j].tid);
        if j != i {
          ConsistentAfterFollows(s.calls[j], s.db, s'.db);
        }
      }
    }
  }

  lemma {:induction false} ExecuteKeepsInv(s: System, schedule: seq<nat>)
    requires Inv(s)
    ensures Inv(Execute(s, schedule))
    decreases |schedule|
  {
    if |schedule| > 0 {
      ScheduleKeepsInv(s, schedule[0]);
      ExecuteKeepsInv(Schedule(s, schedule[0]), schedule[1..]);
    }
  }

  /** Capacity under arbitrary interleaving: from a start within capacity, every reachable store is within capacity. */
  lemma NeverOversubscribed(s: System, schedule: seq<nat>)
    requires Init(s)
    ensures WithinCapacity(Execute(s, schedule).db)
  {
    ExecuteKeepsInv(s, schedule);
  }

  /**
   A lost race is always someone else's win: a call whose conditional update matches
   no row finds the version strictly above the one it read.
   */
  lemma ConflictOnlyAfterAnotherCommit(s: System, i: nat)
    requires Inv(s) && i < |s.calls| && s.calls[i].phase.Admissible?
    ensures Schedule(s, i).calls[i].phase == Start ==>
      s.calls[i].tid in s.db.tournaments
      && s.db.tournaments[s.calls[i].tid].version > s.calls[i].phase.version
  {
  }

  /** Call `i`'s statement is the winning conditional update of a registration for tournament `t`. */
  predicate Commits(s: System, i: nat, t: int)
  {
    && i < |s.calls|
    && s.calls[i].tid == t
    && s.calls[i].phase.Admissible?
    && Schedule(s, i).calls[i].phase == Done(Registered)
  }

  /**
   The version ledger of one tournament across one statement: the row stays, its
   max_players stays, and its version rises by one exactly when the statement is a
   commit for that tournament, which starts from the current version; otherwise the
   version stays. The registration count moves together with the version.
   */
  lemma ScheduleKeepsLedger(s: System, i: nat, t: int)
    requires t in s.db.tournaments
    ensures var s' := Schedule(s, i);
            && t in s'.db.tournaments
            && s'.db.tournaments[t].maxPlayers == s.db.tournaments[t].maxPlayers
            && s'.db.tournaments[t].version == s.db.tournaments[t].version + (if Commits(s, i, t) then 1 else 0)
            && (Commits(s, i, t) ==> s.calls[i].phase.version == s.db.tournaments[t].version)
            && Count(s'.db.registrations, t) - s'.db.tournaments[t].version
               == Count(s.db.registrations, t) - s.db.tournaments[t].version
  {
  }

  /** The version each commit for tournament `t` starts from, in the order the commits happen. */
  function CommitVersions(s: System, schedule: seq<nat>, t: int): seq<int>
    decreases |schedule|
  {
    if |schedule| == 0 then []
    else
      var i := schedule[0];
      (if Commits(s, i, t) then [s.calls[i].phase.version] else [])
      + CommitVersions(Schedule(s, i), schedule[1..], t)
  }

  /**
   The ledger over a whole execution. The commits for `t` start from the versions
   v, v + 1, v + 2, ... in turn, where v is the starting version, so no two commits
   start from the same version. The version ends exactly that many above v, and the
   tournament has gained exactly that many registrations.
   */
  lemma {:induction false} ExecuteKeepsLedger(s: System, schedule: seq<nat>, t: int)
    requires t in s.db.tournaments
    ensures var e := Execute(s, schedule);
            var commits := CommitVersions(s, schedule, t);
            && t in e.db.tournaments
            && e.db.tournaments[t].maxPlayers == s.db.tournaments[t].maxPlayers
            && (forall k :: 0 <= k < |commits| ==> commits[k] == s.db.tournaments[t].version + k)
            && e.db.tournaments[t].version == s.db.tournaments[t].version + |commits|
            && Count(e.db.registrations, t) == Count(s.db.registrations, t) + |commits|
    decreases |schedule|
  {
    if |schedule| > 0 {
      var i := schedule[0];
      ScheduleKeepsLedger(s, i, t);
      ExecuteKeepsLedger(Schedule(s, i), schedule[1..], t);
    }
  }

  /** Distinct starting versions: no two commits for one tournament increment from the same version. */
  lemma CommitsStartFromDistinctVersions(s: System, schedule: seq<nat>, t: int)
    requires t in s.db.tournaments
    ensures var commits := CommitVersions(s, schedule, t);
            forall j, k :: 0 <= j < k < |commits| ==> commits[j] < commits[k]
  {
    ExecuteKeepsLedger(s, schedule, t);
  }

  /** The calls that have finished Registered for tournament `t`. */
  function Winners(s: System, t: int): set<nat>
  {
    set i: nat | i < |s.calls| && s.calls[i].tid == t && s.calls[i].phase == Done(Registered)
  }

  /** A statement adds a winner for `t` exactly when it is a commit for `t`; winners never leave. */
  lemma ScheduleWinners(s: System, i: nat, t: int)
    ensures Commits(s, i, t) ==> i !in Winners(s, t)
    ensures Winners(Schedule(s, i), t) == Winners(s, t) + (if Commits(s, i, t) then {i} else {})
  {
    var s' := Schedule(s, i);
    forall j: nat
      ensures j in Winners(s', t) <==> j in Winners(s, t) + (if Commits(s, i, t) then {i} else {})
    {
      if j == i && i < |s.calls| {
        var p := s.calls[i].phase;
        if p.Start? && s.calls[i].tid in s.db.tournaments {
          assert s'.calls[i].phase.HaveTournament?;
        }
      }
    }
  }

  /** Over a whole execution, the winners for `t` grow by exactly the number of commits for `t`. */
  lemma {:induction false} ExecuteWinners(s: System, schedule: seq<nat>, t: int)
    ensures |Winners(Execute(s, schedule), t)| == |Winners(s, t)| + |CommitVersions(s, schedule, t)|
    decreases |schedule|
  {
    if |schedule| > 0 {
      var i := schedule[0];
      ScheduleWinners(s, i, t);
      ExecuteWinners(Schedule(s, i), schedule[1..], t);
    }
  }

  /** Before any call has read, no call has won. */
  lemma InitHasNoWinners(s: System, t: int)
    requires Init(s)
    ensures Winners(s, t) == {}
  {
  }

  /**
   The winners of an execution are the registrations it added: starting from calls
   that have not yet read, the tournament gains exactly one row per Registered call,
   and that is at most the free slots it started with.
   */
  lemma WinnersAreRegistrations(s: System, schedule: seq<nat>, t: int)
    requires Init(s) && t in s.db.tournaments
    ensures var e := Execute(s, schedule);
            && |Winners(e, t)| == Count(e.db.registrations, t) - Count(s.db.registrations, t)
            && |Winners(e, t)| <= s.db.tournaments[t].maxPlayers - Count(s.db.registrations, t)
  {
    var e := Execute(s, schedule);
    InitHasNoWinners(s, t);
    ExecuteKeepsLedger(s, schedule, t);
    ExecuteWinners(s, schedule, t);
    NeverOversubscribed(s, schedule);
    assert Count(e.db.registrations, t) <= e.db.tournaments[t].maxPlayers;
  }

  /** A call that has finished for a tournament that exists is Registered or Full: never NotFound, never a conflict. */
  lemma FinishedCallsAreRegisteredOrFull(s: System, schedule: seq<nat>, t: int)
    requires Init(s) && t in s.db.tournaments
    ensures var e := Execute(s, schedule);
            forall i :: 0 <= i < |e.calls| && e.calls[i].tid == t && e.calls[i].phase.Done? ==>
              e.calls[i].phase == Done(Registered) || e.calls[i].phase == Done(Full)
  {
    var e := Execute(s, schedule);
    ExecuteKeepsInv(s, schedule);
    ExecuteFollows(s, schedule, t);
    forall i | 0 <= i < |e.calls| && e.calls[i].tid == t && e.calls[i].phase.Done?
      ensures e.calls[i].phase == Done(Registered) || e.calls[i].phase == Done(Full)
    {
      assert OutcomeHolds(e.calls[i], e.db);
    }
  }

  /**
   Once any call has seen a tournament Full, the Registered calls for it have taken
   exactly all of the free slots it started with.
   */
  lemma FullMeansAllSlotsTaken(s: System, schedule: seq<nat>, t: int, i: nat)
    requires Init(s) && t in s.db.tournaments
    ensures var e := Execute(s, schedule);
            i < |e.calls| && e.calls[i].tid == t && e.calls[i].phase == Done(Full) ==>
              |Winners(e, t)| == s.db.tournaments[t].maxPlayers - Count(s.db.registrations, t)
  {
    var e := Execute(s, schedule);
    ExecuteKeepsInv(s, schedule);
    ExecuteFollows(s, schedule, t);
    WinnersAreRegistrations(s, schedule, t);
    if i < |e.calls| && e.calls[i].tid == t && e.calls[i].phase == Done(Full) {
      assert OutcomeHolds(e.calls[i], e.db);
    }
  }

  /** The indices below `n`, the range every set of calls is drawn from. */
  function IndicesBelow(n: nat): (r: set<nat>)
    ensures forall i: nat :: i in r <==> i < n
    ensures |r| == n
  {
    if n == 0 then {} else IndicesBelow(n - 1) + {n - 1}
  }

  /** There are at most as many winners as calls, and exactly as many when every call is a Registered call for `t`. */
  lemma WinnersWithinCalls(s: System, t: int)
    ensures |Winners(s, t)| <= |s.calls|
    ensures (forall i :: 0 <= i < |s.calls| ==> s.calls[i].tid == t && s.calls[i].phase == Done(Registered)) ==>
              |Winners(s, t)| == |s.calls|
  {
    var all := IndicesBelow(|s.calls|);
    assert Winners(s, t) <= all;
    SubsetCardinality(Winners(s, t), all);
    if forall i :: 0 <= i < |s.calls| ==> s.calls[i].tid == t && s.calls[i].phase == Done(Registered) {
      assert Winners(s, t) == all;
    }
  }

  lemma {:induction false} SubsetCardinality(a: set<nat>, b: set<nat>)
    requires a <= b
    ensures |a| <= |b|
    decreases |b|
  {
    if a != {} {
      var x :| x in a;
      SubsetCardinality(a - {x}, b - {x});
    }
  }

  /**
   N calls for one tournament with K free slots, all started before their first read:
   once every call has finished, exactly min(N, K) are Registered and the rest saw Full.
   */
  lemma ExactlyKSucceed(s: System, schedule: seq<nat>, t: int)
    requires Init(s) && t in s.db.tournaments
    ensures var e := Execute(s, schedule);
            var free := s.db.tournaments[t].maxPlayers - Count(s.db.registrations, t);
            (forall i :: 0 <= i < |e.calls| ==> e.calls[i].tid == t && e.calls[i].phase.Done?) ==>
              && |Winners(e, t)| == (if |s.calls| <= free then |s.calls| else free)
              && (forall i :: 0 <= i < |e.calls| ==>
                    e.calls[i].phase == Done(Registered) || e.calls[i].phase == Done(Full))
  {
    var e := Execute(s, schedule);
    WinnersAreRegistrations(s, schedule, t);
    FinishedCallsAreRegisteredOrFull(s, schedule, t);
    WinnersWithinCalls(e, t);
    if forall i :: 0 <= i < |e.calls| ==> e.calls[i].tid == t && e.calls[i].phase.Done? {
      if i :| 0 <= i < |e.calls| && e.calls[i].phase == Done(Full) {
        FullMeansAllSlotsTaken(s, schedule, t, i);
      }
    }
  }
}
