/**
 The admission protocol of registerPlayerForTournament: read the tournament's
 (max_players, version), count its registrations, refuse when full, bump the
 version only if it is still the one read, then insert the row and commit.

 One call is a sequence of `Step`s, each one statement against the store as it is
 at that moment; other writers may change the store between any two steps.
 */
module Registrar {
  import opened Store

  /** How one attempt ends. `Conflict` is the lost version race that sends the call back to the read. */
  datatype Outcome = NotFound | Full | Conflict | Registered

  /** Where a call stands: the locals maxPlayers, currentVersion and registeredPlayers as far as they are known. */
  datatype Phase =
    | Start
    | HaveTournament(maxPlayers: int, version: int)
    | Admissible(maxPlayers: int, version: int, registered: nat)
    | Done(outcome: Outcome)

  datatype Move = Move(phase: Phase, db: Db)

  /**
   One statement of the call against the current store `db`. Reads never write;
   the conditional update that loses the race writes nothing and restarts at the
   read; the one that wins appends the row in the same commit.
   */
  function Step(p: Phase, db: Db, tid: int, pid: int): (m: Move)
    ensures !(p.Admissible? && m.phase == Done(Registered)) ==> m.db == db
    ensures p.Start? ==> (m.phase == Done(NotFound) <==> tid !in db.tournaments)
    ensures p.Start? && tid in db.tournaments ==>
      m.phase == HaveTournament(db.tournaments[tid].maxPlayers, db.tournaments[tid].version)
    ensures p.HaveTournament? ==>
      (m.phase == Done(Full) <==> Count(db.registrations, tid) >= p.maxPlayers)
    ensures p.HaveTournament? && Count(db.registrations, tid) < p.maxPlayers ==>
      m.phase == Admissible(p.maxPlayers, p.version, Count(db.registrations, tid))
    ensures p.Admissible? ==>
      (m.phase == Done(Registered) <==> tid in db.tournaments && db.tournaments[tid].version == p.version)
    ensures p.Admissible? && m.phase != Done(Registered) ==> m.phase == Start
    ensures p.Admissible? && m.phase == Done(Registered) ==>
      && m.db.tournaments == db.tournaments[tid := Tournament(db.tournaments[tid].maxPlayers, p.version + 1)]
      && m.db.registrations == db.registrations + [Registration(tid, pid)]
    ensures p.Done? ==> m.phase == p
  {
    match p
    case Start =>
      if tid in db.tournaments then
        var row := db.tournaments[tid];
        Move(HaveTournament(row.maxPlayers, row.version), db)
      else
        Move(Done(NotFound), db)
    case HaveTournament(maxPlayers, version) =>
      var registered := Count(db.registrations, tid);
      if registered >= maxPlayers then Move(Done(Full), db)
      else Move(Admissible(maxPlayers, version, registered), db)
    case Admissible(_, version, _) =>
      var cas := CompareAndIncrement(db, tid, version);
      if cas.rowsUpdated == 0 then Move(Start, db)
      else Move(Done(Registered), InsertRegistration(cas.db, tid, pid))
    case Done(_) => Move(p, db)
  }

  datatype Attempted = Attempted(outcome: Outcome, db: Db)

  /**
   One pass through the loop body. The tournament row is read from `atRead`, the
   registrations are counted in `atCount`, and the conditional update and insert go
   to `atWrite`; other writers may have changed the store between each of the three.
   Passing the same store twice models a transaction that reads from one snapshot.
   */
  function Attempt(atRead: Db, atCount: Db, atWrite: Db, tid: int, pid: int): (r: Attempted)
    ensures r.outcome == NotFound <==> tid !in atRead.tournaments
    ensures r.outcome == Full <==>
      tid in atRead.tournaments && Count(atCount.registrations, tid) >= atRead.tournaments[tid].maxPlayers
    ensures r.outcome == Registered <==>
      && tid in atRead.tournaments
      && Count(atCount.registrations, tid) < atRead.tournaments[tid].maxPlayers
      && tid in atWrite.tournaments
      && atWrite.tournaments[tid].version == atRead.tournaments[tid].version
    ensures r.outcome != Registered ==> r.db == atWrite
    ensures r.outcome == Registered ==>
      && r.db.tournaments == atWrite.tournaments[tid := Tournament(atWrite.tournaments[tid].maxPlayers,
                                                                   atWrite.tournaments[tid].version + 1)]
      && r.db.registrations == atWrite.registrations + [Registration(tid, pid)]
  {
    var afterRead := Step(Start, atRead, tid, pid);
    var afterCount := Step(afterRead.phase, atCount, tid, pid);
    var afterWrite := Step(afterCount.phase, atWrite, tid, pid);
    Attempted(if afterWrite.phase.Done? then afterWrite.phase.outcome else Conflict, afterWrite.db)
  }

  /**
   The version discipline every writer of the tables is assumed to follow, seen from
   tournament `tid`: store `b` comes after store `a` when the tournament row is still
   there with the same max_players, its version has not gone down, and its
   registration count has changed only if its version has.
   */
  predicate Follows(a: Db, b: Db, tid: int)
  {
    tid in a.tournaments ==>
      && tid in b.tournaments
      && b.tournaments[tid].maxPlayers == a.tournaments[tid].maxPlayers
      && a.tournaments[tid].version <= b.tournaments[tid].version
      && (a.tournaments[tid].version == b.tournaments[tid].version
          ==> Count(b.registrations, tid) == Count(a.registrations, tid))
  }

  lemma FollowsTransitive(a: Db, b: Db, c: Db, tid: int)
    requires Follows(a, b, tid) && Follows(b, c, tid)
    ensures Follows(a, c, tid)
  {
  }

  /** The registrar obeys the discipline it relies on: every step, seen from any tournament, is a Follows step. */
  lemma StepFollows(p: Phase, db: Db, tid: int, pid: int, t: int)
    ensures Follows(db, Step(p, db, tid, pid).db, t)
    ensures Step(p, db, tid, pid).db.tournaments.Keys == db.tournaments.Keys
    ensures Count(db.registrations, t) <= Count(Step(p, db, tid, pid).db.registrations, t)
    ensures var m := Step(p, db, tid, pid);
            t in db.tournaments && t != tid ==>
              t in m.db.tournaments && m.db.tournaments[t] == db.tournaments[t]
              && Count(m.db.registrations, t) == Count(db.registrations, t)
  {
  }

  /**
   The capacity argument. If the writers between the read, the count and the write
   all follow the version discipline, a successful compare-and-set shows that the
   count has not changed since it was read, so the row it admits is within max_players.
   */
  lemma AttemptKeepsCapacity(atRead: Db, atCount: Db, atWrite: Db, tid: int, pid: int)
    requires Follows(atRead, atCount, tid) && Follows(atCount, atWrite, tid)
    ensures var r := Attempt(atRead, atCount, atWrite, tid, pid);
            r.outcome == Registered ==>
              && tid in r.db.tournaments
              && Count(atWrite.registrations, tid) == Count(atCount.registrations, tid) == Count(atRead.registrations, tid)
              && Count(r.db.registrations, tid) == Count(atRead.registrations, tid) + 1
              && Count(r.db.registrations, tid) <= r.db.tournaments[tid].maxPlayers
  {
  }

  /**
   Under the discipline a lost race means progress elsewhere: the attempt conflicts
   only when the version has moved past the one it read, that is, when another writer committed.
   */
  lemma ConflictMeansVersionMoved(atRead: Db, atCount: Db, atWrite: Db, tid: int, pid: int)
    requires Follows(atRead, atCount, tid) && Follows(atCount, atWrite, tid)
    ensures Attempt(atRead, atCount, atWrite, tid, pid).outcome == Conflict ==>
      tid in atWrite.tournaments && atWrite.tournaments[tid].version > atRead.tournaments[tid].version
  {
  }

  /**
   What a successful attempt means for the value it read and for the rows: the version
   ends exactly one above the version read, the existing rows stay as a prefix with one
   row after them, and no other tournament's count moves.
   */
  lemma AttemptFrame(atRead: Db, atCount: Db, atWrite: Db, tid: int, pid: int)
    ensures var r := Attempt(atRead, atCount, atWrite, tid, pid);
            r.outcome == Registered ==>
              && tid in r.db.tournaments
              && r.db.tournaments[tid].version == atRead.tournaments[tid].version + 1
              && |r.db.registrations| == |atWrite.registrations| + 1
              && r.db.registrations[..|atWrite.registrations|] == atWrite.registrations
              && (forall t :: t != tid ==> Count(r.db.registrations, t) == Count(atWrite.registrations, t))
  {
  }

  /**
   The discipline is needed: a writer that adds a row for the tournament without
   bumping its version lets the compare-and-set succeed on a stale count, and the
   tournament ends up with more registrations than max_players.
   */
  lemma UndisciplinedWriterOversubscribes()
    ensures var before := Db(map[1 := Tournament(1, 0)], []);
            var sneaked := Db(map[1 := Tournament(1, 0)], [Registration(1, 7)]);
            var r := Attempt(before, before, sneaked, 1, 8);
            && !Follows(before, sneaked, 1)
            && r.outcome == Registered
            && Count(r.db.registrations, 1) == 2 > r.db.tournaments[1].maxPlayers
  {
  }

  /** The store states one pass of the loop body sees: one per statement group. */
  datatype Round = Round(atRead: Db, atCount: Db, atWrite: Db)

  function AttemptIn(round: Round, tid: int, pid: int): Attempted
  {
    Attempt(round.atRead, round.atCount, round.atWrite, tid, pid)
  }

  /** `Follows` between the stores of a round, for tournament `tid`. */
  predicate Disciplined(round: Round, tid: int)
  {
    Follows(round.atRead, round.atCount, tid) && Follows(round.atCount, round.atWrite, tid)
  }

  /** What a call comes to: it left the loop after `attempts` passes, or it ran out of rounds. */
  datatype Run = Finished(outcome: Outcome, db: Db, attempts: nat) | Exhausted

  /**
   The retry loop `while (!success)`, bounded by the rounds the environment supplies.
   A conflict always goes round again; the loop is left by not-found, full or
   success, and only the last pass can have written to the store.
   */
  method Register(rounds: seq<Round>, tid: int, pid: int) returns (r: Run)
    ensures r.Exhausted? <==> forall k :: 0 <= k < |rounds| ==> AttemptIn(rounds[k], tid, pid).outcome == Conflict
    ensures r.Finished? ==>
      && 1 <= r.attempts <= |rounds|
      && r.outcome != Conflict
      && (forall k :: 0 <= k < r.attempts - 1 ==> AttemptIn(rounds[k], tid, pid).outcome == Conflict)
      && AttemptIn(rounds[r.attempts - 1], tid, pid) == Attempted(r.outcome, r.db)
    ensures r.Finished? && r.outcome != Registered ==> r.db == rounds[r.attempts - 1].atWrite
    ensures r.Finished? && r.outcome == Registered && Disciplined(rounds[r.attempts - 1], tid) ==>
      tid in r.db.tournaments && Count(r.db.registrations, tid) <= r.db.tournaments[tid].maxPlayers
  {
    var i := 0;
    while i < |rounds|
      invariant 0 <= i <= |rounds|
      invariant forall k :: 0 <= k < i ==> AttemptIn(rounds[k], tid, pid).outcome == Conflict
    {
      var a := AttemptIn(rounds[i], tid, pid);
      if a.outcome != Conflict {
        if Disciplined(rounds[i], tid) {
          AttemptKeepsCapacity(rounds[i].atRead, rounds[i].atCount, rounds[i].atWrite, tid, pid);
        }
        return Finished(a.outcome, a.db, i + 1);
      }
      i := i + 1;
    }
    return Exhausted;
  }
}
