/**
 The tournament store the registrar works against, reduced to the two tables
 and the statements it issues (the read of the tournament row is a plain map
 lookup, done in `Registrar.Step`):
 - the Tournaments table, a map from tournament id to its (max_players, version) columns;
 - the Tournament_Registrations table, a sequence of (tournament_id, player_id) rows
   in insertion order (the registered_at timestamp is left out).
 */
module Store {

  /** The columns of a Tournaments row that the registrar reads and writes. */
  datatype Tournament = Tournament(maxPlayers: int, version: int)

  /** A Tournament_Registrations row. No uniqueness of the pair is enforced. */
  datatype Registration = Registration(tournamentId: int, playerId: int)

  datatype Db = Db(tournaments: map<int, Tournament>, registrations: seq<Registration>)

  /** The outcome of the conditional version update: the affected-row count and the new store. */
  datatype CasResult = CasResult(rowsUpdated: nat, db: Db)

  /** `SELECT COUNT(*) FROM Tournament_Registrations WHERE tournament_id = tid` */
  function Count(regs: seq<Registration>, tid: int): (n: nat)
    ensures n <= |regs|
    ensures n == 0 <==> forall k :: 0 <= k < |regs| ==> regs[k].tournamentId != tid
  {
    if |regs| == 0 then 0
    else (if regs[0].tournamentId == tid then 1 else 0) + Count(regs[1..], tid)
  }

  /** The tournament ids of the rows, in order; the column COUNT(*) filters on. */
  function TournamentIds(regs: seq<Registration>): seq<int>
  {
    seq(|regs|, k requires 0 <= k < |regs| => regs[k].tournamentId)
  }

  /** Count agrees with an independent definition: the multiplicity of `tid` among the rows' ids. */
  lemma {:induction false} CountIsMultiplicity(regs: seq<Registration>, tid: int)
    ensures Count(regs, tid) == multiset(TournamentIds(regs))[tid]
  {
    if |regs| == 0 {
      assert TournamentIds(regs) == [];
    } else {
      CountIsMultiplicity(regs[1..], tid);
      assert TournamentIds(regs) == [regs[0].tournamentId] + TournamentIds(regs[1..]);
    }
  }

  /** Appending one row raises the count of its own tournament by one and no other count. */
  lemma {:induction false} CountAppend(regs: seq<Registration>, row: Registration, tid: int)
    ensures Count(regs + [row], tid) == Count(regs, tid) + (if row.tournamentId == tid then 1 else 0)
  {
    if |regs| == 0 {
      assert regs + [row] == [row];
    } else {
      assert (regs + [row])[1..] == regs[1..] + [row];
      CountAppend(regs[1..], row, tid);
    }
  }

  /**
   `UPDATE Tournaments SET version = version + 1 WHERE tournament_id = tid AND version = expected`:
   exactly one row changes when the row exists and still carries the expected version,
   and then only its version column, which becomes expected + 1.
   */
  function CompareAndIncrement(db: Db, tid: int, expected: int): (r: CasResult)
    ensures r.rowsUpdated <= 1
    ensures r.rowsUpdated == 1 <==> tid in db.tournaments && db.tournaments[tid].version == expected
    ensures r.rowsUpdated == 0 ==> r.db == db
    ensures r.rowsUpdated == 1 ==>
      && r.db.registrations == db.registrations
      && r.db.tournaments.Keys == db.tournaments.Keys
      && r.db.tournaments[tid].maxPlayers == db.tournaments[tid].maxPlayers
      && r.db.tournaments[tid].version == expected + 1
      && forall t :: t in db.tournaments && t != tid ==> r.db.tournaments[t] == db.tournaments[t]
  {
    if tid in db.tournaments && db.tournaments[tid].version == expected then
      var t := db.tournaments[tid];
      CasResult(1, db.(tournaments := db.tournaments[tid := t.(version := t.version + 1)]))
    else
      CasResult(0, db)
  }

  /**
   `INSERT INTO Tournament_Registrations (tournament_id, player_id, ...) VALUES (tid, pid, ...)`:
   the existing rows stay as they are, one row is appended, and only the count of `tid` moves.
   No check for an existing (tid, pid) row is made.
   */
  function InsertRegistration(db: Db, tid: int, pid: int): (r: Db)
    ensures r.tournaments == db.tournaments
    ensures |r.registrations| == |db.registrations| + 1
    ensures r.registrations[..|db.registrations|] == db.registrations
    ensures r.registrations[|db.registrations|] == Registration(tid, pid)
    ensures Count(r.registrations, tid) == Count(db.registrations, tid) + 1
    ensures forall t :: t != tid ==> Count(r.registrations, t) == Count(db.registrations, t)
  {
    var row := Registration(tid, pid);
    assert forall t :: Count(db.registrations + [row], t)
                       == Count(db.registrations, t) + (if t == tid then 1 else 0) by {
      forall t ensures Count(db.registrations + [row], t)
                       == Count(db.registrations, t) + (if t == tid then 1 else 0) {
        CountAppend(db.registrations, row, t);
      }
    }
    db.(registrations := db.registrations + [row])
  }
}
