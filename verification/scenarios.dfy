/**
 Concrete runs of the protocol on small stores: two racing calls for the last
 slot under one schedule (`RaceForLastSlot`) and under every schedule
 (`LastSlotUnderAnySchedule`), one pass against a stale snapshot
 (`StaleSnapshotNeverWins`), a missing tournament, a full tournament, two
 registrations in a row, and the same player registering twice.
 */
module Scenarios {
  import opened Store
  import opened Registrar
  import opened Concurrency

  /**
   Tournament 1 has one slot. Calls for players 10 and 20 both read version 0 and
   count 0; player 10 commits first, player 20's update matches no row, it goes
   back to the read, now counts 1 and stops with Full.
   */
  lemma RaceForLastSlot()
    ensures var s := System(Db(map[1 := Tournament(1, 0)], []),
                            [Call(1, 10, Start), Call(1, 20, Start)]);
            var e := Execute(s, [0, 1, 0, 1, 0, 1, 1, 1]);
            && e.calls[0].phase == Done(Registered)
            && e.calls[1].phase == Done(Full)
            && e.db == Db(map[1 := Tournament(1, 1)], [Registration(1, 10)])
  {
  }

  /**
   The same two calls for the one slot, under every interleaving: once both have
   finished, exactly one is Registered and the other is Full.
   */
  lemma LastSlotUnderAnySchedule(schedule: seq<nat>)
    ensures var s := System(Db(map[1 := Tournament(1, 0)], []),
                            [Call(1, 10, Start), Call(1, 20, Start)]);
            var e := Execute(s, schedule);
            e.calls[0].phase.Done? && e.calls[1].phase.Done? ==>
              || (e.calls[0].phase == Done(Registered) && e.calls[1].phase == Done(Full))
              || (e.calls[0].phase == Done(Full) && e.calls[1].phase == Done(Registered))
  {
    var s := System(Db(map[1 := Tournament(1, 0)], []), [Call(1, 10, Start), Call(1, 20, Start)]);
    WinnersAreRegistrations(s, schedule, 1);
    FinishedCallsAreRegisteredOrFull(s, schedule, 1);
    FullMeansAllSlotsTaken(s, schedule, 1, 0);
    FullMeansAllSlotsTaken(s, schedule, 1, 1);
    WinnersOfTwoCalls(Execute(s, schedule), 1);
  }

  /** With two calls for `t`, the number of winners is the number of them that are Registered. */
  lemma WinnersOfTwoCalls(e: System, t: int)
    requires |e.calls| == 2 && e.calls[0].tid == t && e.calls[1].tid == t
    ensures |Winners(e, t)| == (if e.calls[0].phase == Done(Registered) then 1 else 0)
                              + (if e.calls[1].phase == Done(Registered) then 1 else 0)
  {
    var r0 := e.calls[0].phase == Done(Registered);
    var r1 := e.calls[1].phase == Done(Registered);
    assert Winners(e, t) == (if r0 then {0} else {}) + (if r1 then {1} else {});
  }

  /**
   One pass that reads from an old snapshot. Another call has since committed
   version 1, but the snapshot still shows version 0 and a free slot, so the
   conditional update against the committed row matches nothing and nothing is written.
   */
  lemma StaleSnapshotNeverWins()
    ensures var snapshot := Db(map[1 := Tournament(2, 0)], []);
            var committed := Db(map[1 := Tournament(2, 1)], [Registration(1, 10)]);
            Attempt(snapshot, snapshot, committed, 1, 20) == Attempted(Conflict, committed)
  {
  }

  /** A call for a tournament that does not exist ends with NotFound and writes nothing. */
  lemma MissingTournament()
    ensures var db := Db(map[1 := Tournament(5, 3)], [Registration(1, 4)]);
            Attempt(db, db, db, 2, 9) == Attempted(NotFound, db)
  {
  }

  /** A tournament with ten slots and ten rows refuses the eleventh player and writes nothing. */
  lemma FullTournament()
    ensures var db := Db(map[1 := Tournament(10, 10)], seq(10, k => Registration(1, k)));
            Attempt(db, db, db, 1, 99) == Attempted(Full, db)
  {
    var db := Db(map[1 := Tournament(10, 10)], seq(10, k => Registration(1, k)));
    CountIsMultiplicity(db.registrations, 1);
    assert TournamentIds(db.registrations) == seq(10, k => 1);
    assert multiset(seq(10, k => 1))[1] == 10 by {
      assert seq(10, k => 1) == [1, 1, 1, 1, 1, 1, 1, 1, 1, 1];
    }
  }

  /** Two registrations in a row on a fresh tournament leave version 2 and two rows. */
  lemma TwoSequentialRegistrations()
    ensures var initial := Db(map[1 := Tournament(10, 0)], []);
            var first := Attempt(initial, initial, initial, 1, 10);
            var second := Attempt(first.db, first.db, first.db, 1, 20);
            && first.outcome == Registered && second.outcome == Registered
            && second.db == Db(map[1 := Tournament(10, 2)], [Registration(1, 10), Registration(1, 20)])
  {
  }

  /** Nothing stops the same player from taking a second slot in the same tournament. */
  lemma SamePlayerTwice()
    ensures var db := Db(map[1 := Tournament(3, 1)], [Registration(1, 10)]);
            var r := Attempt(db, db, db, 1, 10);
            && r.outcome == Registered
            && r.db.registrations == [Registration(1, 10), Registration(1, 10)]
  {
  }
}
