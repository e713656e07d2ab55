# Tournament registration with optimistic concurrency

A Dafny model of `registerPlayerForTournament`. The method admits a player into a tournament that has a fixed `max_players`. It runs a retry loop:

1. read the tournament's `(max_players, version)`;
2. count the tournament's registrations;
3. refuse with "Tournament is full." when the count is at least `max_players`;
4. run `UPDATE ... SET version = version + 1 WHERE tournament_id = ? AND version = ?`;
5. when that update matches no row, go back to step 1;
6. otherwise insert the `(tournament_id, player_id)` row and commit.

The model has four modules.

- `Store` (`store.dfy`) holds the two tables as an immutable value. `Tournaments` is a map from tournament id to `Tournament(maxPlayers, version)`. `Tournament_Registrations` is a sequence of `Registration(tournamentId, playerId)` rows. The module has one function for each statement the method issues: `Count`, `CompareAndIncrement` and `InsertRegistration`. Reading the tournament row is a plain map lookup, done inside `Registrar.Step`.
- `Registrar` (`registrar.dfy`) holds the protocol.
  - `Step` runs one statement of a call against the store as it is at that moment. `Phase` holds the Java locals `maxPlayers`, `currentVersion` and `registeredPlayers`.
  - `Attempt` is one pass of the loop body. It takes three stores: the one the tournament row is read from, the one the rows are counted in, and the one the conditional update and insert go to. Other writers may change the store between these statements. Passing the same store twice models a transaction that reads from one snapshot.
  - `Follows` states the version discipline that other writers are assumed to keep.
  - `Register` is the retry loop. It is bounded by the finite sequence of rounds the environment supplies.
- `Concurrency` (`concurrency.dfy`) runs any number of calls at once. A schedule interleaves them one statement at a time. Every statement reads the store as last committed. Its main lemmas assume a start within capacity with every call before its first read (`Init`). They show, for every interleaving: no tournament goes over capacity; the version rises by exactly one per committed registration; a finished call for a tournament that exists is Registered or Full; once any call has seen Full, exactly the free slots have been taken by Registered calls; and when N calls for a tournament with K free slots have all finished, exactly min(N, K) are Registered.
- `Scenarios` (`scenarios.dfy`) holds concrete runs: two calls racing for the last slot (under one schedule and under every schedule), one pass against a stale snapshot, a missing tournament, a full tournament, two registrations in a row, and a duplicate registration.

The update, the insert and the commit are modelled as one atomic write to the store. They are committed together, and nothing the attempt writes is visible before the commit. The store's writes cannot fail in this model (see "Left out").

## Model

| member | source | states |
|---|---|---|
| Store.Count | registerPlayerTournament.java:26-31 | The registration count is at most the number of rows. It is zero exactly when no row belongs to the tournament. |
| Store.CountIsMultiplicity | registerPlayerTournament.java:26-31 | The count of a tournament's rows equals the number of times its id appears in the tournament_id column (its multiplicity in the multiset of ids). |
| Store.CountAppend | registerPlayerTournament.java:51-55 | Appending a row raises its own tournament's count by one and leaves every other tournament's count unchanged. |
| Store.CompareAndIncrement | registerPlayerTournament.java:40-44 | Exactly one row is updated when the row exists and still holds the expected version; otherwise no row is updated. A matching update sets the version to expected + 1 and changes nothing else: not max_players, not other tournaments, not the registrations. A non-matching one leaves the store as it was. |
| Store.InsertRegistration | registerPlayerTournament.java:51-55 | The insert appends the row (tid, pid) after the unchanged existing rows, even when that pair is already present. It leaves the Tournaments table alone, raises the count of tid by one and leaves every other tournament's count unchanged. |
| Registrar.Step | registerPlayerTournament.java:10-58 | The read ends the call with NotFound exactly when the id is absent; otherwise it keeps the row's max_players and version as the call's locals. The count-and-check ends the call with Full exactly when count >= max_players; otherwise it keeps the stored count as the call's local. The conditional update wins exactly when the stored version equals the value read. A lost update writes nothing and returns the call to the read. A winning update sets the version to the value read + 1 and appends (tid, pid) in the same write. No other statement writes, and a finished call stays finished. |
| Registrar.Attempt | registerPlayerTournament.java:13-58 | Gives each outcome of one pass as a condition on the stores the pass saw. NotFound holds iff the id is absent at the read. Full holds iff count >= max_players. Registered holds iff the count is below max_players and the version at the write equals the version read. Every other case is Conflict. Any outcome but Registered leaves the store untouched. Registered sets that row's version to the value read + 1 and appends exactly (tid, pid). |
| Registrar.StepFollows | registerPlayerTournament.java:39-57 | Each statement the registrar executes obeys the version discipline it relies on: the row is kept, max_players is unchanged, the version never goes down, and the count changes only together with the version. No tournament row appears or disappears, and no count ever goes down. Other tournaments' rows and counts do not change. |
| Registrar.AttemptKeepsCapacity | registerPlayerTournament.java:34-57 | Assume every writer between the read, the count and the write keeps the version discipline. Then a successful pass saw the same count at all three points. The pass adds exactly one row, and the new count is at most max_players. |
| Registrar.ConflictMeansVersionMoved | registerPlayerTournament.java:40-47 | Under the same discipline, a pass conflicts only when the stored version has moved strictly above the one it read, that is, when another writer committed. |
| Registrar.AttemptFrame | registerPlayerTournament.java:40-57 | A successful pass leaves the version at exactly the value read at the start of the pass + 1. The rows seen at the write stay as a prefix with one row after them, and no other tournament's count moves. |
| Registrar.UndisciplinedWriterOversubscribes | registerPlayerTournament.java:39-48 | Suppose another writer adds a row without bumping the version. Then the version check passes on a stale count, and the tournament ends with two rows against max_players = 1. The version guard protects capacity only if every writer keeps the discipline. |
| Registrar.Register | registerPlayerTournament.java:8-59 | The loop leaves only through NotFound, Full or Registered. A Conflict always goes round again. Every pass before the last one conflicted, and the result is the last pass's outcome and store. Running out of rounds means every pass conflicted. Only a Registered exit writes. Under the discipline, a Registered exit leaves the tournament within max_players. |
| Concurrency.Schedule | registerPlayerTournament.java:10-58 | The chosen call runs exactly one `Step` against the current store: the store becomes that step's store and the call's phase becomes that step's phase. Every other call is unchanged, and an index with no call leaves the whole system unchanged. |
| Concurrency.Execute | registerPlayerTournament.java:10-58 | Running a schedule keeps the set of calls: their number, and each call's tournament and player. Only phases and the store change. |
| Concurrency.ExecuteAppend | registerPlayerTournament.java:10-58 | Running two schedules one after the other reaches the same system as running their concatenation. |
| Concurrency.ExecuteFollows | registerPlayerTournament.java:39-57 | Across any execution of any number of calls, each later store follows the earlier one under the version discipline, for every tournament. |
| Concurrency.RoundsOfAnExecutionAreDisciplined | registerPlayerTournament.java:13-48 | The stores seen at a call's read, count and write during an execution are linked by the discipline. The assumption of `Registrar.AttemptKeepsCapacity` therefore holds for every pass inside an execution. |
| Concurrency.ConsistentAfterFollows | registerPlayerTournament.java:40-47 | What a call has read stays valid across any store change that keeps the version discipline. |
| Concurrency.ScheduleKeepsInv | registerPlayerTournament.java:17-57 | Three facts survive every statement of every call. First, no tournament is over capacity. Second, each call's stored max_players, version and count still agree with the store for as long as the version has not moved. Third, a call that ended Full still sees its tournament full, a call that ended NotFound still sees it absent, and no call ends with a conflict. |
| Concurrency.ExecuteKeepsInv | registerPlayerTournament.java:34-57 | The invariant holds after any finite interleaving of statements. |
| Concurrency.NeverOversubscribed | registerPlayerTournament.java:34-57 | Start from any store within capacity, with every call before its first read. Then every interleaving of the calls reaches only stores in which no tournament has more registrations than max_players. |
| Concurrency.ConflictOnlyAfterAnotherCommit | registerPlayerTournament.java:40-47 | A call whose conditional update matches no row finds the tournament's version strictly above the one it read. |
| Concurrency.ScheduleKeepsLedger | registerPlayerTournament.java:40-57 | Across one statement, a tournament's row and its max_players stay. Its version rises by one exactly when the statement is a winning update for that tournament, which starts from the current version; otherwise the version stays. Its count minus its version is unchanged. |
| Concurrency.ExecuteKeepsLedger | registerPlayerTournament.java:40-57 | Across any interleaving, the k-th commit for a tournament starts from the starting version + k. The final version is the starting version plus the number of commits, and the tournament gains exactly that many registrations. |
| Concurrency.CommitsStartFromDistinctVersions | registerPlayerTournament.java:40-47 | Across any interleaving, the versions the commits for one tournament start from strictly increase, so no two commits start from the same version. |
| Concurrency.ScheduleWinners | registerPlayerTournament.java:40-58 | A statement adds a Registered call for a tournament exactly when it is a winning update for that tournament; the winning call was not Registered before, and no Registered call stops being one. |
| Concurrency.ExecuteWinners | registerPlayerTournament.java:40-58 | Across any interleaving, the number of Registered calls for a tournament grows by exactly the number of its commits. |
| Concurrency.InitHasNoWinners | registerPlayerTournament.java:8-10 | Before any call has made its first read, no call is Registered. |
| Concurrency.WinnersAreRegistrations | registerPlayerTournament.java:34-58 | From calls that have not yet read, every interleaving adds exactly one registration row per Registered call, and the Registered calls are at most the free slots the tournament started with. |
| Concurrency.FinishedCallsAreRegisteredOrFull | registerPlayerTournament.java:17-58 | From calls that have not yet read, every call for an existing tournament that has left the loop did so with Registered or Full: never NotFound and never a conflict. |
| Concurrency.FullMeansAllSlotsTaken | registerPlayerTournament.java:34-37 | From calls that have not yet read, once any call has ended Full, the Registered calls number exactly max_players minus the starting count: at most K succeed, and a Full answer means exactly K did. |
| Concurrency.ExactlyKSucceed | registerPlayerTournament.java:34-58 | From calls that have not yet read, N calls for one tournament with K free slots: once every call has finished, exactly min(N, K) are Registered and every other call ended Full. |
| Scenarios.LastSlotUnderAnySchedule | registerPlayerTournament.java:10-58 | One slot and two calls: under every interleaving after which both calls have finished, exactly one is Registered and the other is Full. |
| Scenarios.StaleSnapshotNeverWins | registerPlayerTournament.java:14-47 | A pass that reads version 0 and one free slot from an old snapshot, while the committed row is already at version 1, matches no row and ends with Conflict without writing. |
| Scenarios.RaceForLastSlot | registerPlayerTournament.java:10-58 | One slot, two calls that both read version 0: the first commits, the second loses the update, re-reads and ends with Full. The store then holds version 1 and one row. |
| Scenarios.MissingTournament | registerPlayerTournament.java:17-22 | A call for an absent tournament ends with NotFound and the store is unchanged. |
| Scenarios.FullTournament | registerPlayerTournament.java:34-37 | A tournament with 10 slots and 10 rows refuses the next player with Full and the store is unchanged. |
| Scenarios.TwoSequentialRegistrations | registerPlayerTournament.java:40-58 | Two registrations in a row on a tournament at version 0 leave version 2 and two rows, in order. |
| Scenarios.SamePlayerTwice | registerPlayerTournament.java:51-55 | A player already registered for a tournament gets a second row, because no duplicate check is made. |

## Left out

- JDBC plumbing is not modelled: the connection, the prepared statements, the result sets and the SQL text. Each statement is a pure function over the store value.
- The `registered_at` column filled by `NOW()` is wall-clock I/O, so the model leaves it out of `Registration`.
- Thrown `SQLException`s and their `printStackTrace` handling are not modelled as such. The method returns nothing to its caller, while the model returns NotFound, Full or Registered as values. The error text and the logging are left out.
- Failures of the store itself are left out: a failing insert, a failing commit, or a lost connection. In the source they surface as a caught `SQLException`. The source never calls `rollback()`, so whether a pending version bump survives depends on what the driver does when the connection is closed at the end of the try-with-resources block. The model's statements always succeed.
- Real transactions and isolation levels are not modelled. Interference appears as arbitrary store states between statements (`Attempt`, `Round`) or as interleaved statements of other calls (`Concurrency`). `Concurrency` assumes every statement reads the current committed store, including the re-read after a conflict, so its lemmas do not cover a snapshot held across the retry. On a conflict the source neither commits nor rolls back before `continue`, so the retry runs in the same transaction. Under an isolation level that keeps the first snapshot for the whole transaction, the re-read returns the same stale version while the update compares against the committed one. Every later pass then conflicts and the call never leaves `while (!success)`. `Scenarios.StaleSnapshotNeverWins` shows one such pass, and `Register` given only such rounds reports `Exhausted`.
- Registrar.Register: the source's `while (!success)` has no bound. The model runs one pass per supplied round and reports `Exhausted` when the rounds run out, so it makes no claim that the source terminates.
- Java `int` overflow is not modelled: a version of 2^31 - 1 that is incremented, or an oversized `max_players` or count, is out of scope. The model uses unbounded integers.
- NULL columns are not modelled. `getInt` turns a NULL `max_players` into 0, and that case is not distinguished.
- Deleting or re-creating a tournament between statements is outside the version discipline (`Follows` keeps the row). The capacity lemmas therefore do not cover administrative deletes. `Step` and `Attempt` still handle a row that is missing at the update: the update matches no row and the call returns to the read.
- Uniqueness of (tournament, player) pairs is not enforced, because the source performs no duplicate check before the insert. The model follows the code and allows duplicates, as `Scenarios.SamePlayerTwice` shows. It does not add an `AlreadyRegistered` outcome.
