# NiuMa server: verified models of its money, room, venue and wire-protocol logic

This project models, in Dafny 4.11, the parts of the NiuMa game server where money, seats, venues and
wire bytes are handled by non-trivial state, and proves what those parts are for. `dafny verify dfyconfig.toml`
checks everything.

**Debt clearing** (`DebtBook`, `DebtClearing`, `Sums`, `Sets`). After a game, nodes with cash owe one another.
`DebtLiquidation` lets net winners repay, copies the net losers into a smaller net, clears that recursively,
writes the cash back, drops the cleared relations and lets the losers pay, in full or pro rata. `DebtBook` gives
each step in closed form on values, composes them to `Clear`, and proves the promises about `Clear` by induction
over the recursion. `DebtClearing` is the program on heap nodes with aliased sheets; it visits nodes and entries in
an arbitrary order, and is proved to compute `Clear` in all of them. `double` is modelled by `real`.

**Game rooms** (`GameDb`, `GameTurns`, `GameTopUp`, `GameLedger`, `GameRooms`). Pledges move between `capital.gold` and
`cash_pledge` under optimistic locking. Before every statement other writers may change any capital rows; they always
bump the version. What the environment does, turn by turn, is a sequence that the database consumes, so that a call is a
function of tables and environment; `Noise` counts the turns ahead in which something goes wrong, and a call that
leaves it unchanged was not disturbed. `OwnGold` is a player's gold apart from what other writers changed. Every
operation is proved to move exactly the amounts it claims; `GameLedger` then states what whole runs add up to, and
`GameRoom.Serve` runs arbitrary sequences of requests and proves that each is answered as it must be and that seats
and avatars stay in bijection throughout. `GameTurns` counts turns, so that it can be said exactly which of ten
attempts at a versioned update is the first that nobody gets in the way of.

**Venues and players** (`VenueLoading`, `VenueHandlers`, `Nonce`). The double-checked loading protocol as a state
machine over any number of interleaved threads; load accounting and the choice of a handler; the replay filter.

**The RESP codec and the containers of hiredis** (`Bytes`, `RespScan`, `Resp`, `RespGrammar`, `RespHeap`,
`RespReader`, `RespEncode`, `RespFormat`, `SdsArgs`, `SdsGrammar`, `DictChains`, `Dicts`, `DictIterators`). `Resp` is
the parser as a pure resumable machine; `RespReader` is the reader with buffer, cursor, task stack and reply objects
that are filled in place, proved to do what the machine does. `RespGrammar` says over literal bytes which inputs there
are and what they mean, without reference to the parser, and proves that a reply is given exactly for these; in the
same way `SdsGrammar` says which lines can be split into words. The formatters, the number printers, the quoting pair
and the chained hash table follow their C code; the hash table has heap entries, in-place relinking and a rehash.

## Where the code keeps less than it promises

- A comment in `DebtLiquidation.cpp` (lines 171-175) says that without net winners either no node has debts or claims,
  or all of them cancel out, and calls the second case equivalent to having no relations. It is not: in a ring of
  equal debts everything cancels out and the relations stay (`DebtBook.RingOfDebts`). All relations go if and only if
  some node has net debt below zero, or there were none (`DebtBook.RelationsGo`, and on the heap
  `DebtClearing.ClearNet`).
- Clearing is plain netting exactly when every net debtor can pay (`DebtBook.NettingIffSolvent`).
- A top-up of a pledge writes the pledge record before the gold. Some environment makes it change gold plus record if
  and only if it has something to do and the player has an account (`GameTopUp.BreakableTopUp`, with the interrupted
  run in `GameTopUp.HalfDoneTopUp`); an undisturbed one keeps gold plus record exactly under a condition on the state
  before the call (`GameTopUp.QuietTopUp`). `GameLedger.RunBalances` carries the difference through whole runs, and
  `GameLedger.QuietRunConserves` says when there is none.
- A player who joins gets a copy of the pledge record that is zero if the room asks for no pledge, and cut to a signed
  32-bit integer otherwise. It is right if and only if there is no record, or a pledge is asked for and the record is
  below 2^31 (`GameLedger.CopyIff`). In a room where nothing goes wrong, the next top-up charges the player for the
  difference (`GameRooms.JoinThenRaise`), and paying out a copy that has become negative makes gold negative exactly
  when the gold does not cover it (`GameTopUp.QuietTopUpSound`).
- The total of a handler stays the sum of its counts exactly when no negative count arrives for a venue that had
  none (`VenueHandlers.InnerHandler.SetPlayerCount`). A removed venue leaves its count behind, so that the total is
  that of the owned venues exactly when no such count is left (`VenueHandlers.InnerHandler.CountsOwnedIff`).
- A venue list is refreshed exactly when the number of changes since the last time is not a multiple of 100000, so
  that it can be stale (`VenueHandlers.InnerHandler.UpdateVenueList`, with a run in `VenueHandlers.StaleList`).
- Loading a venue catches `std::exception` only. An exception of another kind leaves the id locked: once all calls are
  over, exactly the ids of calls that ended so are still locked (`VenueLoading.EveryExitReleases`), and no venue with
  such an id is ever loaded again (`VenueLoading.EscapeBlocks`).
- The replay filter purges from the front, by timestamps that clients choose and that may go back. It accepts a nonce
  exactly when all its accepted uses are forgotten, and a use is forgotten exactly when a call more than 60 seconds
  later comes and all uses before it are forgotten too (`Nonce.Player.TestNonce`). Only while timestamps do not go back
  does that mean "not within 60 seconds" (`Nonce.OrderedForgotten`, `Nonce.OrderedAnswer`); `Nonce.EarlyReplay` has
  the same nonce accepted twice at any distance.
- Kicking an avatar keeps seats and avatars in bijection exactly when the avatar names the seat of its player, or its
  player is not here and the named seat is free (`GameRooms.GameRoom.Unseat`, `GameRooms.GameRoom.KickAvatar`).
- `isFull` agrees with the absence of a free seat if and only if the room is of category A and has a positive player
  limit (`GameRooms.GameRoom.FullOrFree`).
- A text in single quotes is read back as itself unless it ends with a backslash, which takes the closing quote for
  itself; the line is then refused (`SdsGrammar.SingleQuotes`).
- Bucket numbers of the hash table pass through a signed 32-bit integer, in which -1 means "key exists". They
  survive for every hash value exactly when there are at most 2^31 buckets (`DictChains.IndexFits`).
- A walk through the hash table compares with the size cut to a signed 32-bit integer. It meets every key if and only
  if there are less than 2^31 buckets or no keys (`DictIterators.WholeWalk`, with the input in `DictIterators.LostKey`).
- The reply reader accepts up to 2^32 - 1 elements, twice as many slots for maps, but numbers slots with a signed
  32-bit integer. It overflows exactly when an aggregate that expects more has 2^31 - 1 elements (`Resp.OverflowIff`);
  streams that bring this about are in `RespEncode.HugeAggregate` and `RespEncode.ManyNils`.
- The reader does not look at the two bytes behind the body of a bulk string, so that any two bytes end it
  (`RespGrammar.ReadsTheGrammar`, where the form of a body has an arbitrary end).
- The reader adds two to the length of a bulk string, which overflows exactly for the lengths 2^63 - 2 and 2^63 - 1
  (`Resp.LengthOverflowIff`).

## Model

| member | source | states |
|---|---|---|
| `DebtBook.NetDebtsCancel` | Framework/Game/DebtLiquidation.cpp:170-177 | over a closed antisymmetric net the net debts of all nodes add up to zero |
| `DebtBook.NoWinnerNoDebt` | Framework/Game/DebtLiquidation.cpp:170-177 | without a winner every node's net debt is zero, so stopping there is right |
| `DebtBook.RingOfDebts` | Framework/Game/DebtLiquidation.cpp:170-177 | a ring of three equal debts has no winner and is left as it is: the witness that zero net debt is not absence of relations |
| `DebtBook.LosersAreFewer` | Framework/Game/DebtLiquidation.cpp:185-219 | the losers' net is strictly smaller, so that the recursion ends |
| `DebtBook.RepayKeepsNetWorth` | Framework/Game/DebtLiquidation.cpp:178-184 | when the winners repay, every node's cash minus net debt stays |
| `DebtBook.RepayKeepsTotal` | Framework/Game/DebtLiquidation.cpp:178-184 | when the winners repay, total cash stays |
| `DebtBook.RepayHelpsOthers` | Framework/Game/DebtLiquidation.cpp:178-184 | nodes that do not repay only gain cash and lose claims |
| `DebtBook.RepayMore` | Framework/Game/DebtLiquidation.cpp:178-184 | repayment by one more node extends the closed form, so that the order of winners does not matter |
| `DebtBook.NetDebtSplits` | Framework/Game/DebtLiquidation.cpp:185-217 | a loser's net debt is its net debt inside the sub-net plus what it owes winners |
| `DebtBook.IdleSubNet` | Framework/Game/DebtLiquidation.cpp:196-236 | skipping the recursion when the sub-net has no relations gives the same result |
| `DebtBook.PeeledIsOneWay` | Framework/Game/DebtLiquidation.cpp:238-240 | after the recursion only losers owe and only to winners, as the author's comment relies on |
| `DebtBook.PeeledTotal` | Framework/Game/DebtLiquidation.cpp:218-236 | writing the sub-net's cash back changes the total by what the sub-net changed |
| `DebtBook.SharesAddUp` | Framework/Game/DebtLiquidation.cpp:244-269 | what a loser's creditors receive is what the loser gives up |
| `DebtBook.ShareWithinClaim` | Framework/Game/DebtLiquidation.cpp:249-267 | no creditor gets more than its claim, and all of it from a solvent debtor |
| `DebtBook.SettleKeepsTotal` | Framework/Game/DebtLiquidation.cpp:244-269 | the last phase never destroys cash and creates none unless a negative balance without debt is wiped |
| `DebtBook.SettleMore` | Framework/Game/DebtLiquidation.cpp:244-269 | payment by one more loser extends the closed form, so that the order of losers does not matter |
| `DebtBook.SolventSettleIsRepay` | Framework/Game/DebtLiquidation.cpp:264-267 | for a solvent loser the last phase is plain repayment |
| `DebtBook.WinnerCollects` | Framework/Game/DebtLiquidation.cpp:244-269 | a winner ends with at most cash minus net debt, and with exactly that if all its debtors are solvent |
| `DebtBook.LoserEnds` | Framework/Game/DebtLiquidation.cpp:244-269 | a loser ends with what its debts leave of its cash, or with nothing |
| `DebtBook.NothingForgiven` | Framework/Game/DebtLiquidation.cpp:249-262 | from non-negative cash the case "no debt but negative cash" is unreachable at every depth |
| `DebtBook.ClearBounds` | Framework/Game/DebtLiquidation.cpp:218-269 | from non-negative cash, who started with net debt at least zero ends at least at zero, and nobody ends above max(0, cash minus net debt) |
| `DebtBook.ClearConserves` | Framework/Game/DebtLiquidation.cpp:153-271 | clearing never destroys cash, and from non-negative cash it keeps the total exactly |
| `DebtBook.SolventClearing` | Framework/Game/DebtLiquidation.cpp:160-269 | if every net debtor can pay, nobody pays pro rata at any depth and each node ends with cash minus net debt |
| `DebtBook.NettingIffSolvent` | Framework/Game/DebtLiquidation.cpp:160-269 | from non-negative cash, clearing is plain netting if and only if every net debtor can pay |
| `DebtBook.RoundClearsDebts` | Framework/Game/DebtLiquidation.cpp:178-269 | after a round every net debt is zero |
| `DebtBook.RoundClearsEntry` | Framework/Game/DebtLiquidation.cpp:178-269 | after a round with a winner every single entry is zero |
| `DebtBook.RelationsGo` | Framework/Game/DebtLiquidation.cpp:170-269 | clearing leaves no relation between any two nodes if and only if some node started with net debt below zero or there was no relation to begin with |
| `DebtClearing.DebtNode.Tally` | Framework/Game/DebtLiquidation.cpp:36-45 | adds to one entry of the sheet; a null node changes nothing |
| `DebtClearing.DebtNode.Receipt` | Framework/Game/DebtLiquidation.cpp:47-68 | accepted exactly from a recorded debtor; cash grows by the claim and the entry goes |
| `DebtClearing.DebtNode.RepayAll` | Framework/Game/DebtLiquidation.cpp:70-80 | pays exactly the creditors that accept, in any order; each gets its claim and nobody else changes |
| `DebtClearing.DebtNode.Erase` | Framework/Game/DebtLiquidation.cpp:105-109 | drops one entry |
| `DebtClearing.DebtNode.EraseNet` | Framework/Game/DebtLiquidation.cpp:111-125 | drops the relations with a whole net, on both sides |
| `DebtClearing.DebtNode.PayProRata` | Framework/Game/DebtLiquidation.cpp:249-263 | every creditor gets its proportion and forgets the debtor, who ends empty |
| `DebtClearing.DebtNode.GetDebt` | Framework/Game/DebtLiquidation.cpp:135-143 | the sum of the sheet, whatever the order |
| `DebtClearing.Classify` | Framework/Game/DebtLiquidation.cpp:157-169 | the two maps are the book's winners and losers |
| `DebtClearing.RepayIn` | Framework/Game/DebtLiquidation.cpp:180-184 | one node's repayment on the heap is `AfterRepay` of the book |
| `DebtClearing.RepayWinners` | Framework/Game/DebtLiquidation.cpp:178-184 | all winners' repayments in any order are `AfterRepay` of all of them |
| `DebtClearing.CopyLosers` | Framework/Game/DebtLiquidation.cpp:185-217 | fresh nodes form a closed net whose book is the losers' part, and the flag says whether it has relations |
| `DebtClearing.WriteBackNet` | Framework/Game/DebtLiquidation.cpp:223-236 | losers get the sub-net's cash and lose all relations to one another |
| `DebtClearing.SettleNode` | Framework/Game/DebtLiquidation.cpp:244-269 | one loser's payment, full or pro rata, is `AfterSettle` of the book |
| `DebtClearing.SettleLosers` | Framework/Game/DebtLiquidation.cpp:241-269 | all losers' payments in any order are `AfterSettle` of all of them |
| `DebtClearing.Liquidate` | Framework/Game/DebtLiquidation.cpp:153-271 | returns true, terminates, and leaves on the heap exactly the book, cash and entries, that clearing gives; every net debt is zero |
| `DebtClearing.ClearNet` | Framework/Game/DebtLiquidation.cpp:153-271 | the same from any closed antisymmetric heap net: outcome independent of visiting order, cash conserved, netting if all can pay, and every entry gone if and only if some node had a net claim or all entries were zero |
| `GameDb.ChangedTransitive` | Framework/Game/GameRoom.cpp:447-501 | changes of own gold, diamonds and pledge add up across statements and interference |
| `GameDb.WrittenIsSame` | Framework/Game/GameRoom.cpp:447-501 | whatever other writers do before a statement, nobody's own gold, own diamonds or pledge changes, and versions tell |
| `GameTurns.TouchedVersion` | Framework/Game/GameRoom.cpp:277-296 | other writers change the version of a row if and only if they write it |
| `GameTurns.FourVersions` | Framework/Game/GameRoom.cpp:519-573 | over a read, a count, a write of the record and an update, the version that was read still stands if and only if nobody else wrote the row in the last three turns |
| `GameDb.Database.UpdateGold` | Framework/Game/GameRoom.cpp:277-296 | a versioned update that hits the version read before moves gold by the intended difference although others wrote in between |
| `GameDb.Database.UpdateDiamond` | Framework/Game/GameRoom.cpp:648-663 | the same for diamonds |
| `GameRooms.GameRoom.UpdateCashPledge` | Framework/Game/GameRoom.cpp:582-628 | does exactly the count and write of `SetPledge`; success leaves a record of exactly the amount, or none for an amount that is not positive; failure changes nothing |
| `GameRooms.GameRoom.PayBack` | Framework/Game/GameRoom.cpp:472-500 | either exactly the amount is credited once, or nothing changed; in any environment, it is credited if and only if the player has an account and one of the first ten attempts has only succeeding statements up to it and nobody else writing the row between its read and its update |
| `GameRooms.GameRoom.ReturnCashPledge` | Framework/Game/GameRoom.cpp:447-501 | the whole pledge becomes gold; or nothing changed; or the record is gone and the logged debt equals it; in any environment, it succeeds if and only if the first two statements do and there is no pledge or one of ten attempts to pay it goes well |
| `GameRooms.GameRoom.PlacePledge` | Framework/Game/GameRoom.cpp:267-301 | gold pays exactly the missing part of the pledge; or nothing changed; or the logged debt equals the gold taken |
| `GameRooms.GameRoom.TakePledge` | Framework/Game/GameRoom.cpp:228-306 | joining leaves the record at the asked amount or above, paid from gold; failing exits lose nothing but the logged debt; undisturbed, it succeeds exactly when gold and diamonds suffice |
| `GameRooms.GameRoom.DeductCashPledge` | Framework/Game/GameRoom.cpp:507-580 | is the function `TopUp` of tables, environment, avatar and need, for any avatar; gold and avatar pledge move together or not at all; the record changes without them only if the call was disturbed; for a positive need it succeeds if one of ten attempts goes well with gold enough at every read until then, and only then unless a player to be kicked could not pay at some read |
| `GameRooms.GameRoom.DeductDiamond` | Framework/Game/GameRoom.cpp:630-665 | success takes exactly the price, also a negative one; failure takes nothing; in any environment, it succeeds if and only if the player has an account and one of ten attempts goes well with diamonds enough at every read until then (for a price of zero, if the first read succeeds) |
| `GameLedger.TopUpBalance` | Framework/Game/GameRoom.cpp:507-580 | a top-up always keeps gold plus avatar pledge and deletes no record of a player who stays; undisturbed and from agreement it keeps gold plus record and the agreement |
| `GameTopUp.HalfDoneTopUp` | Framework/Game/GameRoom.cpp:539-566 | for every player with an account and every need above the pledge that changes the record there is an environment in which the record is written and the gold is not taken |
| `GameTopUp.SetPledgeEffect` | Framework/Game/GameRoom.cpp:582-628 | count and write change at most the record, and an undisturbed pair succeeds |
| `GameTopUp.CommitEffect` | Framework/Game/GameRoom.cpp:539-571 | writing the record and then the gold moves both, or leaves the record old or new with the gold unmoved; undisturbed it moves both |
| `GameTopUp.TopUpDeducts` | Framework/Game/GameRoom.cpp:507-580 | any number of attempts in any environment do what a top-up may do; undisturbed, account and gold decide |
| `GameTopUp.OnceByTurns` | Framework/Game/GameRoom.cpp:519-573 | an attempt with gold enough succeeds if and only if its four statements do and nobody else writes the row after its read, and is repeated if and only if they succeed and somebody does |
| `GameTopUp.TopUpByTurns` | Framework/Game/GameRoom.cpp:517-580 | for any number of attempts: success if one of them goes well with gold enough at every read until then, and only then unless the player is to be kicked and could not pay at some read |
| `GameTopUp.QuietTopUp` | Framework/Game/GameRoom.cpp:507-580 | an undisturbed top-up, from any avatar pledge, keeps gold plus record if and only if it has nothing to do, the player has no account, or cannot pay and is not to be kicked, or record and avatar agree beforehand (up to the part of a negative need that no record keeps) |
| `GameTopUp.QuietTopUpSound` | Framework/Game/GameRoom.cpp:525-566 | an undisturbed top-up makes gold negative if and only if it pays out a negative pledge that the gold does not cover |
| `GameTopUp.BreakableTopUp` | Framework/Game/GameRoom.cpp:507-580 | some environment makes a top-up change gold plus record if and only if the need exceeds the avatar's pledge and the player has an account |
| `GameLedger.JoinedPledge` | Framework/Game/GameRoom.cpp:317-318 | a pledge below 2^31 survives the narrowing to int |
| `GameLedger.StepBalances` | Framework/Game/GameRoom.cpp:228-665 | one operation changes no player's gold + pledge + logged debt except by its slip, makes no record negative, and nothing else unless it tops up a negative pledge |
| `GameLedger.RunBalances` | Framework/Game/GameRoom.cpp:228-665 | over any run, for every player: gold + pledge + logged debt moves only by the slips of top-ups, diamonds only by what was spent, and no record becomes negative |
| `GameLedger.CleanRunConserves` | Framework/Game/GameRoom.cpp:228-665 | a run whose top-ups are undisturbed, and whose joins ask for a pledge or find none, keeps gold + pledge + logged debt of every player, and avatars agree with their records |
| `GameLedger.QuietRunConserves` | Framework/Game/GameRoom.cpp:228-665 | an undisturbed run keeps gold + pledge + logged debt of every player if exactly the avatars have records to begin with, or if avatars agree with their records and every join asks for a pledge |
| `GameLedger.CopyIff` | Framework/Game/GameRoom.cpp:316-319 | the avatar's copy of the pledge record is right if and only if there is no record, or a pledge is asked for and the record is below 2^31 |
| `GameRooms.JoinThenRaise` | Framework/Game/GameRoom.cpp:228-580 | for every old record, asked pledge, need and sufficient gold: a player who enters a room and is topped up, undisturbed and from agreement, ends with a balance that is off by exactly copy minus record |
| `GameRooms.GameRoom.GetEmptySeat` | Framework/Game/GameRoom.cpp:135-143 | the lowest free seat, or -1 when none is free |
| `GameRooms.SeatsTaken` | Framework/Game/GameRoom.cpp:145-153 | players on different seats fill all seats exactly when there are as many as seats |
| `GameRooms.GameRoom.IsFull` | Framework/Game/GameRoom.cpp:145-153 | counting avatars tells exactly whether no seat is free, in rooms of category A with seats |
| `GameRooms.GameRoom.FullOrFree` | Framework/Game/GameRoom.cpp:135-153 | `isFull` and "no empty seat" agree if and only if the room is of category A and has seats |
| `GameRooms.GameRoom.Unseat` | Framework/Game/GameRoom.cpp:339-344 | seats and avatars stay in bijection if and only if the avatar names the seat of its player, or its player is not here and the named seat is free |
| `GameRooms.GameRoom.JoinGame` | Framework/Game/GameRoom.cpp:228-321 | success adds one avatar on the given seat with the record's pledge cut to 32 bits; failure leaves the room alone; the money moves as a join step |
| `GameRooms.GameRoom.RemovePlayer` | Framework/Game/GameRoom.cpp:334-344 | clears the named seat and forgets the player whether or not the pledge could be returned; the money moves as a return |
| `GameRooms.GameRoom.OnEnter` | Framework/Game/GameRoom.cpp:197-226 | a player who is let in and was not there gets the lowest seat that was free; who joins, watches or is refused is exact in any environment; a refused one changes nothing; undisturbed, success is exact in status, hooks, seats, gold and diamonds |
| `GameRooms.GameRoom.OnLeave` | Framework/Game/GameRoom.cpp:323-350 | exactly the leaving player's avatar, and place as a spectator, goes, and only if the game agrees |
| `GameRooms.GameRoom.KickAvatar` | Framework/Game/GameRoom.cpp:765-783 | any avatar: one return of its player's pledge, its player is forgotten, and the room stays in order exactly under the condition of `Unseat` |
| `GameRooms.GameRoom.KickAllAvatars` | Framework/Game/GameRoom.cpp:785-805 | every avatar's pledge is returned exactly once, and all seats are free |
| `GameRooms.GameRoom.Serve` | Framework/Game/GameRoom.cpp:135-350 | over any sequence of requests, with pledges of any size: each request has exactly the event and the effect on avatars, spectators and settings that it must have, seats and avatars stay in bijection, no record becomes negative, and the balances of every player are those of the run; with pledges below 2^31 nothing becomes negative, and if nothing goes wrong balances do not change, under the starting conditions of `QuietRunConserves` |
| `VenueLoading.DoKeepsInv` | Framework/Venue/VenueManager.cpp:112-300 | every step of every thread keeps the protocol's invariant |
| `VenueLoading.LoadingIsExclusive` | Framework/Venue/VenueManager.cpp:173-236 | in every run an id is locked exactly while one thread is in its load section or has left it by an exception, and never by two |
| `VenueLoading.EveryExitReleases` | Framework/Venue/VenueManager.cpp:185-236 | when all calls are over, an id is locked if and only if a call for it ended in an exception other than `std::exception` |
| `VenueLoading.EscapeBlocks` | Framework/Venue/VenueManager.cpp:173-236 | after such an exception, whatever is called later, the id stays locked, no venue with it is ever there and nobody obtains one |
| `VenueLoading.SameVenueBetweenRemovals` | Framework/Venue/VenueManager.cpp:112-270 | two venues obtained for an id between the same removals are one object |
| `VenueLoading.ReturnsAgreeUntilRemoval` | Framework/Venue/VenueManager.cpp:112-236 | until the first removal, all threads that return a venue for an id return the same object |
| `VenueLoading.EveryCallEnds` | Framework/Venue/VenueManager.cpp:112-236 | in every run, whatever other threads and removals come in between, a call is over after 210 steps of its own |
| `VenueLoading.LoneCallLoads` | Framework/Venue/VenueManager.cpp:112-236 | an undisturbed call for a venue that is not loaded, whose queries succeed, loads, publishes and returns a venue of the right type and releases the id |
| `VenueLoading.LoadedIsReturned` | Framework/Venue/VenueManager.cpp:113-121 | in every run, a call for a loaded venue returns it with its first step if the game types agree, and nothing otherwise, and changes nothing for others |
| `VenueLoading.RecheckReturns` | Framework/Venue/VenueManager.cpp:185-189 | in every run, a call that finds the venue after locking the id returns the venue it found with its second step from there and releases the id, whatever others do in between |
| `VenueLoading.DeniedIff` | Framework/Venue/VenueManager.cpp:112-236 | in every run, a call returns nothing if and only if one of its own steps found another game type, got a no, or found the id still locked after 200 waits |
| `VenueLoading.LoneCallWaits` | Framework/Venue/VenueManager.cpp:173-184 | a call alone with an id that stays locked looks 201 times and then gives up |
| `VenueLoading.VenuesChange` | Framework/Venue/VenueManager.cpp:190-236 | a venue comes into the map only as the one that a call publishes for its own id where there was none, and goes only by removal |
| `VenueHandlers.InnerHandler.AddVenue` | Framework/Venue/VenueInnerHandler.cpp:33-40 | an id that is there keeps its venue; the generation moves either way |
| `VenueHandlers.InnerHandler.RemoveVenue` | Framework/Venue/VenueInnerHandler.cpp:54-65 | removes the id; the generation moves exactly if it was there; the total still counts owned venues only if and only if the venue had no count |
| `VenueHandlers.InnerHandler.SetPlayerCount` | Framework/Venue/VenueInnerHandler.cpp:74-96 | the total stays the sum of the counts if and only if no negative count arrives for a venue without one; counts stay positive |
| `VenueHandlers.SumPositive` | Framework/Venue/VenueInnerHandler.cpp:98-102 | positive counts have a total of at least zero, so that -1 is no total, and zero only if there are none |
| `VenueHandlers.InnerHandler.CountsOwnedIff` | Framework/Venue/VenueInnerHandler.cpp:54-102 | the total is the sum over owned venues if and only if no count is left of a venue that is gone |
| `VenueHandlers.InnerHandler.UpdateVenueList` | Framework/Venue/VenueInnerHandler.cpp:161-174 | afterwards the list is the map's venues if and only if the changes were no multiple of 100000 or cancelled out |
| `VenueHandlers.StaleList` | Framework/Venue/VenueInnerHandler.cpp:33-40 | a venue added 100000 times is owned and, after an update of the list, not listed |
| `VenueHandlers.HandlerTable.DistributeHandler` | Framework/Venue/VenueManager.cpp:81-110 | a known venue keeps its handler; a new one gets a least loaded handler that supports its game, and none only if none supports it |
| `Nonce.PurgeForgets` | Framework/Player/Player.cpp:78-89 | purging drops exactly the calls that the new call makes the player forget, by a definition on calls alone |
| `Nonce.Judged` | Framework/Player/Player.cpp:78-92 | a nonce is missing from what is left if and only if all its accepted uses are forgotten, for timestamps in any order |
| `Nonce.OrderedForgotten` | Framework/Player/Player.cpp:78-89 | while timestamps do not go back, a call is forgotten if and only if it is more than 60 seconds old |
| `Nonce.OrderedAnswer` | Framework/Player/Player.cpp:73-96 | while timestamps do not go back, all uses of a nonce are forgotten if and only if none is in the last 60 seconds |
| `Nonce.Player.Purge` | Framework/Player/Player.cpp:78-89 | drops exactly the leading entries older than 60 seconds and keeps set and sequence equal |
| `Nonce.Player.TestNonce` | Framework/Player/Player.cpp:73-96 | accepts if and only if all accepted uses of the nonce are forgotten, for timestamps in any order; while they do not go back, if and only if no call accepted within the last 60 seconds used the nonce |
| `Nonce.EarlyReplay` | Framework/Player/PlayerManager.cpp:101-116 | a nonce is accepted again at any time once another one came with a timestamp more than 60 seconds later |
| `Bytes.DecimalInjective` | 3rdpart/hiredis/source/read.c:162-223 | different integers have different decimal strings |
| `Bytes.ParseDecimal` | 3rdpart/hiredis/source/read.c:162-223 | the decimal string of a 64-bit value is read as that value |
| `RespScan.FindCrlfStable` | 3rdpart/hiredis/source/read.c:125-148 | a line end once found stays the first when more bytes arrive |
| `RespScan.SeekNewline` | 3rdpart/hiredis/source/read.c:125-148 | finds the first carriage return that a line feed follows, also past lone carriage returns |
| `RespScan.String2ll` | 3rdpart/hiredis/source/read.c:162-223 | accepts exactly the canonical decimal strings of [-2^63, 2^63-1], with their value, and never overflows its accumulator |
| `Resp.StepValid` | 3rdpart/hiredis/source/read.c:240-267 | every step keeps open aggregates incomplete and of aggregate type |
| `Resp.OverflowIff` | 3rdpart/hiredis/source/read.c:256-264 | the 32-bit slot index overflows exactly when the aggregate that a reply ends up in has 2^31 - 1 elements and expects more |
| `Resp.NoOverflow` | 3rdpart/hiredis/source/read.c:256-264 | so never in aggregates of at most 2^31 elements |
| `Resp.LengthOverflowIff` | 3rdpart/hiredis/source/read.c:431-433 | a step stops for an overflow of the length if and only if a bulk string of 2^63 - 2 or 2^63 - 1 bytes is announced |
| `Resp.StepExtended` | 3rdpart/hiredis/source/read.c:269-657 | a step that does not wait does the same with more input behind it |
| `Resp.GetReplyIsDrainStep` | 3rdpart/hiredis/source/read.c:742-793 | asking for a reply early takes it off what the rest of the stream yields and nothing else |
| `Resp.RunIsDrain` | 3rdpart/hiredis/source/read.c:711-793 | any interleaving of feeding and asking yields the replies of the whole stream |
| `Resp.ChunkingIndependent` | 3rdpart/hiredis/source/read.c:711-793 | replies and final status depend only on the bytes fed, not on how they were cut or when replies were asked for |
| `Resp.NoReplyMeansDrained` | 3rdpart/hiredis/source/read.c:742-793 | a reader that gives no reply has none left |
| `Resp.ReplyUsesInput` | 3rdpart/hiredis/source/read.c:742-793 | each reply consumes input |
| `RespGrammar.ReadsTheGrammar` | 3rdpart/hiredis/source/read.c:269-793 | a reply is given if and only if the input begins with a form that means it, given over literal bytes for every type and depth, and then exactly this form is used up |
| `RespGrammar.StreamOfForms` | 3rdpart/hiredis/source/read.c:269-793 | the replies that a whole stream yields are what its forms mean one after the other, up to where no form begins |
| `RespGrammar.Unambiguous` | 3rdpart/hiredis/source/read.c:269-793 | no input can be understood in two ways |
| `RespGrammar.DrainItem` | 3rdpart/hiredis/source/read.c:269-793 | a form is read as what it means into any stack of open aggregates |
| `RespGrammar.Nulls` | 3rdpart/hiredis/source/read.c:425-431 | `-1` as a length or a count is nil, for both kinds of strings and all five kinds of aggregates, wherever it stands |
| `RespGrammar.StartBytes` | 3rdpart/hiredis/source/read.c:574-626 | which of the 256 bytes start which kind of reply |
| `RespGrammar.LineMeansIff` | 3rdpart/hiredis/source/read.c:269-396 | a line is accepted with a meaning if and only if its literal description says so |
| `RespGrammar.RefusedStart` | 3rdpart/hiredis/source/read.c:624-626 | any other start byte is an error that names it |
| `RespGrammar.RefusedLine` | 3rdpart/hiredis/source/read.c:269-396 | a complete line without a meaning is the error of its type |
| `RespGrammar.RefusedLength` | 3rdpart/hiredis/source/read.c:411-424 | a length that is no number, below -1, or beyond 2^63 - 3 is the respective error |
| `RespGrammar.RefusedCount` | 3rdpart/hiredis/source/read.c:506-525 | a count that is no number, below -1 or above 4294967295 is the respective error |
| `RespHeap.CreateKeepsStack` | 3rdpart/hiredis/source/hiredis.c:126-302 | a created object fills the empty slot of its parent and keeps the stack invariant |
| `RespHeap.CreateKeeps` | 3rdpart/hiredis/source/hiredis.c:126-302 | creating an object leaves every finished object, at every depth, as it is |
| `RespHeap.PopFinishes` | 3rdpart/hiredis/source/read.c:240-267 | when the last slot is filled the parent is complete and stands for exactly its elements |
| `RespHeap.AdvanceKeepsStack` | 3rdpart/hiredis/source/read.c:240-267 | otherwise the next slot of the parent is the one to fill, and the filled ones stay |
| `RespHeap.OpenKeepsStack` | 3rdpart/hiredis/source/read.c:496-572 | a new aggregate with empty slots becomes the innermost one |
| `RespReader.RedisReader.MoveToNextTask` | 3rdpart/hiredis/source/read.c:240-267 | pops exactly the finished aggregates; an emptied stack means the root is complete at every depth; an index beyond 32 bits is reported |
| `RespReader.ParseLineItem` | 3rdpart/hiredis/source/read.c:269-396 | the payload of a line is accepted or refused as its type demands |
| `RespReader.RedisReader.ProcessLineItem` | 3rdpart/hiredis/source/read.c:269-396 | does the machine's step for one-line replies; while waiting nothing changes |
| `RespReader.RedisReader.ProcessBulkItem` | 3rdpart/hiredis/source/read.c:398-468 | does the machine's step for strings with a length, including nil, bad lengths and lengths that overflow |
| `RespReader.RedisReader.Grow` | 3rdpart/hiredis/source/read.c:470-493 | more task slots without changing the reader's meaning |
| `RespReader.RedisReader.OpenAggregate` | 3rdpart/hiredis/source/read.c:540-563 | opens an aggregate with all slots empty |
| `RespReader.RedisReader.ProcessAggregateItem` | 3rdpart/hiredis/source/read.c:496-572 | does the machine's step for aggregates, including nil, empty and out-of-range counts and doubled map sizes |
| `RespReader.RedisReader.ProcessItem` | 3rdpart/hiredis/source/read.c:574-657 | consumes a type byte at most once and does one step of the machine |
| `RespReader.RedisReader.FeedChunk` | 3rdpart/hiredis/source/read.c:711-740 | appends input, and ignores it after an error |
| `RespReader.RedisReader.GetNextReply` | 3rdpart/hiredis/source/read.c:742-793 | gives exactly the machine's next reply as an object complete at every depth, also across buffer compaction; objects handed out before stay as they are |
| `RespReader.ReadStream` | 3rdpart/hiredis/source/read.c:711-793 | reading a stream in chunks gives the replies and the error of the whole stream |
| `RespEncode.FormMeans` | 3rdpart/hiredis/source/read.c:269-572 | the form that is written for a reply means this reply |
| `RespEncode.ReadReply` | 3rdpart/hiredis/source/read.c:269-572 | at any depth, the wire form of a reply with aggregates of at most 2^31 elements is read back as that reply |
| `RespEncode.HugeAggregate` | 3rdpart/hiredis/source/read.c:256-264 | the header of an aggregate of more than 2^31 slots followed by any 2^31 encoded replies ends in the overflow of the index, whatever comes next |
| `RespEncode.ManyNils` | 3rdpart/hiredis/source/read.c:256-264 | so does an array of 2^31 + 1 nils |
| `RespEncode.ReadAll` | 3rdpart/hiredis/source/read.c:269-793 | a stream of encoded replies is parsed into exactly those replies |
| `RespFormat.CountDigits` | 3rdpart/hiredis/source/hiredis.c:306-316 | counting four digits at a time gives the length of the decimal string |
| `RespFormat.BulkLen` | 3rdpart/hiredis/source/hiredis.c:319-321 | the length of an argument on the wire |
| `RespFormat.SdsUll2Str` | 3rdpart/hiredis/source/sds.c:465-492 | prints the decimal string of any 64-bit value, in at most 20 bytes |
| `RespFormat.SdsLl2Str` | 3rdpart/hiredis/source/sds.c:434-463 | prints the decimal string of any value above -2^63, in at most 20 bytes |
| `RespFormat.PrintThenRead` | 3rdpart/hiredis/source/sds.c:434-463 | `string2ll` gives back what `sdsll2str` printed |
| `RespFormat.TotalLength` | 3rdpart/hiredis/source/hiredis.c:660-664 | the precomputed length is the length of header and arguments |
| `RespFormat.ArgsByByte` | 3rdpart/hiredis/source/hiredis.c:671-677 | each argument adds `$`, its length in decimal, a line end, its bytes and a line end |
| `RespFormat.FormatCommandArgv` | 3rdpart/hiredis/source/hiredis.c:649-685 | fills a buffer of the precomputed size exactly, with `*`, the number of arguments, a line end, and the arguments on the wire |
| `RespFormat.FormatSdsCommandArgv` | 3rdpart/hiredis/source/hiredis.c:593-638 | produces the same bytes by appending, and their length |
| `RespFormat.FormatGet` | 3rdpart/hiredis/source/hiredis.c:593-638 | `GET` is written as `*1`, `$3`, `GET`, byte for byte |
| `RespFormat.CommandRoundTrip` | 3rdpart/hiredis/source/hiredis.c:593-685 | parsing a formatted command gives one array of exactly the arguments and consumes everything |
| `SdsArgs.SdsCatRepr` | 3rdpart/hiredis/source/sds.c:875-898 | appends the quoted form |
| `SdsArgs.SdsSplitArgs` | 3rdpart/hiredis/source/sds.c:943-1059 | the nested loops compute the recursive split, including unbalanced quotes |
| `SdsGrammar.SplitsTheGrammar` | 3rdpart/hiredis/source/sds.c:943-1059 | a line is split into certain words if and only if it consists of forms of these words, bare, in double or in single quotes, with blanks between them; every other line is refused |
| `SdsGrammar.ReadUnit` | 3rdpart/hiredis/source/sds.c:955-985 | in double quotes a byte stands for itself, two hexadecimal digits for their value, and an escaped character for its value |
| `SdsGrammar.PlainWords` | 3rdpart/hiredis/source/sds.c:1010-1029 | words without blanks and quotes are split at the blanks between them, however many |
| `SdsGrammar.SingleQuotes` | 3rdpart/hiredis/source/sds.c:986-1003 | a text in single quotes reads back as itself, unless it ends with a backslash; then the line is refused |
| `SdsGrammar.TextAfterQuote` | 3rdpart/hiredis/source/sds.c:975-985 | after any words, a closing quote with anything but a blank behind it makes the line refused |
| `SdsGrammar.NeverClosed` | 3rdpart/hiredis/source/sds.c:975-985 | after any words, a quote that is never closed makes the line refused |
| `SdsGrammar.EscapeTable` | 3rdpart/hiredis/source/sds.c:875-898 | how each of the 256 bytes is quoted |
| `SdsGrammar.SplitUndoesQuoting` | 3rdpart/hiredis/source/sds.c:875-1059 | for every list of byte strings, splitting the quoted and joined line gives the list back |
| `DictChains.MaskIsRemainder` | 3rdpart/hiredis/source/dict.c:102-103 | masking with the size minus one is the remainder, for powers of two |
| `DictChains.IndexFits` | 3rdpart/hiredis/source/dict.c:325-342 | bucket numbers survive the signed result for every hash value if and only if there are at most 2^31 buckets |
| `DictChains.LastOf2To32Buckets` | 3rdpart/hiredis/source/dict.c:325-342 | with 2^32 buckets the last bucket's number reads as "key exists" |
| `DictChains.LimitOfPower` | 3rdpart/hiredis/source/dict.c:279-283 | the signed bound of a walk is the number of buckets below 2^31, and none from 2^31 on |
| `DictChains.NextPower` | 3rdpart/hiredis/source/dict.c:311-320 | the least power of two that is large enough, without wrapping, below LONG_MAX; LONG_MAX from there on |
| `DictChains.PushHolds` | 3rdpart/hiredis/source/dict.c:155-160 | pushing an entry keeps every key once and in its bucket |
| `DictChains.PushLinked` | 3rdpart/hiredis/source/dict.c:155-160 | pushing an entry relinks exactly one list |
| `DictChains.DropHolds` | 3rdpart/hiredis/source/dict.c:204-220 | unlinking an entry removes exactly its key |
| `DictChains.DropLinked` | 3rdpart/hiredis/source/dict.c:206-210 | unlinking relinks exactly the entry before, or the slot |
| `DictChains.BucketKeys` | 3rdpart/hiredis/source/dict.c:112-131 | a bucket holds exactly the keys that hash to it |
| `Dicts.Dict.Find` | 3rdpart/hiredis/source/dict.c:255-268 | finds the entry of a key exactly if the finite map has it, with its value |
| `Dicts.Dict.Delete` | 3rdpart/hiredis/source/dict.c:194-222 | the finite map loses the key; the answer says whether it was there |
| `Dicts.Dict.MoveChain` | 3rdpart/hiredis/source/dict.c:117-130 | relinks every entry of a chain into the new table and counts them off |
| `Dicts.Dict.MoveAll` | 3rdpart/hiredis/source/dict.c:108-132 | all entries arrive in the new table and the counter reaches zero, also when the loop stops early |
| `Dicts.Dict.Expand` | 3rdpart/hiredis/source/dict.c:92-138 | rehashing keeps the finite map and every entry; refused exactly if the size is below the number of entries or above 2^60, where the allocation is refused |
| `Dicts.Dict.ExpandIfNeeded` | 3rdpart/hiredis/source/dict.c:300-308 | a table without buckets gets 4, and a full one twice as many as it has; it fails exactly when full at 2^60; afterwards there are fewer entries than buckets |
| `Dicts.Dict.KeyIndex` | 3rdpart/hiredis/source/dict.c:325-342 | -1 exactly if the key is there, the table cannot grow, or the bucket number reads as -1; the bucket number as a signed integer otherwise |
| `Dicts.Dict.Add` | 3rdpart/hiredis/source/dict.c:141-163 | adds a new key to the finite map exactly if it is not there, there is room, and its bucket number is not negative as a signed integer; the table starts with 4 buckets, doubles exactly when full, and never has more entries than buckets |
| `Dicts.Dict.Replace` | 3rdpart/hiredis/source/dict.c:169-191 | sets the key in the finite map, unless it is new and cannot be added; the answer says whether it is new |
| `Dicts.Dict.RoomBelow` | 3rdpart/hiredis/source/dict.c:141-163 | with less than 2^31 entries in at most 2^31 buckets every new key can be added |
| `DictIterators.Play` | 3rdpart/hiredis/source/dict.c:92-222 | any sequence of adds, replaces, deletes and finds, of any length, answers and leaves the table as a finite map would, through all rehashing and for any hash function, as long as the map stays below 2^31 keys |
| `DictIterators.DictIterator.Next` | 3rdpart/hiredis/source/dict.c:277-295 | hands out the entries of the buckets below the signed size in order, each once, and null at the end |
| `DictIterators.DropKeepsWalk` | 3rdpart/hiredis/source/dict.c:287-292 | deleting the entry handed out last does not disturb the walk |
| `DictIterators.WholeWalk` | 3rdpart/hiredis/source/dict.c:277-295 | a walk meets every key if and only if there are less than 2^31 buckets or no keys; from 2^31 buckets on it meets nothing |
| `DictIterators.Sweep` | 3rdpart/hiredis/source/dict.c:270-295 | below 2^31 buckets a walk that deletes on the way meets every key exactly once and leaves exactly the others; from there on it meets none |
| `DictIterators.LostKey` | 3rdpart/hiredis/source/dict.c:277-295 | a table expanded to 2^31 buckets holds a key that a walk does not meet |

## Left out

- Floating-point rounding in debt clearing: amounts are reals.
- Debt nets that are not closed or not antisymmetric, and sheet entries of a node with itself.
- `DebtNode::repay` for a single creditor, `printDebtNet` and the release of copied nodes.
- MySQL itself: a statement either fails without effect or takes effect at once; other writers change capital rows
  in any way that keeps them non-negative and bumps the version, but neither insert nor delete rows and do not
  touch this room's pledges.
- `GameRooms.GameRoom.Serve`: tables that start with negative pledge records are excluded; the code writes none.
- `GameRooms.GameRoom.DeductCashPledge`: that it succeeds only if an attempt goes well is not stated for needs that are
  not positive, nor for a player to be kicked who could not pay at some read.
- `GameRooms.GameRoom.KickAvatar`: in rooms of category A, avatars whose seat number lies outside the seat array: the
  code would write outside it.
- Game-specific hooks (`checkEnter`, `checkJoin`, `checkLeave`) are parameters; notifications, Redis bookkeeping,
  geolocation, chat and the gold shown after joining are not modelled. Rooms have at most 20 seats, as the array has.
- `rewardAgency`: its amount is never set from the argument, so that there is nothing to conserve.
- The venue loader, the database check before loading and the worker of a handler are outcomes chosen by the
  environment; initialisation of a loaded venue is not modelled. Exceptions are thrown only where a venue is loaded,
  distributed or published.
- Out-of-memory paths, freeing of buffers and the raw layout of objects in hiredis; reply objects live in an arena.
- `RespReader.ParseLineItem`: whether `strtod` accepts a number is a parameter, and doubles keep their text.
- Lines and buffers of 2^31 bytes or more, whose lengths the reader keeps in int; the element limit is the default.
- `RespReader.RedisReader.MoveToNextTask`: where the slot index overflows, beyond 2^31 elements of one aggregate, the
  code's behaviour is undefined; the model stops there with a fault of its own, `IndexOverflow`.
- `RespReader.RedisReader.ProcessBulkItem`: where the length plus two overflows a `long long`, the code's behaviour is
  undefined; the model stops there with a fault of its own, `LengthOverflow`. The reader is modelled for 64-bit `long`
  and `size_t`; where `unsigned long` has 32 bits, its byte count is cut.
- `RespFormat.SdsLl2Str`: the least 64-bit value is excluded, because its negation overflows in the code.
- `RespFormat.PrintThenRead`: the least 64-bit value is excluded, because `sdsll2str` has no defined result for it.
- `redisvFormatCommand`, the synchronous and asynchronous connections, TLS, sockets and timers.
- `Dicts.Dict.Add`: new keys whose bucket number, as a signed integer, is below -1: the code would write outside the
  table. Keys are compared by equality, and key and value callbacks are not modelled.
- `Dicts.Dict.Replace`: the same new keys.
- `DictIterators.Play`: maps that reach 2^31 keys, for the same reason.
- `DictIterators.DictIterator.Next`: the bucket counter of a walk is unbounded; in the code it overflows after 2^31
  further calls past the end.
- Other string functions of sds, and `jsoncpp`.
