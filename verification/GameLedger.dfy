/** What the operations of a game room do to the database, and what whole runs of them add up to. */
module GameLedger {
  import opened GameDb

  const PLEDGE_LIMIT: int := 0x8000_0000

  /** What a pledge record holds after being set to `amount`. */
  function Stored(amount: int): int {
    if amount > 0 then amount else 0
  }

  /** A 64-bit amount cut down to a 32-bit integer. */
  function Narrow(x: int): int {
    var m := x % 0x1_0000_0000;
    if m >= 0x8000_0000 then m - 0x1_0000_0000 else m
  }

  lemma SameThen(s: Tables, t: Tables, u: Tables, r: Row, g: int, d: int, p: int)
    requires Same(s, t, r) && Changed(t, u, r, g, d, p)
    ensures Changed(s, u, r, g, d, p)
  {
    hide Changed;
    ChangedTransitive(s, t, u, r, 0, 0, s.Pledge(r), g, d, p);
  }

  lemma ThenSame(s: Tables, t: Tables, u: Tables, r: Row, g: int, d: int, p: int)
    requires Changed(s, t, r, g, d, p) && Same(t, u, r)
    ensures Changed(s, u, r, g, d, p)
    ensures t.pledge == s.pledge ==> u.pledge == s.pledge
  {
    assert t.Pledge(r) == p;
    hide Changed;
    ChangedTransitive(s, t, u, r, g, d, p, 0, 0, p);
  }

  lemma SameTwice(s: Tables, t: Tables, u: Tables, r: Row)
    requires Same(s, t, r) && Same(t, u, r)
    ensures Same(s, u, r)
  {
    ThenSame(s, t, u, r, 0, 0, s.Pledge(r));
  }

  lemma SameMeans(s: Tables, t: Tables, r: Row)
    requires Same(s, t, r)
    ensures t.Pledge(r) == s.Pledge(r) && t.capital.Keys == s.capital.Keys
  {
  }

  /** What is safe if nothing was negative before is safe. */
  lemma SafeAnyway(s: Tables, s': Tables, r: Row, g: int, d: int, p: int, safe: bool)
    requires Moved(s, s', r, g, d, p, safe) && (s.Sound() ==> safe)
    ensures Changed(s, s', r, g, d, p)
  {
  }

  lemma RecordAfter(s: Tables, s': Tables, r: Row, g: int, d: int)
    requires Changed(s, s', r, g, d, s.Pledge(r))
    ensures s'.Pledge(r) == s.Pledge(r)
  {
  }

  /** What taking the pledge of a joining player does.  `ask` is the pledge that the room asks for. */
  ghost predicate Joined(s: Tables, s': Tables, r: Row, ask: int, ok: bool, owed: int) {
    if ok then
      && owed == 0
      && s'.Pledge(r) == (if 0 < ask && s.Pledge(r) < ask then ask else s.Pledge(r))
      && Changed(s, s', r, s.Pledge(r) - s'.Pledge(r), 0, s'.Pledge(r))
    else if owed == 0 then
      Same(s, s', r)
    else
      0 < owed == ask - s.Pledge(r) && Changed(s, s', r, -owed, 0, s.Pledge(r))
  }

  /** The player has the diamonds, and the gold for the missing part of the pledge. */
  ghost predicate CanJoin(s: Tables, r: Row, ask: int, diamonds: int) {
    var held := if 0 < ask then s.Pledge(r) else 0;
    && (0 < diamonds ==> diamonds <= s.Diamond(r.0))
    && (held < ask ==> ask - held <= s.Gold(r.0))
  }

  /** A join that does nothing to the tables, because it is refused or finds what it asks for. */
  lemma NothingJoined(s: Tables, r: Row, ask: int)
    ensures Joined(s, s, r, ask, false, 0)
    ensures ask <= 0 || ask <= s.Pledge(r) ==> Joined(s, s, r, ask, true, 0)
  {
    ChangedReflexive(s, r);
  }

  lemma SameJoined(s: Tables, t: Tables, u: Tables, r: Row, ask: int, ok: bool, owed: int)
    requires Same(s, t, r) && Joined(t, u, r, ask, ok, owed)
    ensures Joined(s, u, r, ask, ok, owed) && (ok && 0 < ask && t.Pledge(r) < ask ==> u.Pledge(r) == ask)
  {
    assert t.Pledge(r) == s.Pledge(r);
    hide Moved;
    if ok {
      SameThen(s, t, u, r, t.Pledge(r) - u.Pledge(r), 0, u.Pledge(r));
    } else if owed == 0 {
      ThenSame(s, t, u, r, 0, 0, s.Pledge(r));
    } else {
      SameThen(s, t, u, r, -owed, 0, t.Pledge(r));
    }
  }

  /** The gold is taken first, and then the record is written or not. */
  lemma PledgePlaced(s: Tables, t: Tables, u: Tables, r: Row, ask: int, ok: bool)
    requires 0 <= s.Pledge(r) < ask && Changed(s, t, r, s.Pledge(r) - ask, 0, s.Pledge(r))
    requires if ok then Changed(t, u, r, 0, 0, ask) else Same(t, u, r)
    ensures Joined(s, u, r, ask, ok, if ok then 0 else ask - s.Pledge(r))
  {
    if ok {
      assert u.Pledge(r) == ask;
      hide Moved;
      ChangedTransitive(s, t, u, r, s.Pledge(r) - ask, 0, s.Pledge(r), 0, 0, ask);
    } else {
      hide Moved;
      ThenSame(s, t, u, r, s.Pledge(r) - ask, 0, s.Pledge(r));
    }
  }

  /** A pledge below the limit fits the 32 bits of the avatar's copy. */
  lemma JoinedPledge(s: Tables, s': Tables, r: Row, ask: int, owed: int)
    requires Joined(s, s', r, ask, true, owed)
    requires ask < PLEDGE_LIMIT && s.Pledge(r) < PLEDGE_LIMIT
    ensures s'.Pledge(r) < PLEDGE_LIMIT
    ensures 0 < ask ==> Narrow(s'.Pledge(r)) == s'.Pledge(r)
  {
  }

  /** What giving the pledge of a leaving player back does.  Undisturbed, it fails only for a pledge without
      an account, and the record is gone in any case. */
  ghost predicate Returned(s: Tables, s': Tables, r: Row, calm: bool, ok: bool, owed: int) {
    && (calm ==> s'.Pledge(r) == 0 && (ok <==> s.Pledge(r) == 0 || r.0 in s.capital))
    && if ok then
         owed == 0 && Changed(s, s', r, s.Pledge(r), 0, 0)
       else if owed == 0 then
         Same(s, s', r)
       else
         owed == s.Pledge(r) && Changed(s, s', r, 0, 0, 0)
  }

  /** What a top-up does.  `a` and `a'` are the avatar's pledge before and after.  One that is not applied
      leaves the record alone unless it was disturbed, and deletes it only for a player to be kicked.  Paying
      out a negative pledge can make gold negative. */
  ghost predicate Deducted(s: Tables, s': Tables, r: Row, a: int, a': int, need: int, kick: bool,
                           calm: bool, ok: bool, applied: bool) {
    if applied then
      if ok then a' == need && Changed(s, s', r, a - need, 0, Stored(need))
      else kick && a' == 0 && Moved(s, s', r, a, 0, 0, 0 <= a)
    else
      && !ok && a' == a
      && Changed(s, s', r, 0, 0, s'.Pledge(r))
      && (|| s'.Pledge(r) == s.Pledge(r)
          || (!calm && (s'.Pledge(r) == Stored(need) || (kick && s'.Pledge(r) == 0))))
  }

  lemma DeductedLater(s: Tables, t: Tables, u: Tables, r: Row, a: int, a': int, need: int, kick: bool,
                      calm: bool, calm': bool, ok: bool, applied: bool)
    requires Deducted(s, t, r, a, a, need, kick, calm, false, false)
    requires Deducted(t, u, r, a, a', need, kick, calm', ok, applied)
    ensures Deducted(s, u, r, a, a', need, kick, calm && calm', ok, applied)
  {
    assert Changed(s, t, r, 0, 0, t.Pledge(r));
    hide Moved;
    var g := if !applied then 0 else if ok then a - need else a;
    var p := if !applied then u.Pledge(r) else if ok then Stored(need) else 0;
    MovedTransitive(s, t, u, r, 0, 0, t.Pledge(r), g, 0, p, !applied || ok || 0 <= a);
  }

  /** A top-up always keeps gold plus the avatar's pledge, and it deletes no record of a player who stays.
      Undisturbed, and with a record that agrees with the avatar, it keeps gold plus record and agreement. */
  lemma TopUpBalance(s: Tables, s': Tables, r: Row, a: int, a': int, need: int, kick: bool,
                     calm: bool, ok: bool, applied: bool)
    requires Deducted(s, s', r, a, a', need, kick, calm, ok, applied)
    ensures s'.OwnGold(r.0) + a' == s.OwnGold(r.0) + a
    ensures calm && s.Pledge(r) == a && 0 <= need ==>
              s'.Pledge(r) == a' && s'.OwnGold(r.0) + s'.Pledge(r) == s.OwnGold(r.0) + s.Pledge(r)
    ensures !kick && 0 < s.Pledge(r) && 0 < need ==> 0 < s'.Pledge(r)
  {
    assert s'.OwnGold(r.0) == s.OwnGold(r.0) + if !applied then 0 else if ok then a - need else a;
  }

  // ----- runs -----

  /** What a room does for a player.  `owed` is the amount that the log says must be given back, and `calm`
      says that no statement failed and nobody else wrote meanwhile. */
  datatype Event =
    | Join(p: string, ask: int, ok: bool, owed: int)
    | Return(p: string, calm: bool, ok: bool, owed: int)
    | TopUp(p: string, need: int, kick: bool, calm: bool, ok: bool, applied: bool)
    | Spend(p: string, cost: int, ok: bool)

  /** The tables, and the pledge of every avatar in the room. */
  datatype Snap = Snap(db: Tables, pledges: map<string, int>)

  ghost predicate Step(id: string, s: Snap, e: Event, s': Snap) {
    var r := (e.p, id);
    match e
    case Join(p, ask, ok, owed) =>
      && p !in s.pledges
      && Joined(s.db, s'.db, r, ask, ok, owed)
      && s'.pledges == if ok then s.pledges[p := if 0 < ask then Narrow(s'.db.Pledge(r)) else 0] else s.pledges
    case Return(p, calm, ok, owed) =>
      && p in s.pledges
      && Returned(s.db, s'.db, r, calm, ok, owed)
      && s'.pledges == s.pledges - {p}
    case TopUp(p, need, kick, calm, ok, applied) =>
      && p in s.pledges && p in s'.pledges
      && s'.pledges == s.pledges[p := s'.pledges[p]]
      && if s.pledges[p] >= need then ok && !applied && s' == s
         else Deducted(s.db, s'.db, r, s.pledges[p], s'.pledges[p], need, kick, calm, ok, applied)
    case Spend(p, cost, ok) =>
      && s'.pledges == s.pledges
      && if ok then Changed(s.db, s'.db, r, 0, -cost, s.db.Pledge(r)) else Same(s.db, s'.db, r)
  }

  ghost predicate Trace(id: string, states: seq<Snap>, events: seq<Event>) {
    && |states| == |events| + 1
    && forall i :: 0 <= i < |events| ==> Step(id, states[i], events[i], states[i + 1])
  }

  /** No room asks for, and no top-up aims at, a pledge of 2^31 or more. */
  predicate Bounded(e: Event) {
    && (e.Join? ==> e.ask < PLEDGE_LIMIT)
    && (e.TopUp? ==> e.need < PLEDGE_LIMIT)
  }

  /** Every pledge of this room fits in 31 bits, and no avatar holds a negative one. */
  ghost predicate Small(id: string, s: Snap) {
    && (forall r: Row :: r.1 == id ==> s.db.Pledge(r) < PLEDGE_LIMIT)
    && (forall p <- s.pledges :: 0 <= s.pledges[p])
  }

  lemma StepKeepsSmall(id: string, s: Snap, e: Event, s': Snap)
    requires Step(id, s, e, s') && Bounded(e) && s.db.Records() && Small(id, s)
    ensures Small(id, s') && s'.db.Records() && (s.db.Sound() ==> s'.db.Sound())
  {
    var r := (e.p, id);
    StepBalances(id, s, e, s', e.p);
    assert forall k :: k != r ==> s'.db.Pledge(k) == s.db.Pledge(k);
    assert 0 <= s'.db.Pledge(r);
    hide Changed;
    assert s'.db.Pledge(r) < PLEDGE_LIMIT;
  }

  lemma ReturnStep(id: string, s: Tables, s': Tables, pledges: map<string, int>, p: string,
                   calm: bool, ok: bool, owed: int)
    requires Returned(s, s', (p, id), calm, ok, owed) && p in pledges && s.Records()
    ensures Step(id, Snap(s, pledges), Return(p, calm, ok, owed), Snap(s', pledges - {p})) && s'.Records()
    ensures s'.capital.Keys == s.capital.Keys && forall r: Row :: r != (p, id) ==> s'.Pledge(r) == s.Pledge(r)
  {
  }

  /** Every return was undisturbed and came out as the tables `s` allow. */
  ghost predicate AllReturned(id: string, s: Tables, events: seq<Event>) {
    forall e <- events :: e.Return? ==> e.calm && (e.ok <==> s.Pledge((e.p, id)) == 0 || e.p in s.capital)
  }

  lemma TraceGrows(id: string, states: seq<Snap>, events: seq<Event>, e: Event, s': Snap)
    requires Trace(id, states, events) && Step(id, states[|events|], e, s')
    ensures Trace(id, states + [s'], events + [e])
  {
  }

  /** Returns take one player off each. */
  lemma {:induction false} ReturnsCount(id: string, states: seq<Snap>, events: seq<Event>)
    requires Trace(id, states, events) && forall e <- events :: e.Return?
    ensures |states[|events|].pledges| + |events| == |states[0].pledges|
  {
    var n := |events| - 1;
    if n >= 0 {
      assert forall e <- events[..n] :: e in events;
      ReturnsCount(id, states[..n + 1], events[..n]);
      var e, m := events[n], states[n].pledges;
      assert Step(id, states[n], e, states[n + 1]) && e in events && e.p in m;
      assert m == (m - {e.p})[e.p := m[e.p]];
    }
  }

  /** Some players' pledges have been returned, and those of `now.pledges` not yet. */
  ghost predicate Returning(id: string, start: Snap, states: seq<Snap>, events: seq<Event>, now: Snap, calm: bool) {
    && Trace(id, states, events) && states[0] == start && states[|events|] == now
    && now.db.capital.Keys == start.db.capital.Keys
    && (forall p <- now.pledges :: p in start.pledges && now.db.Pledge((p, id)) == start.db.Pledge((p, id)))
    && (forall e <- events :: e.Return? && e.p in start.pledges)
    && (calm ==> AllReturned(id, start.db, events))
  }

  lemma ReturningStarts(id: string, start: Snap)
    ensures Returning(id, start, [start], [], start, true)
  {
  }

  lemma AllDone(id: string, start: Snap, states: seq<Snap>, events: seq<Event>, now: Snap, calm: bool)
    requires Returning(id, start, states, events, now, calm) && now.pledges == map[]
    ensures Trace(id, states, events) && states[0] == start && states[|events|] == now
    ensures |events| == |start.pledges| && forall e <- events :: e.Return? && e.p in start.pledges
    ensures calm ==> AllReturned(id, start.db, events)
  {
    ReturnsCount(id, states, events);
  }

  lemma ReturningMore(id: string, start: Snap, states: seq<Snap>, events: seq<Event>, now: Snap, calm: bool,
                      e: Event, now': Snap, calm': bool)
    requires Returning(id, start, states, events, now, calm)
    requires Step(id, now, e, now') && e.Return? && now'.db.capital.Keys == now.db.capital.Keys
    requires forall p :: p != e.p ==> now'.db.Pledge((p, id)) == now.db.Pledge((p, id))
    requires calm' ==> calm && e.calm && (e.ok <==> now.db.Pledge((e.p, id)) == 0 || e.p in now.db.capital)
    ensures Returning(id, start, states + [now'], events + [e], now', calm')
  {
    hide Returned;
    assert e.p in now.pledges && now'.pledges == now.pledges - {e.p};
    hide Step;
    TraceGrows(id, states, events, e, now');
  }

  /** One run after another is a run. */
  lemma TraceJoins(id: string, states: seq<Snap>, events: seq<Event>, states': seq<Snap>, events': seq<Event>)
    requires Trace(id, states, events) && Trace(id, states', events') && states'[0] == states[|events|]
    ensures Trace(id, states + states'[1..], events + events')
    ensures (states + states'[1..])[|events + events'|] == states'[|events'|]
  {
    var all, es := states + states'[1..], events + events';
    forall i | 0 <= i < |es| ensures Step(id, all[i], es[i], all[i + 1]) {
      if i >= |events| {
        var k := i - |events|;
        assert all[i] == states'[k] && all[i + 1] == states'[k + 1] && es[i] == events'[k];
      }
    }
  }

  lemma {:induction false} TraceKeepsSmall(id: string, states: seq<Snap>, events: seq<Event>)
    requires Trace(id, states, events) && (forall e <- events :: Bounded(e))
    requires states[0].db.Records() && Small(id, states[0])
    ensures states[|events|].db.Records() && Small(id, states[|events|])
    ensures states[0].db.Sound() ==> states[|events|].db.Sound()
  {
    var n := |events| - 1;
    if n >= 0 {
      assert forall e <- events[..n] :: e in events;
      TraceKeepsSmall(id, states[..n + 1], events[..n]);
      StepKeepsSmall(id, states[n], events[n], states[n + 1]);
    }
  }

  /** Gold plus pledge in this room, apart from other writers' own changes. */
  ghost function Balance(id: string, s: Snap, q: string): int {
    s.db.OwnGold(q) + s.db.Pledge((q, id))
  }

  /** What the log says must be given back to `q`. */
  function Owed(events: seq<Event>, q: string): int {
    if events == [] then 0
    else
      var e := events[|events| - 1];
      Owed(events[..|events| - 1], q) + if e.p == q && (e.Join? || e.Return?) then e.owed else 0
  }

  /** The diamonds that `q` paid. */
  function Spent(events: seq<Event>, q: string): int {
    if events == [] then 0
    else
      var e := events[|events| - 1];
      Spent(events[..|events| - 1], q) + if e.p == q && e.Spend? && e.ok then e.cost else 0
  }

  /** How far a top-up moves a player's balance: an applied one by what the avatar held more than the
      record said, and by a negative amount that was aimed at, as no record says so; one that fails by the
      record it left behind. */
  ghost function Slip(id: string, s: Snap, e: Event, s': Snap): int
    requires Step(id, s, e, s')
  {
    if !e.TopUp? || s.pledges[e.p] >= e.need then 0
    else if e.applied then
      s.pledges[e.p] - s.db.Pledge((e.p, id)) + if e.ok then Stored(e.need) - e.need else 0
    else s'.db.Pledge((e.p, id)) - s.db.Pledge((e.p, id))
  }

  ghost function Slips(id: string, states: seq<Snap>, events: seq<Event>, q: string): int
    requires Trace(id, states, events)
  {
    var n := |events| - 1;
    if n < 0 then 0
    else
      Slips(id, states[..n + 1], events[..n], q)
      + if events[n].p == q then Slip(id, states[n], events[n], states[n + 1]) else 0
  }

  lemma StepBalances(id: string, s: Snap, e: Event, s': Snap, q: string)
    requires Step(id, s, e, s')
    ensures Balance(id, s', q) + Owed([e], q) == Balance(id, s, q) + if e.p == q then Slip(id, s, e, s') else 0
    ensures s'.db.OwnDiamond(q) + Spent([e], q) == s.db.OwnDiamond(q)
    ensures s.db.Records() ==> s'.db.Records()
    ensures s.db.Sound() && (e.TopUp? ==> 0 <= s.pledges[e.p]) ==> s'.db.Sound()
  {
    assert [e][..0] == [] && [e][0] == e;
    if e.TopUp? && s.pledges[e.p] < e.need {
      TopUpBalance(s.db, s'.db, (e.p, id), s.pledges[e.p], s'.pledges[e.p], e.need, e.kick, e.calm, e.ok, e.applied);
    }
  }

  /** Over any run, whatever other writers do in between: gold, pledge and logged debt of every player move
      only by the slips of top-ups; diamonds only by what was spent; and no record becomes negative. */
  lemma {:induction false} RunBalances(id: string, states: seq<Snap>, events: seq<Event>, q: string)
    requires Trace(id, states, events)
    ensures Balance(id, states[|events|], q) + Owed(events, q)
         == Balance(id, states[0], q) + Slips(id, states, events, q)
    ensures states[|events|].db.OwnDiamond(q) + Spent(events, q) == states[0].db.OwnDiamond(q)
    ensures states[0].db.Records() ==> states[|events|].db.Records()
  {
    var n := |events| - 1;
    if n >= 0 {
      RunBalances(id, states[..n + 1], events[..n], q);
      StepBalances(id, states[n], events[n], states[n + 1], q);
    }
  }

  /** Every avatar holds the pledge that its record says. */
  ghost predicate Agrees(id: string, s: Snap) {
    forall p <- s.pledges :: s.pledges[p] == s.db.Pledge((p, id))
  }

  /** A join whose pledge fits the avatar's copy, or that asks for none and finds none; and a top-up that is
      not disturbed. */
  ghost predicate Clean(id: string, s: Snap, e: Event) {
    var held := s.db.Pledge((e.p, id));
    && (e.Join? && e.ok ==> if 0 < e.ask then e.ask < PLEDGE_LIMIT && held < PLEDGE_LIMIT else held == 0)
    && (e.TopUp? ==> e.calm)
  }

  lemma CleanStep(id: string, s: Snap, e: Event, s': Snap)
    requires Step(id, s, e, s') && s.db.Records() && Agrees(id, s) && Clean(id, s, e)
    ensures Agrees(id, s') && Slip(id, s, e, s') == 0
  {
    var r := (e.p, id);
    if e.TopUp? && s.pledges[e.p] < e.need {
      TopUpBalance(s.db, s'.db, r, s.pledges[e.p], s'.pledges[e.p], e.need, e.kick, e.calm, e.ok, e.applied);
    }
    assert forall k :: k != r ==> s'.db.Pledge(k) == s.db.Pledge(k);
  }

  /** A run whose top-ups are not disturbed conserves gold plus pledge plus logged debt of every player. */
  lemma {:induction false} CleanRunConserves(id: string, states: seq<Snap>, events: seq<Event>, q: string)
    requires Trace(id, states, events) && states[0].db.Records() && Agrees(id, states[0])
    requires forall i :: 0 <= i < |events| ==> Clean(id, states[i], events[i])
    ensures Agrees(id, states[|events|]) && Slips(id, states, events, q) == 0
    ensures Balance(id, states[|events|], q) + Owed(events, q) == Balance(id, states[0], q)
  {
    RunBalances(id, states, events, q);
    var n := |events| - 1;
    if n >= 0 {
      CleanRunConserves(id, states[..n + 1], events[..n], q);
      RunBalances(id, states[..n + 1], events[..n], q);
      CleanStep(id, states[n], events[n], states[n + 1]);
    }
  }

  /** Nothing went wrong while pledges were topped up or given back. */
  predicate Undisturbed(e: Event) {
    (e.TopUp? || e.Return?) ==> e.calm
  }

  /** Exactly the avatars have pledge records, and with the same amounts. */
  ghost predicate Settled(id: string, s: Snap) {
    forall p :: s.db.Pledge((p, id)) == if p in s.pledges then s.pledges[p] else 0
  }

  lemma SettledStep(id: string, s: Snap, e: Event, s': Snap)
    requires Step(id, s, e, s') && s.db.Records() && Settled(id, s) && Small(id, s) && Bounded(e) && Undisturbed(e)
    ensures Settled(id, s') && Clean(id, s, e)
  {
    assert Agrees(id, s);
    CleanStep(id, s, e, s');
    assert forall k :: k != (e.p, id) ==> s'.db.Pledge(k) == s.db.Pledge(k);
  }

  /** If nothing goes wrong and, to begin with, exactly the avatars have pledge records, or every join asks for
      a pledge, then nobody's gold plus pledge plus logged debt changes. */
  lemma {:induction false} QuietRunConserves(id: string, states: seq<Snap>, events: seq<Event>, q: string)
    requires Trace(id, states, events) && states[0].db.Records() && Small(id, states[0])
    requires forall e <- events :: Bounded(e) && Undisturbed(e)
    requires || Settled(id, states[0])
             || (Agrees(id, states[0]) && forall e <- events :: e.Join? ==> 0 < e.ask)
    ensures Slips(id, states, events, q) == 0
    ensures Balance(id, states[|events|], q) + Owed(events, q) == Balance(id, states[0], q)
    ensures Settled(id, states[0]) ==> Settled(id, states[|events|])
  {
    forall i | 0 <= i <= |events|
      ensures states[i].db.Records() && Small(id, states[i])
      ensures Settled(id, states[0]) ==> Settled(id, states[i])
    {
      QuietPrefix(id, states, events, i);
    }
    forall i | 0 <= i < |events| ensures Clean(id, states[i], events[i]) {
      assert events[i] in events && Step(id, states[i], events[i], states[i + 1]);
      if Settled(id, states[0]) {
        SettledStep(id, states[i], events[i], states[i + 1]);
      }
    }
    CleanRunConserves(id, states, events, q);
  }

  /** What the pledge record, and the avatar's copy of it, say once a player has joined. */
  function RecordOf(ask: int, held: nat): nat {
    if held < ask then ask else held
  }

  function CopyOf(ask: int, held: nat): int {
    if 0 < ask then Narrow(RecordOf(ask, held)) else 0
  }

  /** The copy is right exactly when a pledge below 2^31 was asked for and held, or nothing is held. */
  lemma CopyIff(ask: int, held: nat)
    ensures CopyOf(ask, held) == RecordOf(ask, held)
            <==> RecordOf(ask, held) == 0 || (0 < ask && RecordOf(ask, held) < PLEDGE_LIMIT)
  {
  }

  lemma TwoSlips(id: string, s0: Snap, e0: Event, s1: Snap, e1: Event, s2: Snap, q: string)
    requires Step(id, s0, e0, s1) && Step(id, s1, e1, s2) && e0.p == e1.p == q
    ensures Trace(id, [s0, s1, s2], [e0, e1])
    ensures Slips(id, [s0, s1, s2], [e0, e1], q) == Slip(id, s0, e0, s1) + Slip(id, s1, e1, s2)
    ensures e0.Join? && e1.TopUp? ==> Owed([e0, e1], q) == e0.owed
  {
    var states, events := [s0, s1, s2], [e0, e1];
    assert states[..2] == [s0, s1] && events[..1] == [e0] && states[..2][..1] == [s0] && events[..1][..0] == [];
    hide Step, Slip;
    assert Slips(id, [s0, s1], [e0], q) == Slip(id, s0, e0, s1);
    assert [e0][..0] == [];
    assert e0.Join? ==> Owed([e0], q) == e0.owed;
  }

  lemma {:induction false} QuietPrefix(id: string, states: seq<Snap>, events: seq<Event>, i: nat)
    requires Trace(id, states, events) && states[0].db.Records() && Small(id, states[0]) && i <= |events|
    requires forall e <- events :: Bounded(e) && Undisturbed(e)
    ensures states[i].db.Records() && Small(id, states[i])
    ensures Settled(id, states[0]) ==> Settled(id, states[i])
  {
    if i > 0 {
      QuietPrefix(id, states, events, i - 1);
      assert events[i - 1] in events && Step(id, states[i - 1], events[i - 1], states[i]);
      StepKeepsSmall(id, states[i - 1], events[i - 1], states[i]);
      if Settled(id, states[0]) {
        SettledStep(id, states[i - 1], events[i - 1], states[i]);
      }
    }
  }
}
