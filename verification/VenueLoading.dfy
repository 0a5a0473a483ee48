/** Loading a venue on demand from any number of threads: a shared map of venues, a set of ids that
    are being loaded, and the steps that each thread takes under the manager's mutex.  The steps of
    all threads interleave freely, and venues may be removed at any time. */
module VenueLoading {
  import opened Options

  /** A venue object; the serial number is its identity. */
  datatype Venue = Venue(serial: nat, gameType: int)

  /** Where a thread is in `loadVenue`. */
  datatype Place =
    | Begin
    | Query
    | Lock(count: nat)
    | Recheck
    | FindLoader
    | Load
    | Distribute(venue: Venue)
    | Publish(venue: Venue)
    | Unlock(result: Option<Venue>)
    | Returned(result: Option<Venue>)
    | Escaped

  datatype Thread = Thread(id: string, gameType: int, at: Place)

  const MAX_WAITS: nat := 199

  /** Between locking the id for loading and unlocking it.  A thread that an exception takes out of there keeps
      the id locked. */
  predicate InSection(p: Place) {
    p.Recheck? || p.FindLoader? || p.Load? || p.Distribute? || p.Publish? || p.Unlock? || p.Escaped?
  }

  /** Where the loader, the handler or its worker can throw. */
  predicate CanThrow(p: Place) {
    p.Load? || p.Distribute? || p.Publish?
  }

  /** The call is over. */
  predicate Over(p: Place) {
    p.Returned? || p.Escaped?
  }

  /** The last three fields record history: who holds each loading id, how often each id was removed,
      and which venue was obtained for which id, and after how many removals. */
  datatype State = State(
    venues: map<string, Venue>,
    loading: set<string>,
    threads: map<int, Thread>,
    nextSerial: nat,
    owner: map<string, int>,
    removals: map<string, nat>,
    obtained: set<(string, nat, Venue)>
  ) {
    function Removals(id: string): nat {
      if id in removals then removals[id] else 0
    }

    function Move(t: int, p: Place): State
      requires t in threads
    {
      this.(threads := threads[t := threads[t].(at := p)])
    }

    function Obtain(id: string, v: Venue): State {
      this.(obtained := obtained + {(id, Removals(id), v)})
    }
  }

  const INITIAL := State(map[], {}, map[], 0, map[], map[], {})

  /** `ok` stands for what the environment answers at this step: the database query, the registered
      loader, the loader's outcome, the handler and its worker.  Exceptions derived from `std::exception` are a
      no; an exception of another kind is a `Throw`. */
  datatype Action =
    | Call(thread: int, id: string, gameType: int)
    | Step(thread: int, ok: bool)
    | Throw(thread: int)
    | Remove(id: string)

  /** Where thread `t` goes next. */
  function Next(s: State, t: int, ok: bool): Place
    requires t in s.threads
  {
    var th := s.threads[t];
    var id := th.id;
    match th.at
    case Begin =>
      if id !in s.venues then Query
      else if s.venues[id].gameType != th.gameType then Returned(None)
      else Returned(Some(s.venues[id]))
    case Query => if ok then Lock(0) else Returned(None)
    case Lock(count) =>
      if id !in s.loading then Recheck else if count > MAX_WAITS then Returned(None) else Lock(count + 1)
    case Recheck => if id in s.venues then Unlock(Some(s.venues[id])) else FindLoader
    case FindLoader => if ok then Load else Unlock(None)
    case Load => if ok then Distribute(Venue(s.nextSerial, th.gameType)) else Unlock(None)
    case Distribute(v) => if ok then Publish(v) else Unlock(None)
    case Publish(v) => if ok then Unlock(Some(v)) else Unlock(None)
    case Unlock(r) => Returned(r)
    case Returned(r) => Returned(r)
    case Escaped => Escaped
  }

  /** What the step of thread `t` does to the shared state. */
  function Effect(s: State, t: int, ok: bool): (s': State)
    requires t in s.threads
    ensures s'.threads == s.threads && s'.removals == s.removals
  {
    var th := s.threads[t];
    var id := th.id;
    match th.at
    case Begin => if id in s.venues && s.venues[id].gameType == th.gameType then s.Obtain(id, s.venues[id]) else s
    case Lock(_) => if id !in s.loading then s.(loading := s.loading + {id}, owner := s.owner[id := t]) else s
    case Recheck => if id in s.venues then s.Obtain(id, s.venues[id]) else s
    case Load => if ok then s.(nextSerial := s.nextSerial + 1) else s
    case Publish(v) => s.(venues := if id in s.venues then s.venues else s.venues[id := v]).Obtain(id, v)
    case Unlock(_) => s.(loading := s.loading - {id}, owner := s.owner - {id})
    case _ => s
  }

  /** One thread takes one step. */
  function Advance(s: State, t: int, ok: bool): State
    requires t in s.threads
  {
    Effect(s, t, ok).Move(t, Next(s, t, ok))
  }

  function Do(s: State, a: Action): State {
    match a
    case Call(t, id, gameType) =>
      if t in s.threads then s else s.(threads := s.threads[t := Thread(id, gameType, Begin)])
    case Step(t, ok) =>
      if t in s.threads then Advance(s, t, ok) else s
    case Throw(t) =>
      if t in s.threads && CanThrow(s.threads[t].at) then Advance(s, t, false).Move(t, Escaped) else s
    case Remove(id) =>
      if id in s.venues then s.(venues := s.venues - {id}, removals := s.removals[id := s.Removals(id) + 1]) else s
  }

  function Run(actions: seq<Action>): State {
    if actions == [] then INITIAL else Do(Run(actions[..|actions| - 1]), actions[|actions| - 1])
  }

  // ----- the invariant -----

  ghost predicate OwnerIsIn(s: State, id: string)
    requires id in s.owner
  {
    var t := s.owner[id];
    t in s.threads && s.threads[t].id == id && InSection(s.threads[t].at)
  }

  /** The ids being loaded are those that some thread has locked, each by one thread. */
  ghost predicate Locked(s: State) {
    && s.loading == s.owner.Keys
    && (forall id <- s.owner :: OwnerIsIn(s, id))
    && (forall t <- s.threads ::
          InSection(s.threads[t].at) ==> s.threads[t].id in s.owner && s.owner[s.threads[t].id] == t)
  }

  predicate BeforePublish(p: Place) {
    p.FindLoader? || p.Load? || p.Distribute? || p.Publish?
  }

  /** While a thread is about to publish a venue, no other is there. */
  ghost predicate Unpublished(s: State) {
    forall t <- s.threads :: BeforePublish(s.threads[t].at) ==> s.threads[t].id !in s.venues
  }

  /** What was obtained since the last removal is what the map holds. */
  ghost predicate Recorded(s: State) {
    && (forall id, n, v :: (id, n, v) in s.obtained ==> n <= s.Removals(id))
    && (forall id, v :: (id, s.Removals(id), v) in s.obtained ==> id in s.venues && s.venues[id] == v)
    && (forall id, n, v, w :: (id, n, v) in s.obtained && (id, n, w) in s.obtained ==> v == w)
  }

  ghost predicate HasObtained(s: State, id: string, v: Venue) {
    exists n :: (id, n, v) in s.obtained
  }

  ghost predicate Holds(s: State, th: Thread) {
    && (th.at.Unlock? && th.at.result.Some? ==> HasObtained(s, th.id, th.at.result.value))
    && (th.at.Returned? && th.at.result.Some? ==> HasObtained(s, th.id, th.at.result.value))
  }

  /** Every result was obtained at some point. */
  ghost predicate Justified(s: State) {
    forall t <- s.threads :: Holds(s, s.threads[t])
  }

  ghost predicate Inv(s: State) {
    Locked(s) && Unpublished(s) && Recorded(s) && Justified(s)
  }

  /** `s'` is `s` with thread `t` moved, and nothing else that locking depends on. */
  ghost predicate Moved(s: State, s': State, t: int) {
    && t in s.threads && s'.threads.Keys == s.threads.Keys
    && (forall u <- s.threads :: u != t ==> s'.threads[u] == s.threads[u])
    && s'.threads[t].id == s.threads[t].id
  }

  lemma AdvanceMoves(s: State, t: int, ok: bool)
    requires t in s.threads
    ensures Moved(s, Advance(s, t, ok), t)
    ensures Advance(s, t, ok).threads[t].at == Next(s, t, ok)
    ensures s.obtained <= Advance(s, t, ok).obtained
  {
    hide Next;
  }

  lemma MoveInside(s: State, s': State, t: int)
    requires Locked(s) && Moved(s, s', t) && s'.loading == s.loading && s'.owner == s.owner
    requires InSection(s'.threads[t].at) == InSection(s.threads[t].at)
    ensures Locked(s')
  {
    hide InSection;
    forall id <- s'.owner ensures OwnerIsIn(s', id) {
      assert OwnerIsIn(s, id);
    }
  }

  lemma MoveIn(s: State, s': State, t: int)
    requires Locked(s) && Moved(s, s', t) && s.threads[t].id !in s.loading
    requires s'.loading == s.loading + {s.threads[t].id} && s'.owner == s.owner[s.threads[t].id := t]
    requires InSection(s'.threads[t].at) && !InSection(s.threads[t].at)
    ensures Locked(s')
  {
    hide InSection;
    forall id <- s'.owner ensures OwnerIsIn(s', id) {
      if id != s.threads[t].id {
        assert OwnerIsIn(s, id);
      }
    }
  }

  lemma MoveOut(s: State, s': State, t: int)
    requires Locked(s) && Moved(s, s', t)
    requires s'.loading == s.loading - {s.threads[t].id} && s'.owner == s.owner - {s.threads[t].id}
    requires InSection(s.threads[t].at) && !InSection(s'.threads[t].at)
    ensures Locked(s')
  {
    hide InSection;
    forall id <- s'.owner ensures OwnerIsIn(s', id) {
      assert OwnerIsIn(s, id);
    }
  }

  lemma AdvanceLocked(s: State, t: int, ok: bool)
    requires Locked(s) && t in s.threads
    ensures Locked(Advance(s, t, ok))
  {
    hide Locked;
    AdvanceMoves(s, t, ok);
    var s' := Advance(s, t, ok);
    var th := s.threads[t];
    if th.at.Lock? && th.id !in s.loading {
      MoveIn(s, s', t);
    } else if th.at.Unlock? {
      MoveOut(s, s', t);
    } else {
      MoveInside(s, s', t);
    }
  }

  /** Only the thread that holds an id can publish a venue for it. */
  lemma AdvanceUnpublished(s: State, t: int, ok: bool)
    requires Locked(s) && Unpublished(s) && t in s.threads
    ensures Unpublished(Advance(s, t, ok))
  {
    AdvanceMoves(s, t, ok);
    var s' := Advance(s, t, ok);
    forall u <- s'.threads | BeforePublish(s'.threads[u].at) ensures s'.threads[u].id !in s'.venues {
      if u != t && s.threads[t].at.Publish? {
        assert s.owner[s.threads[t].id] == t && s.owner[s.threads[u].id] == u;
        assert s.threads[u].id != s.threads[t].id;
      }
    }
  }

  ghost predicate Quiet(s: State, s': State) {
    s'.venues == s.venues && s'.removals == s.removals && s'.obtained == s.obtained
  }

  lemma QuietRecorded(s: State, s': State)
    requires Recorded(s) && Quiet(s, s')
    ensures Recorded(s')
  {
    forall id ensures s'.Removals(id) == s.Removals(id) {
    }
  }

  /** Obtaining what the map holds, or has just been given where it held nothing, is recorded correctly. */
  lemma ObtainRecorded(s: State, s': State, id: string, v: Venue)
    requires Recorded(s) && s'.removals == s.removals
    requires s'.obtained == s.obtained + {(id, s.Removals(id), v)}
    requires id in s'.venues && s'.venues[id] == v
    requires forall k <- s.venues :: k in s'.venues && s'.venues[k] == s.venues[k]
    ensures Recorded(s')
  {
    forall k ensures s'.Removals(k) == s.Removals(k) {
    }
  }

  lemma AdvanceRecorded(s: State, t: int, ok: bool)
    requires Unpublished(s) && Recorded(s) && t in s.threads
    ensures Recorded(Advance(s, t, ok))
  {
    hide Recorded;
    var s' := Advance(s, t, ok);
    var th := s.threads[t];
    if th.at.Publish? {
      ObtainRecorded(s, s', th.id, th.at.venue);
    } else if th.id in s.venues && (th.at.Recheck? || (th.at.Begin? && s.venues[th.id].gameType == th.gameType)) {
      ObtainRecorded(s, s', th.id, s.venues[th.id]);
    } else {
      QuietRecorded(s, s');
    }
  }

  lemma HoldsMore(s: State, s': State, th: Thread)
    requires Holds(s, th) && s.obtained <= s'.obtained
    ensures Holds(s', th)
  {
    forall v | HasObtained(s, th.id, v) ensures HasObtained(s', th.id, v) {
      var n :| (th.id, n, v) in s.obtained;
      assert (th.id, n, v) in s'.obtained;
    }
  }

  lemma AdvanceJustified(s: State, t: int, ok: bool)
    requires Justified(s) && t in s.threads
    ensures Justified(Advance(s, t, ok))
  {
    AdvanceMoves(s, t, ok);
    var s' := Advance(s, t, ok);
    forall u <- s'.threads ensures Holds(s', s'.threads[u]) {
      if u != t {
        HoldsMore(s, s', s.threads[u]);
      } else {
        NewResult(s, t, ok);
      }
    }
  }

  lemma NewResult(s: State, t: int, ok: bool)
    requires t in s.threads && Holds(s, s.threads[t])
    ensures Holds(Advance(s, t, ok), Advance(s, t, ok).threads[t])
  {
    var s' := Advance(s, t, ok);
    var th := s.threads[t];
    AdvanceMoves(s, t, ok);
    HoldsMore(s, s', th);
    var v := if th.at.Publish? then th.at.venue else if th.id in s.venues then s.venues[th.id] else Venue(0, 0);
    if (th.id, s.Removals(th.id), v) in s'.obtained {
      assert HasObtained(s', th.id, v);
    }
  }

  lemma AdvanceKeepsInv(s: State, t: int, ok: bool)
    requires Inv(s) && t in s.threads
    ensures Inv(Advance(s, t, ok))
  {
    hide Locked, Unpublished, Recorded, Justified;
    AdvanceLocked(s, t, ok);
    AdvanceUnpublished(s, t, ok);
    AdvanceRecorded(s, t, ok);
    AdvanceJustified(s, t, ok);
  }

  /** Leaving the section by an exception changes nothing that others see. */
  lemma EscapeKeepsInv(s: State, t: int)
    requires Inv(s) && t in s.threads && s.threads[t].at.Unlock?
    ensures Inv(s.Move(t, Escaped))
  {
    var s' := s.Move(t, Escaped);
    MoveInside(s, s', t);
    QuietRecorded(s, s');
    forall u <- s'.threads ensures Holds(s', s'.threads[u]) {
      HoldsMore(s, s', s.threads[u]);
    }
  }

  lemma DoKeepsInv(s: State, a: Action)
    requires Inv(s)
    ensures Inv(Do(s, a))
  {
    match a
    case Call(t, id, gameType) =>
      var s' := Do(s, a);
      forall u <- s'.threads ensures Holds(s', s'.threads[u]) {
        if u in s.threads { assert Holds(s, s.threads[u]); }
      }
    case Step(t, ok) =>
      if t in s.threads {
        AdvanceKeepsInv(s, t, ok);
      }
    case Throw(t) =>
      if t in s.threads && CanThrow(s.threads[t].at) {
        AdvanceKeepsInv(s, t, false);
        EscapeKeepsInv(Advance(s, t, false), t);
      }
    case Remove(id) =>
      var s' := Do(s, a);
      forall u <- s'.threads ensures Holds(s', s'.threads[u]) {
        assert Holds(s, s.threads[u]);
      }
  }

  lemma {:induction false} RunKeepsInv(actions: seq<Action>)
    ensures Inv(Run(actions))
  {
    if actions != [] {
      RunKeepsInv(actions[..|actions| - 1]);
      DoKeepsInv(Run(actions[..|actions| - 1]), actions[|actions| - 1]);
    }
  }

  // ----- what follows for every run -----

  ghost predicate Loads(s: State, t: int, id: string) {
    t in s.threads && s.threads[t].id == id && InSection(s.threads[t].at)
  }

  /** An id is locked exactly while one thread is in its load section, or has left it by an exception; and never
      by two. */
  lemma LoadingIsExclusive(actions: seq<Action>, id: string)
    ensures id in Run(actions).loading <==> exists t :: Loads(Run(actions), t, id)
    ensures forall t, u :: Loads(Run(actions), t, id) && Loads(Run(actions), u, id) ==> t == u
  {
    RunKeepsInv(actions);
    var s := Run(actions);
    hide Run;
    if id in s.loading {
      assert OwnerIsIn(s, id);
      assert Loads(s, s.owner[id], id);
    }
  }

  ghost predicate Escapes(s: State, t: int, id: string) {
    t in s.threads && s.threads[t].id == id && s.threads[t].at.Escaped?
  }

  /** Once every call is over, exactly the ids of calls that ended in an exception are still locked. */
  lemma EveryExitReleases(actions: seq<Action>, id: string)
    requires forall t <- Run(actions).threads :: Over(Run(actions).threads[t].at)
    ensures id in Run(actions).loading <==> exists t :: Escapes(Run(actions), t, id)
  {
    LoadingIsExclusive(actions, id);
    var s := Run(actions);
    hide Run;
    if t :| Escapes(s, t, id) {
      assert Loads(s, t, id);
    }
    if t :| Loads(s, t, id) {
      assert Escapes(s, t, id);
    }
  }

  lemma EscapeLocks(s: State, t: int, id: string)
    requires Inv(s) && Escapes(s, t, id)
    ensures id in s.loading
  {
  }

  lemma EscapeStays(s: State, a: Action, t: int, id: string)
    requires Inv(s) && Escapes(s, t, id) && id !in s.venues
    ensures Escapes(Do(s, a), t, id) && id !in Do(s, a).venues
    ensures forall n, v :: (id, n, v) in Do(s, a).obtained ==> (id, n, v) in s.obtained
  {
    if (a.Step? || a.Throw?) && a.thread in s.threads && s.threads[a.thread].id == id {
      var u := a.thread;
      assert s.owner[id] == t;
      assert s.threads[u].at.Publish? ==> u == t;
    }
  }

  /** An exception locks the id for good: whatever is called later, no venue with that id is ever there again, and
      nobody obtains one. */
  lemma {:induction false} EscapeBlocks(actions: seq<Action>, more: seq<Action>, t: int, id: string)
    requires Escapes(Run(actions), t, id) && id !in Run(actions).venues
    ensures id in Run(actions + more).loading && id !in Run(actions + more).venues
    ensures Escapes(Run(actions + more), t, id)
    ensures forall n, v :: (id, n, v) in Run(actions + more).obtained ==> (id, n, v) in Run(actions).obtained
    decreases |more|
  {
    hide Run, Do, Inv, Escapes;
    if more == [] {
      assert actions + more == actions;
    } else {
      var n := |more| - 1;
      EscapeBlocks(actions, more[..n], t, id);
      RunKeepsInv(actions + more[..n]);
      RunAppend(actions, more);
      EscapeStays(Run(actions + more[..n]), more[n], t, id);
    }
    RunKeepsInv(actions + more);
    EscapeLocks(Run(actions + more), t, id);
  }

  /** Two venues obtained for the same id after the same number of removals are the same object. */
  lemma SameVenueBetweenRemovals(actions: seq<Action>, id: string, n: nat, v: Venue, w: Venue)
    requires (id, n, v) in Run(actions).obtained && (id, n, w) in Run(actions).obtained
    ensures v == w
  {
    RunKeepsInv(actions);
  }

  ghost predicate Returns(s: State, t: int, id: string, v: Venue) {
    t in s.threads && s.threads[t].id == id && s.threads[t].at == Returned(Some(v))
  }

  lemma ReturnedWasObtained(s: State, t: int, id: string, v: Venue)
    requires Inv(s) && Returns(s, t, id, v)
    ensures exists n :: n <= s.Removals(id) && (id, n, v) in s.obtained
  {
    assert Holds(s, s.threads[t]);
    var n :| (id, n, v) in s.obtained;
  }

  /** Until the first removal, all threads that return a venue for an id return the same object. */
  lemma ReturnsAgreeUntilRemoval(actions: seq<Action>, t: int, u: int, id: string, v: Venue, w: Venue)
    requires Returns(Run(actions), t, id, v) && Returns(Run(actions), u, id, w)
    requires Run(actions).Removals(id) == 0
    ensures v == w
  {
    RunKeepsInv(actions);
    var s := Run(actions);
    hide Run;
    ReturnedWasObtained(s, t, id, v);
    ReturnedWasObtained(s, u, id, w);
    assert (id, 0, v) in s.obtained && (id, 0, w) in s.obtained;
  }

  // ----- what a call returns -----

  /** In every run: a call for a venue that is loaded returns it at once if the game types agree, and nothing
      otherwise, and changes nothing that others see. */
  lemma LoadedIsReturned(actions: seq<Action>, t: int, ok: bool)
    requires var s := Run(actions);
             t in s.threads && s.threads[t].at.Begin? && s.threads[t].id in s.venues
    ensures var s, s' := Run(actions), Run(actions + [Step(t, ok)]);
            var th := s.threads[t];
            var v := s.venues[th.id];
            && t in s'.threads
            && s'.threads[t].at == Returned(if v.gameType == th.gameType then Some(v) else None)
            && s'.venues == s.venues && s'.loading == s.loading
  {
    RunAppend(actions, [Step(t, ok)]);
    assert actions + [Step(t, ok)][..0] == actions;
    hide Run;
  }

  /** In every run: a call that finds the venue once it has locked the id releases the id with its second step from
      there, and returns the venue that it found, whatever others do in between. */
  lemma RecheckReturns(actions: seq<Action>, t: int, ok: bool, more: seq<Action>, ok': bool)
    requires var s := Run(actions);
             t in s.threads && s.threads[t].at.Recheck? && s.threads[t].id in s.venues
    requires OwnSteps(more, t) == 0
    ensures var s, s' := Run(actions), Run(actions + [Step(t, ok)] + more + [Step(t, ok')]);
            var id := s.threads[t].id;
            t in s'.threads && s'.threads[t].at == Returned(Some(s.venues[id])) && id !in s'.loading
  {
    var first, second := actions + [Step(t, ok)], [Step(t, ok')];
    RunAppend(actions, [Step(t, ok)]);
    assert actions + [Step(t, ok)][..0] == actions;
    hide Run;
    var v := Run(actions).venues[Run(actions).threads[t].id];
    assert Run(first) == Advance(Run(actions), t, ok);
    UnlockStays(first, more, t);
    RunAppend(first + more, second);
    assert first + more + second[..0] == first + more;
    assert Run(first + more + second) == Advance(Run(first + more), t, ok');
  }

  /** A call waits with its lock until it takes a step itself. */
  lemma {:induction false} UnlockStays(actions: seq<Action>, more: seq<Action>, t: int)
    requires t in Run(actions).threads && Run(actions).threads[t].at.Unlock? && OwnSteps(more, t) == 0
    ensures t in Run(actions + more).threads && Run(actions + more).threads[t] == Run(actions).threads[t]
    decreases |more|
  {
    hide Run;
    if more == [] {
      assert actions + more == actions;
    } else {
      UnlockStays(actions, more[..|more| - 1], t);
      RunAppend(actions, more);
    }
  }

  /** The steps that make a call return nothing: the venue is loaded with another game type; the environment says
      no; or the id is still locked after 200 waits. */
  predicate Fails(s: State, t: int, ok: bool) {
    && t in s.threads
    && var th := s.threads[t];
       match th.at
       case Begin => th.id in s.venues && s.venues[th.id].gameType != th.gameType
       case Query => !ok
       case Lock(count) => th.id in s.loading && count >= 200
       case FindLoader => !ok
       case Load => !ok
       case Distribute(_) => !ok
       case Publish(_) => !ok
       case _ => false
  }

  /** The call returns nothing, or is about to. */
  predicate Denied(s: State, t: int) {
    t in s.threads && (s.threads[t].at == Unlock(None) || s.threads[t].at == Returned(None))
  }

  lemma DeniedStep(s: State, a: Action, t: int)
    ensures Denied(Do(s, a), t) <==> Denied(s, t) || (a.Step? && a.thread == t && Fails(s, t, a.ok))
  {
  }

  ghost predicate FailsAt(actions: seq<Action>, t: int, i: nat)
    requires i < |actions|
  {
    actions[i].Step? && actions[i].thread == t && Fails(Run(actions[..i]), t, actions[i].ok)
  }

  /** In every run a call returns nothing if and only if one of its own steps failed; every other call that ends
      without an exception returns a venue. */
  lemma {:induction false} DeniedIff(actions: seq<Action>, t: int)
    ensures Denied(Run(actions), t) <==> exists i: nat :: i < |actions| && FailsAt(actions, t, i)
    decreases |actions|
  {
    if actions != [] {
      var n := |actions| - 1;
      DeniedIff(actions[..n], t);
      RunLast(actions);
      hide Run, Do, Fails, Denied;
      DeniedStep(Run(actions[..n]), actions[n], t);
      assert forall i: nat :: i < n ==> actions[..n][..i] == actions[..i];
      assert forall i: nat :: i < n ==> (FailsAt(actions[..n], t, i) <==> FailsAt(actions, t, i));
      assert FailsAt(actions, t, n) <==> actions[n].Step? && actions[n].thread == t
                                         && Fails(Run(actions[..n]), t, actions[n].ok);
    }
  }

  /** A venue comes into the map only as the one that a call publishes for its id, and goes only by removal. */
  lemma VenuesChange(s: State, a: Action, id: string)
    ensures id in Do(s, a).venues && (id in s.venues ==> Do(s, a).venues[id] != s.venues[id]) ==>
              && (a.Step? || a.Throw?) && a.thread in s.threads && s.threads[a.thread].id == id
              && s.threads[a.thread].at == Publish(Do(s, a).venues[id]) && id !in s.venues
    ensures id in s.venues && id !in Do(s, a).venues <==> id in s.venues && a == Remove(id)
  {
  }

  // ----- progress -----

  /** How many steps of its own a thread has left at most. */
  function StepsLeft(p: Place): nat {
    match p
    case Begin => MAX_WAITS + 11
    case Query => MAX_WAITS + 10
    case Lock(count) => 8 + if count <= MAX_WAITS then MAX_WAITS + 1 - count else 0
    case Recheck => 7
    case FindLoader => 6
    case Load => 5
    case Distribute(_) => 4
    case Publish(_) => 3
    case Unlock(_) => 2
    case Returned(_) => 0
    case Escaped => 0
  }

  lemma StepGetsCloser(s: State, t: int, ok: bool)
    requires t in s.threads && !Over(s.threads[t].at)
    ensures StepsLeft(Advance(s, t, ok).threads[t].at) < StepsLeft(s.threads[t].at)
  {
  }

  /** How many of the actions are steps of thread `t`. */
  function OwnSteps(actions: seq<Action>, t: int): nat {
    if actions == [] then 0
    else
      var last := actions[|actions| - 1];
      OwnSteps(actions[..|actions| - 1], t) + if last.Step? && last.thread == t then 1 else 0
  }

  /** Actions of others do not move a thread, and its own steps bring it closer. */
  lemma DoGetsCloser(s: State, a: Action, t: int)
    requires t in s.threads
    ensures t in Do(s, a).threads
    ensures StepsLeft(Do(s, a).threads[t].at) <= StepsLeft(s.threads[t].at)
    ensures a.Step? && a.thread == t && !Over(s.threads[t].at) ==>
              StepsLeft(Do(s, a).threads[t].at) < StepsLeft(s.threads[t].at)
  {
    if a.Step? && a.thread == t && !Over(s.threads[t].at) {
      StepGetsCloser(s, t, a.ok);
    }
  }

  lemma {:induction false} RunGetsCloser(actions: seq<Action>, more: seq<Action>, t: int)
    requires t in Run(actions).threads
    ensures t in Run(actions + more).threads
    ensures var at := Run(actions + more).threads[t].at;
            Over(at) || StepsLeft(at) + OwnSteps(more, t) <= StepsLeft(Run(actions).threads[t].at)
    decreases |more|
  {
    if more == [] {
      assert actions + more == actions;
    } else {
      var n := |more| - 1;
      RunGetsCloser(actions, more[..n], t);
      RunAppend(actions, more);
      hide Run, Do, StepsLeft, Over;
      DoGetsCloser(Run(actions + more[..n]), more[n], t);
      OverStays(Run(actions + more[..n]), more[n], t);
    }
  }

  lemma RunAppend(actions: seq<Action>, more: seq<Action>)
    requires more != []
    ensures Run(actions + more) == Do(Run(actions + more[..|more| - 1]), more[|more| - 1])
  {
    hide Run, Do;
    var all := actions + more;
    RunLast(all);
    assert all[..|all| - 1] == actions + more[..|more| - 1];
  }

  lemma RunLast(actions: seq<Action>)
    requires actions != []
    ensures Run(actions) == Do(Run(actions[..|actions| - 1]), actions[|actions| - 1])
  {
    hide Do;
  }

  lemma OverStays(s: State, a: Action, t: int)
    requires t in s.threads
    ensures t in Do(s, a).threads && (Over(s.threads[t].at) ==> Do(s, a).threads[t].at == s.threads[t].at)
  {
  }

  /** In every run, whatever the others do in between, a call is over after 210 steps of its own. */
  lemma EveryCallEnds(actions: seq<Action>, more: seq<Action>, t: int)
    requires t in Run(actions).threads && OwnSteps(more, t) >= 210
    ensures t in Run(actions + more).threads && Over(Run(actions + more).threads[t].at)
  {
    hide Run, OwnSteps;
    RunGetsCloser(actions, more, t);
  }

  /** Thread `t` takes `n` steps alone, and its environment answers yes. */
  function Alone(s: State, t: int, n: nat): State
    requires t in s.threads
    decreases n
  {
    if n == 0 then s else Alone(Advance(s, t, true), t, n - 1)
  }

  lemma OneStep(s: State, t: int, p: Place, n: nat)
    requires t in s.threads && Next(s, t, true) == p
    ensures Alone(s, t, n + 1) == Alone(Effect(s, t, true).Move(t, p), t, n)
  {
  }

  /** A call that nobody disturbs and whose queries succeed loads a venue of the right type, publishes it,
      returns it and releases the id. */
  lemma LoneCallLoads(s: State, t: int)
    requires t in s.threads && s.threads[t].at.Begin?
    requires s.threads[t].id !in s.venues && s.threads[t].id !in s.loading
    ensures var th, s' := s.threads[t], Alone(s, t, 9);
            var v := Venue(s.nextSerial, th.gameType);
            && t in s'.threads && s'.threads[t].at == Returned(Some(v))
            && s'.venues == s.venues[th.id := v] && s'.loading == s.loading
  {
    hide Alone;
    var id, v := s.threads[t].id, Venue(s.nextSerial, s.threads[t].gameType);
    OneStep(s, t, Query, 8);
    var s1 := Effect(s, t, true).Move(t, Query);
    OneStep(s1, t, Lock(0), 7);
    var s2 := Effect(s1, t, true).Move(t, Lock(0));
    OneStep(s2, t, Recheck, 6);
    var s3 := Effect(s2, t, true).Move(t, Recheck);
    LoneLoad(s3, t);
    assert s3.loading == s.loading + {id} && s3.venues == s.venues && s3.nextSerial == s.nextSerial;
    assert s.loading + {id} - {id} == s.loading;
  }

  lemma LoneLoad(s: State, t: int)
    requires t in s.threads && s.threads[t].at.Recheck? && s.threads[t].id !in s.venues
    ensures var th, s' := s.threads[t], Alone(s, t, 6);
            var v := Venue(s.nextSerial, th.gameType);
            && t in s'.threads && s'.threads[t].at == Returned(Some(v))
            && s'.venues == s.venues[th.id := v] && s'.loading == s.loading - {th.id}
  {
    hide Alone;
    var v := Venue(s.nextSerial, s.threads[t].gameType);
    OneStep(s, t, FindLoader, 5);
    var s1 := Effect(s, t, true).Move(t, FindLoader);
    OneStep(s1, t, Load, 4);
    var s2 := Effect(s1, t, true).Move(t, Load);
    OneStep(s2, t, Distribute(v), 3);
    LonePublish(Effect(s2, t, true).Move(t, Distribute(v)), t, v);
  }

  lemma LonePublish(s: State, t: int, v: Venue)
    requires t in s.threads && s.threads[t].at == Distribute(v) && s.threads[t].id !in s.venues
    ensures var id, s' := s.threads[t].id, Alone(s, t, 3);
            && t in s'.threads && s'.threads[t].at == Returned(Some(v))
            && s'.venues == s.venues[id := v] && s'.loading == s.loading - {id}
  {
    hide Alone;
    OneStep(s, t, Publish(v), 2);
    var s1 := Effect(s, t, true).Move(t, Publish(v));
    OneStep(s1, t, Unlock(Some(v)), 1);
    var s2 := Effect(s1, t, true).Move(t, Unlock(Some(v)));
    OneStep(s2, t, Returned(Some(v)), 0);
    NoStep(Effect(s2, t, true).Move(t, Returned(Some(v))), t);
  }

  /** A call alone with an id that stays locked looks 201 times and then gives up. */
  lemma LoneCallWaits(s: State, t: int, n: nat)
    requires t in s.threads && s.threads[t].at == Lock(0) && s.threads[t].id in s.loading && n <= 201
    ensures var s' := Alone(s, t, n);
            && t in s'.threads && s'.loading == s.loading && s'.venues == s.venues
            && s'.threads[t].at == if n <= 200 then Lock(n) else Returned(None)
  {
    LoneWaits(s, t, n);
  }

  lemma {:induction false} LoneWaits(s: State, t: int, n: nat)
    requires t in s.threads && s.threads[t].at.Lock? && s.threads[t].id in s.loading
    requires s.threads[t].at.count + n <= 201 && s.threads[t].at.count <= 200
    ensures var s', count := Alone(s, t, n), s.threads[t].at.count;
            && t in s'.threads && s'.loading == s.loading && s'.venues == s.venues
            && s'.threads[t].at == if count + n <= 200 then Lock(count + n) else Returned(None)
    decreases n
  {
    if n > 0 {
      var s1 := Advance(s, t, true);
      if s.threads[t].at.count < 200 {
        LoneWaits(s1, t, n - 1);
      }
    }
  }

  lemma NoStep(s: State, t: int)
    requires t in s.threads
    ensures Alone(s, t, 0) == s
  {
  }
}
