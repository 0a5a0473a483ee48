/** The replay filter of a player: nonces are remembered for 60 seconds. */
module Nonce {

  const WINDOW: int := 60

  datatype Call = Call(nonce: string, time: int, accepted: bool)

  type Entry = (string, int)

  /** The clock never ran backwards from one call to the next. */
  ghost predicate Ordered(calls: seq<Call>) {
    forall i, j :: 0 <= i < j < |calls| ==> calls[i].time <= calls[j].time
  }

  /** An earlier accepted call used `nonce` and is not more than 60 seconds old. */
  ghost predicate Replayed(calls: seq<Call>, nonce: string, time: int) {
    exists c :: c in calls && c.accepted && c.nonce == nonce && time - c.time <= 60
  }

  /** Call `j` makes the player forget call `i`: it is more than 60 seconds later, and with it or before it all
      earlier accepted calls are forgotten too. */
  ghost predicate Drops(calls: seq<Call>, i: nat, j: nat)
    requires i < j < |calls|
    decreases i, 0
  {
    && calls[j].time - calls[i].time > 60
    && forall m: nat :: m < i && calls[m].accepted ==> Forgotten(calls, m, j + 1)
  }

  /** The first `n` calls make the player forget call `i`. */
  ghost predicate Forgotten(calls: seq<Call>, i: nat, n: nat)
    requires n <= |calls|
    decreases i, 1
  {
    exists j: nat :: i < j < n && Drops(calls, i, j)
  }

  lemma {:induction false} ForgottenBefore(calls: seq<Call>, c: Call, i: nat, n: nat)
    requires n <= |calls|
    ensures Forgotten(calls + [c], i, n) <==> Forgotten(calls, i, n)
    decreases i
  {
    var all := calls + [c];
    forall j: nat | i < j < n ensures Drops(all, i, j) <==> Drops(calls, i, j) {
      assert all[j] == calls[j] && all[i] == calls[i];
      forall m: nat | m < i && calls[m].accepted ensures Forgotten(all, m, j + 1) <==> Forgotten(calls, m, j + 1) {
        ForgottenBefore(calls, c, m, j + 1);
      }
      assert forall m: nat :: m < i ==> all[m] == calls[m];
    }
  }

  /** While the clock does not run backwards, exactly the calls more than 60 seconds before the last one are
      forgotten. */
  lemma {:induction false} OrderedForgotten(calls: seq<Call>, i: nat)
    requires Ordered(calls) && i < |calls|
    ensures Forgotten(calls, i, |calls|) <==> calls[|calls| - 1].time - calls[i].time > 60
    decreases i
  {
    var last := |calls| - 1;
    if calls[last].time - calls[i].time > 60 {
      forall m: nat | m < i && calls[m].accepted ensures Forgotten(calls, m, last + 1) {
        OrderedForgotten(calls, m);
      }
      assert Drops(calls, i, last);
    }
  }

  ghost function Names(s: seq<Entry>): set<string> {
    set e | e in s :: e.0
  }

  ghost predicate Distinct(s: seq<Entry>) {
    forall i, j :: 0 <= i < j < |s| ==> s[i].0 != s[j].0
  }

  lemma NamesDrop(s: seq<Entry>)
    requires s != [] && Distinct(s)
    ensures Names(s[1..]) == Names(s) - {s[0].0} && Distinct(s[1..])
  {
    forall e <- s[1..] ensures e.0 != s[0].0 && e in s {
      var i :| 0 <= i < |s[1..]| && s[1..][i] == e;
      assert s[i + 1] == e;
    }
    forall e <- s | e.0 != s[0].0 ensures e in s[1..] {
      var i :| 0 <= i < |s| && s[i] == e;
      assert s[1..][i - 1] == e;
    }
  }

  lemma NamesAppend(s: seq<Entry>, e: Entry)
    requires Distinct(s) && e.0 !in Names(s)
    ensures Names(s + [e]) == Names(s) + {e.0} && Distinct(s + [e])
  {
    assert forall i :: 0 <= i < |s| ==> s[i] in s;
    forall f <- s ensures f in s + [e] {
    }
    assert e in s + [e];
  }

  /** The first `k` entries, and no more, go: they are more than 60 seconds older than `time`, and the next is not. */
  ghost predicate Purged(s: seq<Entry>, k: int, time: int) {
    && 0 <= k <= |s|
    && (forall i :: 0 <= i < k ==> time - s[i].1 > WINDOW)
    && (k < |s| ==> time - s[k].1 <= WINDOW)
  }

  /** `s` has an entry for each of the accepted calls `ids`, in order. */
  ghost predicate Lists(calls: seq<Call>, s: seq<Entry>, ids: seq<nat>) {
    && |s| == |ids|
    && (forall p, q :: 0 <= p < q < |ids| ==> ids[p] < ids[q])
    && (forall p :: 0 <= p < |ids| ==>
          ids[p] < |calls| && calls[ids[p]].accepted && s[p] == (calls[ids[p]].nonce, calls[ids[p]].time))
  }

  lemma ListsDrop(calls: seq<Call>, s: seq<Entry>, ids: seq<nat>, k: nat)
    requires Lists(calls, s, ids) && k <= |s|
    ensures Lists(calls, s[k..], ids[k..])
  {
  }

  lemma ListsMore(calls: seq<Call>, s: seq<Entry>, ids: seq<nat>, c: Call)
    requires Lists(calls, s, ids)
    ensures Lists(calls + [c], s, ids)
    ensures c.accepted ==> Lists(calls + [c], s + [(c.nonce, c.time)], ids + [|calls|])
  {
  }

  /** The listed calls are the accepted calls that are not forgotten. */
  ghost predicate Remembers(calls: seq<Call>, s: seq<Entry>, ids: seq<nat>) {
    && Lists(calls, s, ids)
    && (forall i: nat :: i < |calls| && calls[i].accepted ==> (i in ids <==> !Forgotten(calls, i, |calls|)))
  }

  /** A call makes the player forget exactly the entries that purging takes off the front. */
  lemma {:induction false} PurgeForgets(calls: seq<Call>, s: seq<Entry>, ids: seq<nat>, k: int, c: Call, i: nat)
    requires Remembers(calls, s, ids) && Purged(s, k, c.time) && i < |calls| && calls[i].accepted
    ensures Forgotten(calls + [c], i, |calls| + 1) <==> i !in ids[k..]
    decreases i
  {
    var n, all := |calls|, calls + [c];
    hide Forgotten, Drops;
    forall m: nat | m < i && calls[m].accepted ensures Forgotten(all, m, n + 1) <==> m !in ids[k..] {
      PurgeForgets(calls, s, ids, k, c, m);
    }
    ForgottenBefore(calls, c, i, n);
    ForgottenByLast(all, i);
    DropsMeans(all, i, n);
    assert forall m: nat :: m <= i ==> all[m] == calls[m];
    if i in ids {
      var p :| 0 <= p < |ids| && ids[p] == i;
      if p < k {
        assert forall q :: k <= q < |ids| ==> ids[q] > i;
      } else {
        assert ids[k..][p - k] == i;
        if p > k {
          assert ids[k..][0] == ids[k] < i;
        }
      }
    }
  }

  /** The last call forgets what it drops, and what was forgotten before. */
  lemma ForgottenByLast(calls: seq<Call>, i: nat)
    requires i + 1 < |calls|
    ensures Forgotten(calls, i, |calls|) <==> Forgotten(calls, i, |calls| - 1) || Drops(calls, i, |calls| - 1)
  {
  }

  lemma DropsMeans(calls: seq<Call>, i: nat, j: nat)
    requires i < j < |calls|
    ensures Drops(calls, i, j) <==> && calls[j].time - calls[i].time > WINDOW
                                    && forall m: nat :: m < i && calls[m].accepted ==> Forgotten(calls, m, j + 1)
  {
  }

  /** What is remembered after a call. */
  lemma RemembersMore(calls: seq<Call>, s: seq<Entry>, ids: seq<nat>, k: int, c: Call)
    requires Remembers(calls, s, ids) && Purged(s, k, c.time)
    ensures if c.accepted then Remembers(calls + [c], s[k..] + [(c.nonce, c.time)], ids[k..] + [|calls|])
            else Remembers(calls + [c], s[k..], ids[k..])
  {
    var all := calls + [c];
    var ids' := if c.accepted then ids[k..] + [|calls|] else ids[k..];
    ListsDrop(calls, s, ids, k);
    ListsMore(calls, s[k..], ids[k..], c);
    hide Forgotten, Drops, Lists;
    forall i: nat | i < |all| && all[i].accepted ensures i in ids' <==> !Forgotten(all, i, |all|) {
      if i < |calls| {
        assert all[i] == calls[i];
        PurgeForgets(calls, s, ids, k, c, i);
        assert i in ids' <==> i in ids[k..];
      } else {
        NotYetForgotten(all, i);
        assert ids'[|ids'| - 1] == i;
      }
    }
  }

  lemma NotYetForgotten(calls: seq<Call>, i: nat)
    requires i + 1 == |calls|
    ensures !Forgotten(calls, i, |calls|)
  {
  }

  /** Looking for a nonce among the entries that are left tells whether all its uses are forgotten. */
  lemma Judged(calls: seq<Call>, s: seq<Entry>, ids: seq<nat>, k: int, c: Call)
    requires Remembers(calls, s, ids) && Purged(s, k, c.time)
    ensures c.nonce !in Names(s[k..]) <==> AllForgotten(calls + [c], c.nonce, |calls|)
  {
    hide Forgotten, Drops;
    var all := calls + [c];
    forall i: nat | i < |calls| && calls[i].accepted ensures Forgotten(all, i, |all|) <==> i !in ids[k..] {
      PurgeForgets(calls, s, ids, k, c, i);
    }
    if c.nonce in Names(s[k..]) {
      var p :| 0 <= p < |s[k..]| && s[k..][p].0 == c.nonce;
      var i := ids[k + p];
      assert ids[k..][p] == i && s[k + p].0 == c.nonce;
      assert all[i] == calls[i];
    }
    if !AllForgotten(all, c.nonce, |calls|) {
      var i: nat :| i < |calls| && all[i].accepted && all[i].nonce == c.nonce && !Forgotten(all, i, |all|);
      assert all[i] == calls[i] && i in ids[k..];
      var p :| 0 <= p < |ids[k..]| && ids[k..][p] == i;
      assert s[k..][p] == s[k + p] && s[k..][p] in s[k..];
    }
  }

  /** All accepted uses of `nonce` among the first `n` calls are forgotten. */
  ghost predicate AllForgotten(calls: seq<Call>, nonce: string, n: nat)
    requires n <= |calls|
  {
    forall i: nat :: i < n && calls[i].accepted && calls[i].nonce == nonce ==> Forgotten(calls, i, |calls|)
  }

  /** While the clock does not run backwards, that is so exactly when none of them is in the last 60 seconds. */
  lemma OrderedAnswer(calls: seq<Call>, c: Call)
    requires Ordered(calls + [c])
    ensures AllForgotten(calls + [c], c.nonce, |calls|) <==> !Replayed(calls, c.nonce, c.time)
  {
    hide Forgotten, Drops;
    var all := calls + [c];
    forall i: nat | i < |calls|
      ensures Forgotten(all, i, |all|) <==> c.time - calls[i].time > WINDOW
      ensures all[i] == calls[i]
    {
      OrderedForgotten(all, i);
    }
    if Replayed(calls, c.nonce, c.time) {
      var d :| d in calls && d.accepted && d.nonce == c.nonce && c.time - d.time <= WINDOW;
      var i: nat :| i < |calls| && calls[i] == d;
      assert all[i].accepted;
    }
    if !AllForgotten(all, c.nonce, |calls|) {
      var i: nat :| i < |calls| && all[i].accepted && all[i].nonce == c.nonce && !Forgotten(all, i, |all|);
      assert calls[i] in calls;
    }
  }

  class Player {
    var sequence: seq<Entry>
    var nonces: set<string>
    ghost var calls: seq<Call>
    ghost var ids: seq<nat>

    /** The set holds exactly the nonces of the sequence, which are all different, and the sequence has the
        accepted calls that are not forgotten. */
    ghost predicate Valid()
      reads this
    {
      nonces == Names(sequence) && Distinct(sequence) && Remembers(calls, sequence, ids)
    }

    constructor ()
      ensures Valid() && calls == []
    {
      sequence, nonces, calls, ids := [], {}, [], [];
    }

    /** Drops the entries at the front that are more than 60 seconds older than `time`. */
    method Purge(time: int) returns (ghost k: int)
      requires nonces == Names(sequence) && Distinct(sequence)
      modifies this`sequence, this`nonces
      ensures Purged(old(sequence), k, time) && sequence == old(sequence)[k..]
      ensures nonces == Names(sequence) && Distinct(sequence)
    {
      k := 0;
      while sequence != []
        invariant 0 <= k <= |old(sequence)| && sequence == old(sequence)[k..]
        invariant forall i :: 0 <= i < k ==> time - old(sequence)[i].1 > WINDOW
        invariant nonces == Names(sequence) && Distinct(sequence)
        decreases |sequence|
      {
        var front := sequence[0];
        if time - front.1 > WINDOW {
          NamesDrop(sequence);
          nonces := nonces - {front.0};
          sequence := sequence[1..];
          k := k + 1;
        } else {
          break;
        }
      }
    }

    /** Accepts a nonce unless it is remembered, that is, exactly when all its accepted uses are forgotten.  In
        a run whose clock never goes back, that is when none of them is in the last 60 seconds. */
    method TestNonce(nonce: string, time: int) returns (ok: bool)
      requires Valid()
      modifies this
      ensures Valid()
      ensures calls == old(calls) + [Call(nonce, time, ok)]
      ensures ok <==> AllForgotten(calls, nonce, |old(calls)|)
      ensures Ordered(calls) ==> (ok <==> !Replayed(old(calls), nonce, time))
    {
      hide Ordered, Replayed, Distinct, Remembers, AllForgotten;
      ghost var k := Purge(time);
      ok := nonce !in nonces;
      ghost var c := Call(nonce, time, ok);
      Judged(calls, old(sequence), ids, k, c);
      RemembersMore(calls, old(sequence), ids, k, c);
      if Ordered(calls + [c]) {
        OrderedAnswer(calls, c);
      }
      SameLength(calls, old(sequence), ids);
      ids := ids[k..];
      if ok {
        NamesAppend(sequence, (nonce, time));
        nonces := nonces + {nonce};
        sequence := sequence + [(nonce, time)];
        ids := ids + [|calls|];
      }
      calls := calls + [c];
    }
  }

  lemma SameLength(calls: seq<Call>, s: seq<Entry>, ids: seq<nat>)
    requires Remembers(calls, s, ids)
    ensures |s| == |ids|
  {
  }

  /** Timestamps come from the client and can go back.  A nonce used at time `t` is accepted again at any time,
      also within 60 seconds of `t`, once another one has been used more than 60 seconds after `t`. */
  method EarlyReplay(nonce: string, other: string, t: int, later: int, again: int) returns (first: bool, second: bool)
    requires nonce != other && later - t > 60
    ensures first && second
  {
    var player := new Player();
    first := player.TestNonce(nonce, t);
    var between := player.TestNonce(other, later);
    second := player.TestNonce(nonce, again);
    assert Drops(player.calls, 0, 1);
  }
}
