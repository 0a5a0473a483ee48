/** Topping up a pledge, statement by statement, as a function of the tables and of what the environment
    does.  The record of the pledge is written first and the gold second; between the two the balance of
    a player can break, and this module says exactly when it can. */
module GameTopUp {
  import opened GameDb
  import opened GameLedger
  import opened GameTurns

  datatype PledgeReply = PledgeReply(db: Tables, env: seq<Turn>, ok: bool)

  /** Sets or deletes a pledge record: a count, and then a write unless there is nothing to delete. */
  ghost function SetPledge(s: Tables, env: seq<Turn>, r: Row, amount: int): PledgeReply {
    var t, later := Seen(s, env), Later(env);
    if !First(env).ok then PledgeReply(t, later, false)
    else if amount <= 0 && r !in t.pledge then PledgeReply(t, later, true)
    else
      var u := Seen(t, later);
      if !First(later).ok then PledgeReply(u, Later(later), false)
      else
        PledgeReply(u.(pledge := if amount > 0 then u.pledge[r := amount] else u.pledge - {r}), Later(later), true)
  }

  datatype GoldReply = GoldReply(db: Tables, env: seq<Turn>, ok: bool, hit: bool)

  /** Sets a player's gold if the row still has the given version. */
  ghost function SetGold(s: Tables, env: seq<Turn>, p: string, gold: int, version: int): GoldReply {
    var t := Seen(s, env);
    var hit := First(env).ok && p in t.capital && t.capital[p].version == version;
    GoldReply(if hit then WithGold(t, p, gold) else t, Later(env), First(env).ok, hit)
  }

  /** What an attempt leaves: the tables, the environment, and the avatar's pledge. */
  datatype Attempt = Attempt(db: Tables, env: seq<Turn>, pledge: int, ok: bool, retry: bool, applied: bool)

  /** Writing the record and then the gold of a row that was read in `s`. */
  ghost function Commit(s: Tables, env: seq<Turn>, r: Row, gold: int, target: int, version: int): Attempt {
    var put := SetPledge(s, env, r, target);
    if !put.ok then Attempt(put.db, put.env, 0, false, false, false)
    else
      var paid := SetGold(put.db, put.env, r.0, gold, version);
      Attempt(paid.db, paid.env, target, paid.hit, paid.ok && !paid.hit, paid.hit)
  }

  /** One attempt: the capital is read, and the pledge is raised to `need` or, for a player who cannot pay and
      is to be kicked, paid out. */
  ghost function Once(s: Tables, env: seq<Turn>, r: Row, a: int, need: int, kick: bool): Attempt {
    var t := Seen(s, env);
    if !First(env).ok || r.0 !in t.capital then Attempt(t, Later(env), a, false, false, false)
    else
      var row := t.capital[r.0];
      var enough := row.gold >= need - a;
      if !enough && !kick then Attempt(t, Later(env), a, false, false, false)
      else
        var target := if enough then need else 0;
        var c := Commit(t, Later(env), r, row.gold + a - target, target, row.version);
        Attempt(c.db, c.env, if c.applied then target else a, enough && c.applied, c.retry, c.applied)
  }

  /** Up to `n` attempts to bring the avatar's pledge from `a` up to `need`. */
  ghost function TopUp(s: Tables, env: seq<Turn>, r: Row, a: int, need: int, kick: bool, n: nat): Attempt
    decreases n
  {
    if a >= need then Attempt(s, env, a, true, false, false)
    else if n == 0 then Attempt(s, env, a, false, false, false)
    else
      var t := Once(s, env, r, a, need, kick);
      if t.retry then TopUp(t.db, t.env, r, a, need, kick, n - 1) else t
  }

  // ----- what the statements do to the balance -----

  lemma TurnNoise(s: Tables, env: seq<Turn>, r: Row)
    ensures Same(s, Seen(s, env), r)
    ensures NoiseOf(Later(env)) <= NoiseOf(env)
    ensures NoiseOf(Later(env)) == NoiseOf(env) ==> First(env).ok && Seen(s, env) == s
  {
    WrittenIsSame(s, First(env).writes, r);
  }

  lemma SetPledgeEffect(s: Tables, env: seq<Turn>, r: Row, amount: int)
    ensures var put := SetPledge(s, env, r, amount);
            && (if put.ok then Changed(s, put.db, r, 0, 0, Stored(amount)) else Same(s, put.db, r))
            && NoiseOf(put.env) <= NoiseOf(env)
            && (NoiseOf(put.env) == NoiseOf(env) ==> put.ok && put.db.capital == s.capital)
  {
    var t, later := Seen(s, env), Later(env);
    TurnNoise(s, env, r);
    TurnNoise(t, later, r);
    var u := Seen(t, later);
    WritePledge(u, r, Stored(amount));
    ThenSame(s, t, u, r, 0, 0, s.Pledge(r));
    var v := u.(pledge := if amount > 0 then u.pledge[r := amount] else u.pledge - {r});
    hide Seen, NoiseOf;
    assert Changed(u, v, r, 0, 0, Stored(amount));
    if First(env).ok && amount <= 0 && r !in t.pledge {
      assert Changed(s, t, r, 0, 0, 0);
    }
    hide Changed;
    SameThen(s, u, v, r, 0, 0, Stored(amount));
  }

  lemma SetGoldEffect(s: Tables, env: seq<Turn>, r: Row, gold: int, version: int)
    ensures var paid := SetGold(s, env, r.0, gold, version);
            && (!paid.hit ==> Same(s, paid.db, r))
            && (paid.hit && r.0 in s.capital && s.capital[r.0].version == version ==>
                  Moved(s, paid.db, r, gold - s.capital[r.0].gold, 0, s.Pledge(r), gold >= 0))
            && NoiseOf(paid.env) <= NoiseOf(env)
            && (NoiseOf(paid.env) == NoiseOf(env) ==>
                  paid.ok && (paid.hit <==> r.0 in s.capital && s.capital[r.0].version == version))
  {
    TurnNoise(s, env, r);
    hide Seen, NoiseOf, Moved;
    var t := Seen(s, env);
    if r.0 in t.capital {
      GoldWritten(s, t, r.0, gold, r);
    }
  }

  /** What two changes in a row come to when the second hits the version that the first one read. */
  lemma RecordThenGold(s: Tables, t: Tables, u: Tables, r: Row, target: int, gold: int)
    requires Changed(s, t, r, 0, 0, target) && r.0 in s.capital && r.0 in t.capital
    requires t.capital[r.0].version == s.capital[r.0].version
    requires Moved(t, u, r, gold - t.capital[r.0].gold, 0, t.Pledge(r), gold >= 0)
    ensures Moved(s, u, r, gold - s.capital[r.0].gold, 0, target, gold >= 0)
  {
    assert t.capital[r.0] == s.capital[r.0] && t.Pledge(r) == target;
    hide Moved;
    MovedTransitive(s, t, u, r, 0, 0, target, gold - t.capital[r.0].gold, 0, target, gold >= 0);
  }

  lemma CommitEffect(s: Tables, env: seq<Turn>, r: Row, gold: int, target: int)
    requires r.0 in s.capital
    ensures var c := Commit(s, env, r, gold, target, s.capital[r.0].version);
            && (c.applied ==> Moved(s, c.db, r, gold - s.capital[r.0].gold, 0, Stored(target), gold >= 0))
            && (!c.applied ==> Changed(s, c.db, r, 0, 0, c.db.Pledge(r)))
            && (!c.applied ==> c.db.Pledge(r) == s.Pledge(r) || c.db.Pledge(r) == Stored(target))
            && (c.retry ==> !c.applied)
            && NoiseOf(c.env) <= NoiseOf(env) && (NoiseOf(c.env) == NoiseOf(env) ==> c.applied)
  {
    var version := s.capital[r.0].version;
    var put := SetPledge(s, env, r, target);
    SetPledgeEffect(s, env, r, target);
    SetGoldEffect(put.db, put.env, r, gold, version);
    hide SetPledge, NoiseOf;
    assert Versioned(s, put.db) && put.db.Pledge(r) == if put.ok then Stored(target) else s.Pledge(r);
    var paid := SetGold(put.db, put.env, r.0, gold, version);
    hide Seen;
    if put.ok {
      if paid.hit {
        SetGoldHits(put.db, put.env, r, gold, version);
        RecordThenGold(s, put.db, paid.db, r, Stored(target), gold);
      } else {
        hide Moved;
        ThenSame(s, put.db, paid.db, r, 0, 0, Stored(target));
        SamePledge(put.db, paid.db, r);
      }
    }
  }

  /** Committing does what a top-up may do. */
  lemma CommitDeducts(t: Tables, env: seq<Turn>, r: Row, a: int, need: int, kick: bool)
    requires a < need && r.0 in t.capital && (t.capital[r.0].gold >= need - a || kick)
    ensures var row := t.capital[r.0];
            var enough := row.gold >= need - a;
            var target := if enough then need else 0;
            var c := Commit(t, env, r, row.gold + a - target, target, row.version);
            && Deducted(t, c.db, r, a, if c.applied then target else a, need, kick,
                        NoiseOf(c.env) == NoiseOf(env), enough && c.applied, c.applied)
            && (c.retry ==> !c.applied)
            && NoiseOf(c.env) <= NoiseOf(env) && (NoiseOf(c.env) == NoiseOf(env) ==> c.applied)
  {
    hide NoiseOf, Commit;
    var row := t.capital[r.0];
    var target := if row.gold >= need - a then need else 0;
    CommitEffect(t, env, r, row.gold + a - target, target);
  }

  lemma SameDeducted(s: Tables, t: Tables, u: Tables, r: Row, a: int, a': int, need: int, kick: bool,
                     calm: bool, ok: bool, applied: bool)
    requires Same(s, t, r) && Deducted(t, u, r, a, a', need, kick, calm, ok, applied)
    ensures Deducted(s, u, r, a, a', need, kick, calm, ok, applied)
  {
    SamePledge(s, t, r);
    hide Moved;
    var g := if !applied then 0 else if ok then a - need else a;
    var p := if !applied then u.Pledge(r) else if ok then Stored(need) else 0;
    MovedTransitive(s, t, u, r, 0, 0, s.Pledge(r), g, 0, p, !applied || ok || 0 <= a);
  }

  /** One attempt does what a top-up may do. */
  lemma OnceDeducts(s: Tables, env: seq<Turn>, r: Row, a: int, need: int, kick: bool)
    requires a < need
    ensures var t := Once(s, env, r, a, need, kick);
            var calm := NoiseOf(t.env) == NoiseOf(env);
            && Deducted(s, t.db, r, a, t.pledge, need, kick, calm, t.ok, t.applied)
            && NoiseOf(t.env) <= NoiseOf(env) && (t.retry ==> !t.applied)
  {
    hide NoiseOf, Seen, Commit, Same, Deducted;
    var t, later := Seen(s, env), Later(env);
    TurnNoise(s, env, r);
    NothingDeducted(s, t, r, a, need, kick);
    if First(env).ok && r.0 in t.capital {
      var row := t.capital[r.0];
      var enough := row.gold >= need - a;
      var target := if enough then need else 0;
      if enough || kick {
        CommitDeducts(t, later, r, a, need, kick);
        var c := Commit(t, later, r, row.gold + a - target, target, row.version);
        SameDeducted(s, t, c.db, r, a, if c.applied then target else a, need, kick,
                     NoiseOf(c.env) == NoiseOf(later), enough && c.applied, c.applied);
        DisturbedDeducted(s, c.db, r, a, if c.applied then target else a, need, kick,
                          NoiseOf(c.env) == NoiseOf(later), enough && c.applied, c.applied);
      }
    }
  }

  lemma NothingDeducted(s: Tables, t: Tables, r: Row, a: int, need: int, kick: bool)
    requires Same(s, t, r)
    ensures Deducted(s, t, r, a, a, need, kick, true, false, false)
    ensures Deducted(s, t, r, a, a, need, kick, false, false, false)
  {
    SamePledge(s, t, r);
  }

  lemma OnceRetries(s: Tables, env: seq<Turn>, r: Row, a: int, need: int, kick: bool)
    ensures var t := Once(s, env, r, a, need, kick); t.retry ==> !t.ok && !t.applied && t.pledge == a
  {
  }

  /** An undisturbed attempt is decided by account and gold. */
  lemma OnceDecides(s: Tables, env: seq<Turn>, r: Row, a: int, need: int, kick: bool)
    requires a < need && NoiseOf(Once(s, env, r, a, need, kick).env) == NoiseOf(env)
    ensures var t := Once(s, env, r, a, need, kick);
            && !t.retry && (t.ok <==> r.0 in s.capital && s.Gold(r.0) >= need - a)
            && (t.applied <==> r.0 in s.capital && (t.ok || kick))
  {
    var t, later := Seen(s, env), Later(env);
    TurnNoise(s, env, r);
    hide NoiseOf, Seen, Commit, Moved, Deducted;
    if r.0 in t.capital && (t.capital[r.0].gold >= need - a || kick) {
      CommitDeducts(t, later, r, a, need, kick);
    }
  }

  /** Less is said of a disturbed top-up. */
  lemma DisturbedDeducted(s: Tables, s': Tables, r: Row, a: int, a': int, need: int, kick: bool,
                          calm: bool, ok: bool, applied: bool)
    requires Deducted(s, s', r, a, a', need, kick, calm, ok, applied)
    ensures Deducted(s, s', r, a, a', need, kick, false, ok, applied)
  {
  }

  /** Up to `n` attempts do what a top-up may do; undisturbed, the first one decides. */
  lemma {:induction false} TopUpDeducts(s: Tables, env: seq<Turn>, r: Row, a: int, need: int, kick: bool, n: nat)
    requires a < need
    ensures var t := TopUp(s, env, r, a, need, kick, n);
            var calm := NoiseOf(t.env) == NoiseOf(env);
            && Deducted(s, t.db, r, a, t.pledge, need, kick, calm, t.ok, t.applied)
            && NoiseOf(t.env) <= NoiseOf(env)
            && (calm && 0 < n ==> && (t.ok <==> r.0 in s.capital && s.Gold(r.0) >= need - a)
                                  && (t.applied <==> r.0 in s.capital && (t.ok || kick)))
    decreases n
  {
    hide NoiseOf, Once;
    if n == 0 {
      ChangedReflexive(s, r);
    } else {
      OnceDeducts(s, env, r, a, need, kick);
      var o := Once(s, env, r, a, need, kick);
      if NoiseOf(o.env) == NoiseOf(env) {
        OnceDecides(s, env, r, a, need, kick);
      }
      if o.retry {
        hide Moved;
        TopUpDeducts(o.db, o.env, r, a, need, kick, n - 1);
        var t := TopUp(o.db, o.env, r, a, need, kick, n - 1);
        DeductedLater(s, o.db, t.db, r, a, t.pledge, need, kick,
                      NoiseOf(o.env) == NoiseOf(env), NoiseOf(t.env) == NoiseOf(o.env), t.ok, t.applied);
      }
    }
  }

  lemma SamePledge(s: Tables, t: Tables, r: Row)
    requires Same(s, t, r)
    ensures t.Pledge(r) == s.Pledge(r)
  {
  }

  /** A version that is hit was not passed before. */
  lemma SetGoldHits(s: Tables, env: seq<Turn>, r: Row, gold: int, version: int)
    requires SetGold(s, env, r.0, gold, version).hit
    ensures r.0 in s.capital && s.capital[r.0].version <= version
  {
    WrittenIsSame(s, First(env).writes, r);
  }

  /** Gold plus pledge record of the player of row `r`, apart from other writers' own changes. */
  ghost function Held(s: Tables, r: Row): int {
    s.OwnGold(r.0) + s.Pledge(r)
  }

  /** The top-up changes gold plus pledge record. */
  ghost predicate Breaks(s: Tables, env: seq<Turn>, r: Row, a: int, need: int, kick: bool, n: nat) {
    Held(TopUp(s, env, r, a, need, kick, n).db, r) != Held(s, r)
  }

  // ----- undisturbed -----

  lemma QuietTurn(s: Tables, env: seq<Turn>)
    requires NoiseOf(env) == 0
    ensures First(env).ok && Seen(s, env) == s && NoiseOf(Later(env)) == 0
  {
  }

  lemma QuietSetPledge(s: Tables, env: seq<Turn>, r: Row, amount: int)
    requires NoiseOf(env) == 0
    ensures var put := SetPledge(s, env, r, amount);
            && put.ok && NoiseOf(put.env) == 0 && put.db == s.(pledge := put.db.pledge)
            && put.db.Pledge(r) == Stored(amount)
  {
    QuietTurn(s, env);
    QuietTurn(s, Later(env));
    hide Seen, NoiseOf;
  }

  /** Undisturbed, the first attempt decides. */
  lemma QuietOnce(s: Tables, env: seq<Turn>, r: Row, a: int, need: int, kick: bool)
    requires NoiseOf(env) == 0 && a < need
    ensures var t := Once(s, env, r, a, need, kick);
            var enough := s.Gold(r.0) >= need - a;
            && t.applied == (r.0 in s.capital && (enough || kick)) && !t.retry
            && t.ok == (t.applied && enough)
            && t.db.Pledge(r) == (if !t.applied then s.Pledge(r) else if enough then Stored(need) else 0)
            && t.db.OwnGold(r.0) == s.OwnGold(r.0) + if !t.applied then 0 else if enough then a - need else a
  {
    QuietTurn(s, env);
    var enough := s.Gold(r.0) >= need - a;
    var put := SetPledge(s, Later(env), r, if enough then need else 0);
    QuietSetPledge(s, Later(env), r, if enough then need else 0);
    QuietTurn(put.db, put.env);
    hide SetPledge, Seen, NoiseOf;
    assert put.db.capital == s.capital;
  }

  /** An undisturbed top-up keeps gold plus record exactly when it has nothing to do, or the player has no
      account, or cannot pay and is not to be kicked, or record and avatar agree beforehand.  (Where a
      negative pledge is raised to another one, no record keeps the difference.) */
  lemma QuietTopUp(s: Tables, env: seq<Turn>, r: Row, a: int, need: int, kick: bool, n: nat)
    requires NoiseOf(env) == 0 && 0 < n
    ensures var enough := s.Gold(r.0) >= need - a;
            !Breaks(s, env, r, a, need, kick, n)
            <==> || a >= need || r.0 !in s.capital || (!enough && !kick)
                 || s.Pledge(r) == if enough then a + Stored(need) - need else a
  {
    if a < need {
      QuietOnce(s, env, r, a, need, kick);
      hide Once;
      assert TopUp(s, env, r, a, need, kick, n) == Once(s, env, r, a, need, kick);
    }
  }

  /** An undisturbed top-up makes gold negative exactly when it pays out a negative pledge that the player's
      gold does not cover. */
  lemma QuietTopUpSound(s: Tables, env: seq<Turn>, r: Row, a: int, need: int, kick: bool, n: nat)
    requires NoiseOf(env) == 0 && 0 < n && s.Sound()
    ensures TopUp(s, env, r, a, need, kick, n).db.Sound()
            <==> !(kick && r.0 in s.capital && s.Gold(r.0) < need - a && s.Gold(r.0) + a < 0)
  {
    if a < need {
      QuietTurn(s, env);
      var enough := s.Gold(r.0) >= need - a;
      var put := SetPledge(s, Later(env), r, if enough then need else 0);
      QuietSetPledge(s, Later(env), r, if enough then need else 0);
      QuietTurn(put.db, put.env);
      SetPledgeEffect(s, Later(env), r, if enough then need else 0);
      assert put.db.Records();
      hide SetPledge, Seen, NoiseOf, Moved;
      QuietOnce(s, env, r, a, need, kick);
      assert TopUp(s, env, r, a, need, kick, n) == Once(s, env, r, a, need, kick);
    }
  }

  // ----- disturbed -----

  /** Without an account nothing is written, whatever the environment does. */
  lemma NoAccount(s: Tables, env: seq<Turn>, r: Row, a: int, need: int, kick: bool, n: nat)
    requires a >= need || r.0 !in s.capital
    ensures !Breaks(s, env, r, a, need, kick, n)
  {
    WrittenIsSame(s, First(env).writes, r);
  }

  /** Another writer gives the player the gold; then the record is written, and the gold is not or is. */
  ghost function Interruption(p: string, gold: nat, interrupted: bool): seq<Turn> {
    [Turn([Write(p, gold, 0)], true), QUIET, QUIET, Turn([], !interrupted)]
  }

  /** The statement that sets the gold fails after the record was written. */
  lemma HalfDoneTopUp(s: Tables, r: Row, a: int, need: int, kick: bool, n: nat)
    requires a < need && r.0 in s.capital && 0 < n && (0 < need || r in s.pledge)
    ensures var o := TopUp(s, Interruption(r.0, need - a, true), r, a, need, kick, n);
            && !o.ok && !o.applied && o.pledge == a
            && o.db.Pledge(r) == Stored(need) && o.db.OwnGold(r.0) == s.OwnGold(r.0)
  {
    Rest(s, r, a, need, kick, true);
  }

  lemma Rest(s: Tables, r: Row, a: int, need: int, kick: bool, interrupted: bool)
    requires a < need && r.0 in s.capital && (interrupted ==> 0 < need || r in s.pledge)
    ensures var o := Once(s, Interruption(r.0, need - a, interrupted), r, a, need, kick);
            && o.applied == o.ok == !interrupted && !o.retry && o.pledge == (if interrupted then a else need)
            && o.db.Pledge(r) == Stored(need)
            && o.db.OwnGold(r.0) == s.OwnGold(r.0) + if interrupted then 0 else a - need
  {
    var w := Write(r.0, need - a, 0);
    var env := Interruption(r.0, need - a, interrupted);
    var t := Seen(s, env);
    assert [w][..|[w]| - 1] == [];
    assert Written(s, [w]) == OtherChange(Written(s, []), w);
    assert t == OtherChange(s, w);
    var later := Later(env);
    assert later == [QUIET, QUIET, Turn([], !interrupted)];
    assert Later(later) == [QUIET, Turn([], !interrupted)];
    assert Later(Later(later)) == [Turn([], !interrupted)];
    var put := SetPledge(t, later, r, need);
    if 0 < need {
      assert put == PledgeReply(t.(pledge := t.pledge[r := need]), Later(Later(later)), true);
    } else if r in s.pledge {
      assert put == PledgeReply(t.(pledge := t.pledge - {r}), Later(Later(later)), true);
    } else {
      assert put == PledgeReply(t, Later(later), true);
    }
  }

  /** A top-up can break the balance if and only if it has something to do and the player has an account. */
  lemma BreakableTopUp(s: Tables, r: Row, a: int, need: int, kick: bool, n: nat)
    requires 0 < n
    ensures (exists env :: Breaks(s, env, r, a, need, kick, n)) <==> a < need && r.0 in s.capital
  {
    if a < need && r.0 in s.capital {
      var env := Interruption(r.0, need - a, s.Pledge(r) != Stored(need));
      Rest(s, r, a, need, kick, s.Pledge(r) != Stored(need));
      hide Once;
      assert Breaks(s, env, r, a, need, kick, n);
    } else {
      forall env ensures !Breaks(s, env, r, a, need, kick, n) {
        NoAccount(s, env, r, a, need, kick, n);
      }
    }
  }

  // ----- retries -----

  /** One attempt with gold enough is decided by the turns: it goes well if every statement succeeds and nobody else
      writes the row meanwhile, and is repeated if every statement succeeds and somebody does. */
  lemma OnceByTurns(s: Tables, env: seq<Turn>, r: Row, a: int, need: int, kick: bool)
    requires 0 < need && a < need
    ensures var t := Once(s, env, r, a, need, kick);
            && (r.0 !in s.capital ==> !t.ok && !t.retry)
            && (!HasGold(s, env, 0, r.0, a, need) ==> !t.ok && (t.retry ==> kick))
            && (r.0 in s.capital && HasGold(s, env, 0, r.0, a, need) ==>
                  && (t.ok <==> FourHits(env, 0, r.0))
                  && (t.retry <==> AllOk(env, 4) && !FourHits(env, 0, r.0))
                  && (t.retry ==> t.env == Skip(env, 4) && t.db.capital == Others(s, env, 4).capital))
  {
    var t1, e1 := Seen(s, env), Later(env);
    OthersKeys(s, env, 1, r.0);
    var t3 := Seen(Seen(t1, e1), Later(e1));
    var u := t3.(pledge := t3.pledge[r := need]);
    FourTurns(s, env, t3);
    FourTurns(s, env, u);
    if r.0 in s.capital {
      FourVersions(s, env, r.0);
    }
    hide Others, Skip, AllOk, Touches, TurnAt, Seen;
  }

  /** Up to `n` attempts succeed if one of them goes well, with gold enough at every read until then; and only then,
      unless the player was to be kicked and could not pay at some read. */
  lemma {:induction false} TopUpByTurns(s: Tables, env: seq<Turn>, r: Row, a: int, need: int, kick: bool, n: nat)
    requires 0 < need && a < need
    ensures r.0 in s.capital && (exists i: nat :: i < n && GoldGoes(s, env, i, r.0, a, need)) ==>
              TopUp(s, env, r, a, need, kick, n).ok
    ensures TopUp(s, env, r, a, need, kick, n).ok
            && (!kick || forall k: nat :: k < n ==> HasGold(s, env, k, r.0, a, need)) ==>
              r.0 in s.capital && exists i: nat :: i < n && GoldGoes(s, env, i, r.0, a, need)
    decreases n
  {
    var p := r.0;
    hide Once, HasGold, FourHits, AllOk, Skip, Others, GoldGoes;
    if n > 0 {
      var t := Once(s, env, r, a, need, kick);
      OnceByTurns(s, env, r, a, need, kick);
      NeedsFirst(s, env, p, a, need);
      if p in s.capital && HasGold(s, env, 0, p, a, need) && t.retry {
        TopUpByTurns(t.db, t.env, r, a, need, kick, n - 1);
        OthersKeys(s, env, 4, p);
        LaterAttempts(s, t.db, env, p, a, need, n);
      }
    }
  }

  /** After an attempt in vain, the attempts ahead are those after the next one. */
  lemma LaterAttempts(s: Tables, t: Tables, env: seq<Turn>, p: string, a: int, need: int, n: nat)
    requires AllOk(env, 4) && t.capital == Others(s, env, 4).capital && HasGold(s, env, 0, p, a, need)
    requires !FourHits(env, 0, p) && n > 0
    ensures (exists i: nat :: i < n && GoldGoes(s, env, i, p, a, need))
            <==> exists i: nat :: i < n - 1 && GoldGoes(t, Skip(env, 4), i, p, a, need)
    ensures (forall k: nat :: k < n ==> HasGold(s, env, k, p, a, need)) ==>
              forall k: nat :: k < n - 1 ==> HasGold(t, Skip(env, 4), k, p, a, need)
  {
    NeedsFirst(s, env, p, a, need);
    hide HasGold, FourHits, AllOk, Skip, Others, GoldGoes;
    if i: nat :| i < n && GoldGoes(s, env, i, p, a, need) {
      GoesShift(s, t, env, i - 1, p, a, need);
      assert GoldGoes(t, Skip(env, 4), i - 1, p, a, need);
    }
    if i: nat :| i < n - 1 && GoldGoes(t, Skip(env, 4), i, p, a, need) {
      GoesShift(s, t, env, i, p, a, need);
      assert GoldGoes(s, env, i + 1, p, a, need);
    }
    if forall k: nat :: k < n ==> HasGold(s, env, k, p, a, need) {
      forall k: nat | k < n - 1 ensures HasGold(t, Skip(env, 4), k, p, a, need) {
        GoldShift(s, t, env, k, p, a, need);
        assert HasGold(s, env, k + 1, p, a, need);
      }
    }
  }

  lemma NeedsFirst(s: Tables, env: seq<Turn>, p: string, a: int, need: int)
    ensures forall i: nat :: GoldGoes(s, env, i, p, a, need) ==> AllOk(env, 4) && HasGold(s, env, 0, p, a, need)
    ensures GoldGoes(s, env, 0, p, a, need) <==> FourHits(env, 0, p) && HasGold(s, env, 0, p, a, need)
    ensures FourHits(env, 0, p) ==> AllOk(env, 4)
  {
  }
}
