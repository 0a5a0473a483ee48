/** The turns of the environment, counted from now: which statements succeed, what others write meanwhile, and
    which of several attempts at a versioned update is the first that nobody gets in the way of. */
module GameTurns {
  import opened GameDb

  function TurnAt(env: seq<Turn>, n: nat): Turn {
    if n < |env| then env[n] else QUIET
  }

  function Skip(env: seq<Turn>, n: nat): seq<Turn> {
    if n < |env| then env[n..] else []
  }

  /** The first `n` statements succeed. */
  ghost predicate AllOk(env: seq<Turn>, n: nat) {
    forall j: nat :: j < n ==> TurnAt(env, j).ok
  }

  /** Somebody else writes the row of player `p`. */
  ghost predicate Touches(turn: Turn, p: string) {
    exists w :: w in turn.writes && w.p == p
  }

  /** The tables after the writes of the others in the first `n` turns. */
  ghost function Others(s: Tables, env: seq<Turn>, n: nat): Tables {
    if n == 0 then s else Written(Others(s, env, n - 1), TurnAt(env, n - 1).writes)
  }

  lemma SkipTurns(env: seq<Turn>, n: nat)
    ensures First(Skip(env, n)) == TurnAt(env, n) && Later(Skip(env, n)) == Skip(env, n + 1)
    ensures Skip(env, 0) == env
    ensures forall m: nat :: TurnAt(Skip(env, n), m) == TurnAt(env, n + m)
    ensures forall m: nat {:trigger Skip(Skip(env, n), m)} :: Skip(Skip(env, n), m) == Skip(env, n + m)
  {
    forall m: nat ensures Skip(Skip(env, n), m) == Skip(env, n + m) {
      if n + m < |env| {
        assert env[n..][m..] == env[n + m..];
      }
    }
  }

  lemma OkTurns(env: seq<Turn>, n: nat, m: nat)
    ensures AllOk(env, n + m) <==> AllOk(env, n) && AllOk(Skip(env, n), m)
  {
    SkipTurns(env, n);
    if AllOk(env, n) && AllOk(Skip(env, n), m) {
      forall j: nat | j < n + m ensures TurnAt(env, j).ok {
        if j >= n {
          assert TurnAt(Skip(env, n), j - n) == TurnAt(env, j);
        }
      }
    }
    if AllOk(env, n + m) {
      forall j: nat | j < m ensures TurnAt(Skip(env, n), j).ok {
        assert TurnAt(Skip(env, n), j) == TurnAt(env, n + j);
      }
    }
  }

  /** What others write into the capital depends on nothing but the capital. */
  lemma {:induction false} WrittenCapital(s: Tables, t: Tables, ws: seq<Write>)
    requires s.capital == t.capital
    ensures Written(s, ws).capital == Written(t, ws).capital
  {
    if ws != [] {
      WrittenCapital(s, t, ws[..|ws| - 1]);
    }
  }

  lemma {:induction false} OthersShift(s: Tables, t: Tables, env: seq<Turn>, n: nat, m: nat)
    requires t.capital == Others(s, env, n).capital
    ensures Others(s, env, n + m).capital == Others(t, Skip(env, n), m).capital
    decreases m
  {
    if m > 0 {
      OthersShift(s, t, env, n, m - 1);
      SkipTurns(env, n);
      WrittenCapital(Others(s, env, n + m - 1), Others(t, Skip(env, n), m - 1), TurnAt(env, n + m - 1).writes);
    }
  }

  lemma {:induction false} OthersJoin(s: Tables, env: seq<Turn>, n: nat, m: nat)
    ensures Others(s, env, n + m) == Others(Others(s, env, n), Skip(env, n), m)
    decreases m
  {
    if m > 0 {
      OthersJoin(s, env, n, m - 1);
      SkipTurns(env, n);
    }
  }

  /** Others' writes change the version of a row exactly if they write it. */
  lemma {:induction false} TouchedVersion(t: Tables, ws: seq<Write>, p: string)
    requires p in t.capital
    ensures p in Written(t, ws).capital && t.capital[p].version <= Written(t, ws).capital[p].version
    ensures Written(t, ws).capital[p].version == t.capital[p].version <==> !exists w :: w in ws && w.p == p
  {
    if ws != [] {
      var last, most := ws[|ws| - 1], ws[..|ws| - 1];
      TouchedVersion(t, most, p);
      assert ws == most + [last];
      assert (exists w :: w in ws && w.p == p) <==> (exists w :: w in most && w.p == p) || last.p == p;
    }
  }

  lemma OthersKeys(s: Tables, env: seq<Turn>, n: nat, p: string)
    ensures p in Others(s, env, n).capital <==> p in s.capital
    decreases n
  {
    if n > 0 {
      OthersKeys(s, env, n - 1, p);
      WrittenIsSame(Others(s, env, n - 1), TurnAt(env, n - 1).writes, (p, ""));
    }
  }

  // ----- attempts of two statements: a read and an update -----

  /** Counted from turn `from`: everything goes well up to attempt `i`, and between its read and its update nobody
      else writes the row. */
  ghost predicate PairHits(env: seq<Turn>, from: nat, i: nat, p: string) {
    AllOk(env, from + 2 * i + 2) && !Touches(TurnAt(env, from + 2 * i + 1), p)
  }

  lemma PairShift(env: seq<Turn>, n: nat, i: nat, p: string)
    requires AllOk(env, 2 * n)
    ensures PairHits(Skip(env, 2 * n), 0, i, p) <==> PairHits(env, 0, n + i, p)
  {
    OkTurns(env, 2 * n, 2 * i + 2);
    SkipTurns(env, 2 * n);
    assert TurnAt(Skip(env, 2 * n), 2 * i + 1) == TurnAt(env, 2 * n + (2 * i + 1));
  }

  lemma PairAfterTwo(env: seq<Turn>, i: nat, p: string)
    ensures AllOk(env, 2) && PairHits(Skip(env, 2), 0, i, p) <==> PairHits(env, 2, i, p)
  {
    OkTurns(env, 2, 2 * i + 2);
    SkipTurns(env, 2);
    assert TurnAt(Skip(env, 2), 2 * i + 1) == TurnAt(env, 2 + (2 * i + 1));
  }

  lemma PairsAfterTwo(env: seq<Turn>, p: string)
    ensures AllOk(env, 2) && (exists i: nat :: i < 10 && PairHits(Skip(env, 2), 0, i, p))
            <==> exists i: nat :: i < 10 && PairHits(env, 2, i, p)
  {
    forall i: nat ensures AllOk(env, 2) && PairHits(Skip(env, 2), 0, i, p) <==> PairHits(env, 2, i, p) {
      PairAfterTwo(env, i, p);
    }
  }

  /** None of the first `n` attempts goes well. */
  ghost predicate NoPair(env: seq<Turn>, n: nat, p: string) {
    forall i: nat :: i < n ==> !PairHits(env, 0, i, p)
  }

  /** After `i` attempts, all of them in vain but for want of luck: `rest` is what is left of the turns. */
  ghost predicate Tried(env: seq<Turn>, i: nat, rest: seq<Turn>, p: string, account: bool) {
    rest == Skip(env, 2 * i) && AllOk(env, 2 * i) && (account ==> NoPair(env, i, p))
  }

  lemma TriedNothing(env: seq<Turn>, p: string, account: bool)
    ensures Tried(env, 0, env, p, account)
  {
    SkipTurns(env, 0);
  }

  /** What one more attempt decides. */
  lemma TriedMore(env: seq<Turn>, i: nat, rest: seq<Turn>, p: string, account: bool)
    requires Tried(env, i, rest, p, account)
    ensures PairHits(rest, 0, 0, p) <==> PairHits(env, 0, i, p)
    ensures AllOk(rest, 2) && !(account && PairHits(rest, 0, 0, p)) ==> Tried(env, i + 1, Skip(rest, 2), p, account)
    ensures !AllOk(rest, 2) && account ==> forall n: nat :: NoPair(env, n, p)
  {
    PairShift(env, i, 0, p);
    OkTurns(env, 2 * i, 2);
    SkipTurns(env, 2 * i);
  }

  /** The player has `need` diamonds when attempt `i` reads them. */
  ghost predicate HasDiamonds(s: Tables, env: seq<Turn>, i: nat, p: string, need: int) {
    need <= Others(s, env, 2 * i + 1).Diamond(p)
  }

  /** Attempt `i` goes well, and there are diamonds enough at every read until then. */
  ghost predicate DiamondsGo(s: Tables, env: seq<Turn>, i: nat, p: string, need: int) {
    PairHits(env, 0, i, p) && forall k: nat :: k <= i ==> HasDiamonds(s, env, k, p, need)
  }

  ghost predicate NoDiamonds(s: Tables, env: seq<Turn>, n: nat, p: string, need: int) {
    forall i: nat :: i < n ==> !DiamondsGo(s, env, i, p, need)
  }

  /** After `i` attempts in vain but for want of luck: `now` and `rest` are the tables and what is left of the turns. */
  ghost predicate TriedDiamonds(s: Tables, env: seq<Turn>, i: nat, now: Tables, rest: seq<Turn>, p: string, need: int,
                                account: bool)
  {
    && now == Others(s, env, 2 * i) && rest == Skip(env, 2 * i) && AllOk(env, 2 * i)
    && (account ==> NoDiamonds(s, env, i, p, need) && forall k: nat :: k < i ==> HasDiamonds(s, env, k, p, need))
  }

  lemma TriedInVain(s: Tables, env: seq<Turn>, i: nat, now: Tables, rest: seq<Turn>, p: string, need: int,
                    account: bool)
    requires TriedDiamonds(s, env, i, now, rest, p, need, account)
    ensures account ==> NoDiamonds(s, env, i, p, need)
  {
  }

  lemma TriedStart(s: Tables, env: seq<Turn>, i: nat, now: Tables, rest: seq<Turn>, p: string, need: int,
                   account: bool)
    requires TriedDiamonds(s, env, i, now, rest, p, need, account)
    ensures i == 0 ==> now == s && rest == env
  {
    SkipTurns(env, 0);
  }

  lemma TriedNoDiamonds(s: Tables, env: seq<Turn>, p: string, need: int, account: bool)
    ensures TriedDiamonds(s, env, 0, s, env, p, need, account)
  {
    SkipTurns(env, 0);
  }

  /** What is ahead of attempt `i`, seen from there. */
  lemma FromAttempt(s: Tables, env: seq<Turn>, i: nat, p: string, need: int)
    requires AllOk(env, 2 * i)
    ensures var now, rest := Others(s, env, 2 * i), Skip(env, 2 * i);
            && (PairHits(rest, 0, 0, p) <==> PairHits(env, 0, i, p))
            && (HasDiamonds(now, rest, 0, p, need) <==> HasDiamonds(s, env, i, p, need))
            && (AllOk(rest, 2) <==> AllOk(env, 2 * (i + 1)))
            && Skip(rest, 2) == Skip(env, 2 * (i + 1)) && Others(now, rest, 2) == Others(s, env, 2 * (i + 1))
  {
    hide Others, HasDiamonds, PairHits, AllOk, Skip;
    PairShift(env, i, 0, p);
    OkTurns(env, 2 * i, 2);
    SkipTurns(env, 2 * i);
    DiamondsShift(s, env, i, p, need);
    OthersJoin(s, env, 2 * i, 2);
  }

  lemma DiamondsShift(s: Tables, env: seq<Turn>, i: nat, p: string, need: int)
    ensures HasDiamonds(Others(s, env, 2 * i), Skip(env, 2 * i), 0, p, need) <==> HasDiamonds(s, env, i, p, need)
  {
    hide Others, Skip;
    OthersJoin(s, env, 2 * i, 1);
  }

  lemma PairNeedsOk(env: seq<Turn>, i: nat, k: nat, p: string)
    requires PairHits(env, 0, k, p) && i <= k
    ensures AllOk(env, 2 * (i + 1))
  {
  }

  lemma TriedMoreDiamonds(s: Tables, env: seq<Turn>, i: nat, now: Tables, rest: seq<Turn>, p: string, need: int,
                          account: bool)
    requires TriedDiamonds(s, env, i, now, rest, p, need, account)
    ensures account ==>
              (PairHits(rest, 0, 0, p) && HasDiamonds(now, rest, 0, p, need) <==> DiamondsGo(s, env, i, p, need))
    ensures AllOk(rest, 2) && (account ==> HasDiamonds(now, rest, 0, p, need) && !PairHits(rest, 0, 0, p)) ==>
              TriedDiamonds(s, env, i + 1, Others(now, rest, 2), Skip(rest, 2), p, need, account)
    ensures account && !(AllOk(rest, 2) && HasDiamonds(now, rest, 0, p, need)) ==>
              NoDiamonds(s, env, 10, p, need)
  {
    FromAttempt(s, env, i, p, need);
    hide PairHits, HasDiamonds, AllOk, Others, Skip;
    forall k: nat | k >= i && account && DiamondsGo(s, env, k, p, need)
      ensures AllOk(rest, 2) && HasDiamonds(now, rest, 0, p, need)
    {
      PairNeedsOk(env, i, k, p);
    }
  }

  /** What reading a row and then updating it depends on. */
  lemma ReadThenUpdate(s: Tables, env: seq<Turn>, p: string)
    ensures First(env) == TurnAt(env, 0) && First(Later(env)) == TurnAt(env, 1) && Later(Later(env)) == Skip(env, 2)
    ensures AllOk(env, 2) <==> First(env).ok && First(Later(env)).ok
    ensures var t := Seen(s, env);
            var u := Seen(t, Later(env));
            && (p in s.capital <==> p in t.capital) && (p in t.capital <==> p in u.capital)
            && Others(s, env, 1) == t && Others(s, env, 2) == u
            && (p in t.capital ==>
                  (u.capital[p].version == t.capital[p].version <==> !Touches(First(Later(env)), p)))
  {
    SkipTurns(env, 0);
    SkipTurns(env, 1);
    if TurnAt(env, 0).ok && TurnAt(env, 1).ok {
      forall j: nat | j < 2 ensures TurnAt(env, j).ok {
        assert j == 0 || j == 1;
      }
    }
    var t := Seen(s, env);
    assert Others(s, env, 0) == s;
    assert Others(s, env, 1) == t;
    OthersKeys(s, env, 1, p);
    OthersKeys(s, env, 2, p);
    if p in t.capital {
      TouchedVersion(t, First(Later(env)).writes, p);
    }
  }

  // ----- attempts of four statements: a read, a count, a write of the record and an update -----

  /** Everything goes well up to attempt `i`, and between its read and its update nobody else writes the row. */
  ghost predicate FourHits(env: seq<Turn>, i: nat, p: string) {
    && AllOk(env, 4 * i + 4)
    && !Touches(TurnAt(env, 4 * i + 1), p) && !Touches(TurnAt(env, 4 * i + 2), p) && !Touches(TurnAt(env, 4 * i + 3), p)
  }

  /** When attempt `i` reads it, the player has the gold to raise a pledge from `held` to `need`. */
  ghost predicate HasGold(s: Tables, env: seq<Turn>, i: nat, p: string, held: int, need: int) {
    need - held <= Others(s, env, 4 * i + 1).Gold(p)
  }

  /** Attempt `i` goes well, and there is gold enough at every read until then. */
  ghost predicate GoldGoes(s: Tables, env: seq<Turn>, i: nat, p: string, held: int, need: int) {
    FourHits(env, i, p) && forall k: nat :: k <= i ==> HasGold(s, env, k, p, held, need)
  }

  lemma FourShift(env: seq<Turn>, i: nat, p: string)
    requires AllOk(env, 4)
    ensures FourHits(env, i + 1, p) <==> FourHits(Skip(env, 4), i, p)
  {
    OkTurns(env, 4, 4 * i + 4);
    SkipTurns(env, 4);
    assert TurnAt(Skip(env, 4), 4 * i + 1) == TurnAt(env, 4 + (4 * i + 1));
    assert TurnAt(Skip(env, 4), 4 * i + 2) == TurnAt(env, 4 + (4 * i + 2));
    assert TurnAt(Skip(env, 4), 4 * i + 3) == TurnAt(env, 4 + (4 * i + 3));
  }

  lemma GoldShift(s: Tables, t: Tables, env: seq<Turn>, i: nat, p: string, held: int, need: int)
    requires t.capital == Others(s, env, 4).capital
    ensures HasGold(s, env, i + 1, p, held, need) <==> HasGold(t, Skip(env, 4), i, p, held, need)
  {
    hide Others, Skip;
    OthersShift(s, t, env, 4, 4 * i + 1);
  }

  lemma GoesShift(s: Tables, t: Tables, env: seq<Turn>, i: nat, p: string, held: int, need: int)
    requires AllOk(env, 4) && t.capital == Others(s, env, 4).capital && HasGold(s, env, 0, p, held, need)
    ensures GoldGoes(s, env, i + 1, p, held, need) <==> GoldGoes(t, Skip(env, 4), i, p, held, need)
  {
    FourShift(env, i, p);
    hide FourHits, HasGold, Others, Skip, AllOk;
    forall k: nat ensures HasGold(s, env, k + 1, p, held, need) <==> HasGold(t, Skip(env, 4), k, p, held, need) {
      GoldShift(s, t, env, k, p, held, need);
    }
    if GoldGoes(t, Skip(env, 4), i, p, held, need) {
      forall k: nat | k <= i + 1 ensures HasGold(s, env, k, p, held, need) {
        assert k > 0 ==> HasGold(t, Skip(env, 4), k - 1, p, held, need);
      }
    }
    if GoldGoes(s, env, i + 1, p, held, need) {
      forall k: nat | k <= i ensures HasGold(t, Skip(env, 4), k, p, held, need) {
        assert HasGold(s, env, k + 1, p, held, need);
      }
    }
  }

  /** Others' writes in turn `n` change the version exactly if they touch the row. */
  lemma OthersVersion(s: Tables, env: seq<Turn>, n: nat, p: string)
    requires p in s.capital
    ensures var c, c' := Others(s, env, n).capital, Others(s, env, n + 1).capital;
            && p in c && p in c' && c[p].version <= c'[p].version
            && (c'[p].version == c[p].version <==> !Touches(TurnAt(env, n), p))
  {
    OthersKeys(s, env, n, p);
    TouchedVersion(Others(s, env, n), TurnAt(env, n).writes, p);
  }

  lemma FourVersions(s: Tables, env: seq<Turn>, p: string)
    requires p in s.capital
    ensures p in Others(s, env, 1).capital && p in Others(s, env, 4).capital
    ensures Others(s, env, 4).capital[p].version == Others(s, env, 1).capital[p].version
            <==> !Touches(TurnAt(env, 1), p) && !Touches(TurnAt(env, 2), p) && !Touches(TurnAt(env, 3), p)
  {
    hide Others, Touches;
    OthersVersion(s, env, 1, p);
    OthersVersion(s, env, 2, p);
    OthersVersion(s, env, 3, p);
  }

  /** Four turns, one after the other, with anything done in between that leaves the capital alone. */
  lemma FourTurns(s: Tables, env: seq<Turn>, u: Tables)
    requires u.capital == Others(s, env, 3).capital
    ensures var e1, e2 := Later(env), Later(Later(env));
            var e3 := Later(e2);
            && First(env) == TurnAt(env, 0) && First(e1) == TurnAt(env, 1) && First(e2) == TurnAt(env, 2)
            && First(e3) == TurnAt(env, 3) && Later(e3) == Skip(env, 4)
            && Others(s, env, 1) == Seen(s, env)
            && Others(s, env, 2) == Seen(Seen(s, env), e1)
            && Others(s, env, 3) == Seen(Seen(Seen(s, env), e1), e2)
            && Others(s, env, 4).capital == Seen(u, e3).capital
    ensures AllOk(env, 4) <==> TurnAt(env, 0).ok && TurnAt(env, 1).ok && TurnAt(env, 2).ok && TurnAt(env, 3).ok
  {
    SkipTurns(env, 0);
    SkipTurns(env, 1);
    SkipTurns(env, 2);
    SkipTurns(env, 3);
    assert Others(s, env, 0) == s;
    WrittenCapital(Others(s, env, 3), u, TurnAt(env, 3).writes);
    hide Skip;
    if TurnAt(env, 0).ok && TurnAt(env, 1).ok && TurnAt(env, 2).ok && TurnAt(env, 3).ok {
      forall j: nat | j < 4 ensures TurnAt(env, j).ok {
        assert j == 0 || j == 1 || j == 2 || j == 3;
      }
    }
  }
}
