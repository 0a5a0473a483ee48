/** The two tables that a game room moves money between, and the statements it runs on them.
    What the environment does is given turn by turn: before every statement other writers may change
    rows of `capital`, and they always bump the row's
    version.  A statement that fails has no effect. */
module GameDb {
  import opened Options

  datatype Capital = Capital(gold: int, diamond: int, version: int)

  type Row = (string, string)

  /** The tables, and how much gold and diamonds other writers have added to each player. */
  datatype Tables = Tables(capital: map<string, Capital>, pledge: map<Row, int>,
                           otherGold: map<string, int>, otherDiamond: map<string, int>) {

    ghost function Gold(p: string): int {
      if p in capital then capital[p].gold else 0
    }

    ghost function Diamond(p: string): int {
      if p in capital then capital[p].diamond else 0
    }

    /** Gold and diamonds apart from other writers' own changes. */
    ghost function OwnGold(p: string): int {
      Gold(p) - if p in otherGold then otherGold[p] else 0
    }

    ghost function OwnDiamond(p: string): int {
      Diamond(p) - if p in otherDiamond then otherDiamond[p] else 0
    }

    ghost function Pledge(r: Row): int {
      if r in pledge then pledge[r] else 0
    }

    /** No pledge record is negative. */
    ghost predicate Records() {
      forall r <- pledge :: pledge[r] >= 0
    }

    /** Nothing is negative. */
    ghost predicate Sound() {
      Records() && forall p <- capital :: capital[p].gold >= 0 && capital[p].diamond >= 0
    }
  }

  /** Versions never go back, and a row with the same version is the same row. */
  ghost predicate Versioned(s: Tables, s': Tables) {
    && s'.capital.Keys == s.capital.Keys
    && (forall p <- s.capital :: s.capital[p].version <= s'.capital[p].version)
    && (forall p <- s.capital :: s.capital[p].version == s'.capital[p].version ==> s'.capital[p] == s.capital[p])
  }

  /** From `s` to `s'`, apart from other writers: player `r.0` gains `gold` and `diamond`, row `r` of
      the pledges becomes `pledge`, and nothing else changes.  If `safe`, nothing becomes negative. */
  ghost predicate Moved(s: Tables, s': Tables, r: Row, gold: int, diamond: int, pledge: int, safe: bool) {
    && Versioned(s, s')
    && (forall q :: s'.OwnGold(q) == s.OwnGold(q) + if q == r.0 then gold else 0)
    && (forall q :: s'.OwnDiamond(q) == s.OwnDiamond(q) + if q == r.0 then diamond else 0)
    && s'.Pledge(r) == pledge
    && (forall k :: k != r ==> (k in s'.pledge <==> k in s.pledge) && s'.Pledge(k) == s.Pledge(k))
    && (s.Records() ==> s'.Records())
    && (safe && s.Sound() ==> s'.Sound())
  }

  ghost predicate Changed(s: Tables, s': Tables, r: Row, gold: int, diamond: int, pledge: int) {
    Moved(s, s', r, gold, diamond, pledge, true)
  }

  ghost predicate Same(s: Tables, s': Tables, r: Row) {
    Changed(s, s', r, 0, 0, s.Pledge(r)) && s'.pledge == s.pledge
  }

  lemma ChangedReflexive(s: Tables, r: Row)
    ensures Same(s, s, r)
  {
  }

  lemma MovedTransitive(s: Tables, t: Tables, u: Tables, r: Row, g: int, d: int, p: int, g': int, d': int, p': int,
                        safe: bool)
    requires Changed(s, t, r, g, d, p) && Moved(t, u, r, g', d', p', safe)
    ensures Moved(s, u, r, g + g', d + d', p', safe)
  {
    forall p | p in s.capital.Keys
      ensures s.capital[p].version <= u.capital[p].version
      ensures s.capital[p].version == u.capital[p].version ==> u.capital[p] == s.capital[p]
    {
      assert s.capital[p].version <= t.capital[p].version <= u.capital[p].version;
    }
  }

  lemma ChangedTransitive(s: Tables, t: Tables, u: Tables, r: Row, g: int, d: int, p: int, g': int, d': int, p': int)
    requires Changed(s, t, r, g, d, p) && Changed(t, u, r, g', d', p')
    ensures Changed(s, u, r, g + g', d + d', p')
  {
    MovedTransitive(s, t, u, r, g, d, p, g', d', p', true);
  }

  lemma WriteRow(t: Tables, p: string, row: Capital, r: Row)
    requires p in t.capital && row.version > t.capital[p].version && r.0 == p
    ensures var t' := t.(capital := t.capital[p := row]);
            Moved(t, t', r, row.gold - t.capital[p].gold, row.diamond - t.capital[p].diamond, t.Pledge(r),
                  row.gold >= 0 && row.diamond >= 0)
  {
    var t' := t.(capital := t.capital[p := row]);
    assert forall q :: q != p ==> t'.Gold(q) == t.Gold(q) && t'.Diamond(q) == t.Diamond(q);
    assert t'.capital.Keys == t.capital.Keys && t'.pledge == t.pledge;
  }

  // ----- the environment -----

  /** What another writer does: it sets a player's gold and diamonds. */
  datatype Write = Write(p: string, gold: nat, diamond: nat)

  /** What happens at one statement: others write first, and then the statement succeeds or fails. */
  datatype Turn = Turn(writes: seq<Write>, ok: bool)

  const QUIET := Turn([], true)

  function First(env: seq<Turn>): Turn {
    if env == [] then QUIET else env[0]
  }

  function Later(env: seq<Turn>): seq<Turn> {
    if env == [] then [] else env[1..]
  }

  /** How many turns ahead are not quiet. */
  ghost function NoiseOf(env: seq<Turn>): nat {
    if env == [] then 0 else (if env[0] == QUIET then 0 else 1) + NoiseOf(env[1..])
  }

  /** A change by another writer, booked as such. */
  ghost function OtherChange(t: Tables, w: Write): Tables {
    var p := w.p;
    if p !in t.capital then t
    else
      Tables(t.capital[p := Capital(w.gold, w.diamond, t.capital[p].version + 1)], t.pledge,
             t.otherGold[p := w.gold - t.OwnGold(p)], t.otherDiamond[p := w.diamond - t.OwnDiamond(p)])
  }

  ghost function Written(t: Tables, ws: seq<Write>): Tables {
    if ws == [] then t else OtherChange(Written(t, ws[..|ws| - 1]), ws[|ws| - 1])
  }

  /** The tables that the next statement finds. */
  ghost function Seen(t: Tables, env: seq<Turn>): Tables {
    Written(t, First(env).writes)
  }

  lemma OtherChangeIsSame(t: Tables, w: Write, r: Row)
    ensures Same(t, OtherChange(t, w), r)
  {
    var t' := OtherChange(t, w);
    forall q ensures t'.OwnGold(q) == t.OwnGold(q) && t'.OwnDiamond(q) == t.OwnDiamond(q) {
    }
  }

  lemma {:induction false} WrittenIsSame(t: Tables, ws: seq<Write>, r: Row)
    ensures Same(t, Written(t, ws), r)
  {
    if ws == [] {
      ChangedReflexive(t, r);
    } else {
      var u := Written(t, ws[..|ws| - 1]);
      WrittenIsSame(t, ws[..|ws| - 1], r);
      OtherChangeIsSame(u, ws[|ws| - 1], r);
      ChangedTransitive(t, u, Written(t, ws), r, 0, 0, t.Pledge(r), 0, 0, t.Pledge(r));
    }
  }

  lemma WritePledge(t: Tables, r: Row, amount: int)
    requires amount >= 0
    ensures Changed(t, t.(pledge := t.pledge[r := amount]), r, 0, 0, amount)
    ensures Changed(t, t.(pledge := t.pledge - {r}), r, 0, 0, 0)
  {
  }

  /** Row `p` with new gold, or new diamonds, and the next version. */
  ghost function WithGold(t: Tables, p: string, gold: int): Tables
    requires p in t.capital
  {
    t.(capital := t.capital[p := t.capital[p].(gold := gold, version := t.capital[p].version + 1)])
  }

  ghost function WithDiamond(t: Tables, p: string, diamond: int): Tables
    requires p in t.capital
  {
    t.(capital := t.capital[p := t.capital[p].(diamond := diamond, version := t.capital[p].version + 1)])
  }

  lemma GoldWritten(s: Tables, t: Tables, p: string, gold: int, r: Row)
    requires Same(s, t, r) && p in t.capital && r.0 == p
    ensures p in s.capital && s.capital[p].version <= t.capital[p].version && t.pledge == s.pledge
    ensures s.capital[p].version == t.capital[p].version ==>
              Moved(s, WithGold(t, p, gold), r, gold - s.capital[p].gold, 0, s.Pledge(r), gold >= 0)
  {
    assert t.pledge == s.pledge && Versioned(s, t);
    if s.capital[p].version == t.capital[p].version {
      var u := WithGold(t, p, gold);
      assert t.capital[p] == s.capital[p];
      WriteRow(t, p, u.capital[p], r);
      assert Moved(t, u, r, gold - t.capital[p].gold, 0, t.Pledge(r), gold >= 0);
      hide Moved;
      MovedTransitive(s, t, u, r, 0, 0, s.Pledge(r), gold - t.capital[p].gold, 0, t.Pledge(r), gold >= 0);
    }
  }

  lemma DiamondWritten(s: Tables, t: Tables, p: string, diamond: int, r: Row)
    requires Same(s, t, r) && p in t.capital && r.0 == p
    ensures p in s.capital && s.capital[p].version <= t.capital[p].version && t.pledge == s.pledge
    ensures s.capital[p].version == t.capital[p].version ==>
              Moved(s, WithDiamond(t, p, diamond), r, 0, diamond - s.capital[p].diamond, s.Pledge(r), diamond >= 0)
  {
    assert t.pledge == s.pledge && Versioned(s, t);
    if s.capital[p].version == t.capital[p].version {
      var u := WithDiamond(t, p, diamond);
      assert t.capital[p] == s.capital[p];
      WriteRow(t, p, u.capital[p], r);
      assert Moved(t, u, r, 0, diamond - t.capital[p].diamond, t.Pledge(r), diamond >= 0);
      hide Moved;
      MovedTransitive(s, t, u, r, 0, 0, s.Pledge(r), 0, diamond - t.capital[p].diamond, t.Pledge(r), diamond >= 0);
    }
  }

  class Database {
    var capital: map<string, Capital>
    var pledge: map<Row, int>
    ghost var otherGold: map<string, int>
    ghost var otherDiamond: map<string, int>

    /** What will happen at the statements to come; when it is used up, all is quiet. */
    var env: seq<Turn>

    ghost function Now(): Tables
      reads this
    {
      Tables(capital, pledge, otherGold, otherDiamond)
    }

    ghost function Noise(): nat
      reads this
    {
      NoiseOf(env)
    }

    constructor (capital: map<string, Capital>, pledge: map<Row, int>, env: seq<Turn>)
      ensures Now() == Tables(capital, pledge, map[], map[]) && this.env == env
    {
      this.capital, this.pledge, this.env := capital, pledge, env;
      otherGold, otherDiamond := map[], map[];
    }

    /** One row is changed by somebody else. */
    method OtherWrite(w: Write)
      modifies this`capital, this`otherGold, this`otherDiamond
      ensures Now() == OtherChange(old(Now()), w)
    {
      if w.p in capital {
        ghost var s := Now();
        otherGold := otherGold[w.p := w.gold - s.OwnGold(w.p)];
        otherDiamond := otherDiamond[w.p := w.diamond - s.OwnDiamond(w.p)];
        capital := capital[w.p := Capital(w.gold, w.diamond, capital[w.p].version + 1)];
      }
    }

    /** The others write, and the answer to the next statement is known. */
    method Await(ghost r: Row) returns (ok: bool)
      modifies this
      ensures ok == First(old(env)).ok && env == Later(old(env)) && Now() == Seen(old(Now()), old(env))
      ensures Same(old(Now()), Now(), r)
      ensures Noise() <= old(Noise()) && (Noise() == old(Noise()) ==> ok && Now() == old(Now()))
    {
      var turn := First(env);
      ghost var s := Now();
      WrittenIsSame(s, turn.writes, r);
      hide Same;
      for i := 0 to |turn.writes|
        invariant Now() == Written(s, turn.writes[..i]) && env == old(env)
      {
        OtherWrite(turn.writes[i]);
        assert turn.writes[..i + 1][..i] == turn.writes[..i];
      }
      assert turn.writes[..|turn.writes|] == turn.writes;
      env := Later(env);
      ok := turn.ok;
    }

    /** `select gold, diamond, version from capital`. */
    method SelectCapital(p: string, ghost r: Row) returns (ok: bool, row: Option<Capital>)
      modifies this
      ensures ok == First(old(env)).ok && env == Later(old(env)) && Now() == Seen(old(Now()), old(env))
      ensures row == if p in capital then Some(capital[p]) else None
      ensures Same(old(Now()), Now(), r)
      ensures Noise() <= old(Noise()) && (Noise() == old(Noise()) ==> ok && Now() == old(Now()))
    {
      ok := Await(r);
      row := if p in capital then Some(capital[p]) else None;
    }

    /** `update capital set gold, version + 1 where version`. */
    method UpdateGold(p: string, gold: int, version: int, ghost r: Row) returns (ok: bool, affected: nat)
      requires r.0 == p
      modifies this
      ensures ok == First(old(env)).ok && env == Later(old(env))
      ensures var t := Seen(old(Now()), old(env));
              && (affected > 0 <==> ok && p in t.capital && t.capital[p].version == version)
              && Now() == if affected > 0 then WithGold(t, p, gold) else t
      ensures affected == 0 ==> Same(old(Now()), Now(), r)
      ensures affected > 0 ==>
                && p in old(capital) && old(capital)[p].version <= version
                && (old(capital)[p].version == version ==>
                      && Moved(old(Now()), Now(), r, gold - old(capital)[p].gold, 0, old(Now()).Pledge(r), gold >= 0)
                      && pledge == old(pledge))
      ensures affected > 0 ==> p in capital && capital[p].gold == gold
      ensures Noise() <= old(Noise())
      ensures Noise() == old(Noise()) ==>
                && ok && otherGold == old(otherGold)
                && (affected > 0 <==> p in old(capital) && old(capital)[p].version == version)
    {
      hide Moved, Versioned, Seen, NoiseOf, Same, Written;
      ok := Await(r);
      affected := 0;
      if ok && p in capital && capital[p].version == version {
        GoldWritten(old(Now()), Now(), p, gold, r);
        capital := capital[p := capital[p].(gold := gold, version := version + 1)];
        affected := 1;
      }
    }

    /** `update capital set diamond, version + 1 where version`. */
    method UpdateDiamond(p: string, diamond: int, version: int, ghost r: Row) returns (ok: bool, affected: nat)
      requires r.0 == p
      modifies this
      ensures ok == First(old(env)).ok && env == Later(old(env))
      ensures var t := Seen(old(Now()), old(env));
              && (affected > 0 <==> ok && p in t.capital && t.capital[p].version == version)
              && Now() == if affected > 0 then WithDiamond(t, p, diamond) else t
      ensures affected == 0 ==> Same(old(Now()), Now(), r)
      ensures affected > 0 ==>
                && p in old(capital) && old(capital)[p].version <= version
                && (old(capital)[p].version == version ==>
                      && Moved(old(Now()), Now(), r, 0, diamond - old(capital)[p].diamond, old(Now()).Pledge(r),
                               diamond >= 0)
                      && pledge == old(pledge))
      ensures affected > 0 ==> p in capital && capital[p].diamond == diamond
      ensures Noise() <= old(Noise())
      ensures Noise() == old(Noise()) ==>
                ok && (affected > 0 <==> p in old(capital) && old(capital)[p].version == version)
    {
      hide Moved, Versioned, Seen, NoiseOf, Same, Written;
      ok := Await(r);
      affected := 0;
      if ok && p in capital && capital[p].version == version {
        DiamondWritten(old(Now()), Now(), p, diamond, r);
        capital := capital[p := capital[p].(diamond := diamond, version := version + 1)];
        affected := 1;
      }
    }

    /** `select amount from cash_pledge`, and `select count(*)`. */
    method SelectPledge(r: Row) returns (ok: bool, amount: Option<int>)
      modifies this
      ensures ok == First(old(env)).ok && env == Later(old(env)) && Now() == Seen(old(Now()), old(env))
      ensures amount == if r in pledge then Some(pledge[r]) else None
      ensures Same(old(Now()), Now(), r)
      ensures Noise() <= old(Noise()) && (Noise() == old(Noise()) ==> ok && Now() == old(Now()))
    {
      ok := Await(r);
      amount := if r in pledge then Some(pledge[r]) else None;
    }

    /** `insert` or `update` a row of `cash_pledge`. */
    method PutPledge(r: Row, amount: int) returns (ok: bool)
      requires amount >= 0
      modifies this
      ensures ok == First(old(env)).ok && env == Later(old(env))
      ensures var t := Seen(old(Now()), old(env)); Now() == if ok then t.(pledge := t.pledge[r := amount]) else t
      ensures !ok ==> Same(old(Now()), Now(), r)
      ensures ok ==> Changed(old(Now()), Now(), r, 0, 0, amount)
      ensures Noise() <= old(Noise())
      ensures Noise() == old(Noise()) ==> ok && capital == old(capital) && otherGold == old(otherGold)
    {
      ok := Await(r);
      ghost var s, t := old(Now()), Now();
      assert t.pledge == s.pledge && Versioned(s, t);
      hide Changed;
      if ok {
        pledge := pledge[r := amount];
        WritePledge(t, r, amount);
        ChangedTransitive(s, t, Now(), r, 0, 0, s.Pledge(r), 0, 0, amount);
      }
    }

    /** `delete from cash_pledge`. */
    method DeletePledge(r: Row) returns (ok: bool)
      modifies this
      ensures ok == First(old(env)).ok && env == Later(old(env))
      ensures var t := Seen(old(Now()), old(env)); Now() == if ok then t.(pledge := t.pledge - {r}) else t
      ensures !ok ==> Same(old(Now()), Now(), r)
      ensures ok ==> Changed(old(Now()), Now(), r, 0, 0, 0) && r !in pledge
      ensures Noise() <= old(Noise())
      ensures Noise() == old(Noise()) ==> ok && capital == old(capital) && otherGold == old(otherGold)
    {
      ok := Await(r);
      ghost var s, t := old(Now()), Now();
      assert t.pledge == s.pledge && Versioned(s, t);
      hide Changed;
      if ok {
        pledge := pledge - {r};
        WritePledge(t, r, 0);
        ChangedTransitive(s, t, Now(), r, 0, 0, s.Pledge(r), 0, 0, 0);
      }
    }
  }
}
