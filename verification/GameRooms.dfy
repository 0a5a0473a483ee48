/** Game rooms: the pledges that players leave when they join, and the seats they take. */
module GameRooms {
  import opened Options
  import opened GameDb
  import opened GameLedger
  import opened GameTurns
  import GameTopUp

  const RETRIES: nat := 10
  const MAX_SEAT_NUMS: nat := 20

  datatype Category = CategoryA | CategoryB

  class Avatar {
    const playerId: string
    var seat: int
    var gold: int
    var cashPledge: int

    constructor (playerId: string)
      ensures this.playerId == playerId && seat == -1 && gold == 0 && cashPledge == 0
    {
      this.playerId := playerId;
      seat, gold, cashPledge := -1, 0, 0;
    }
  }

  class GameRoom {
    const id: string
    const category: Category
    const maxPlayerNums: int
    const enableSpectator: bool
    const db: Database
    const avatarSeats: array<Avatar?>
    var cashPledge: int
    var diamondNeed: int
    var status: int
    var allAvatars: map<string, Avatar>
    var spectators: set<string>

    constructor (id: string, category: Category, maxPlayerNums: int, enableSpectator: bool, db: Database)
      requires maxPlayerNums <= MAX_SEAT_NUMS
      ensures this.id == id && this.category == category && this.maxPlayerNums == maxPlayerNums
      ensures this.enableSpectator == enableSpectator && this.db == db
      ensures fresh(avatarSeats)
      ensures Seated() && allAvatars == map[] && spectators == {} && cashPledge == 0 && diamondNeed == 0 && status == 0
    {
      this.id, this.category, this.maxPlayerNums := id, category, maxPlayerNums;
      this.enableSpectator, this.db := enableSpectator, db;
      avatarSeats := new Avatar?[MAX_SEAT_NUMS](_ => null);
      cashPledge, diamondNeed, status, allAvatars, spectators := 0, 0, 0, map[], {};
    }

    function Key(playerId: string): Row {
      (playerId, id)
    }

    // ----- pledges -----

    /** Sets the pledge record of a player in this room, or deletes it. */
    method UpdateCashPledge(playerId: string, amount: int) returns (ok: bool)
      modifies db
      ensures GameTopUp.SetPledge(old(db.Now()), old(db.env), Key(playerId), amount)
           == GameTopUp.PledgeReply(db.Now(), db.env, ok)
      ensures ok ==> Changed(old(db.Now()), db.Now(), Key(playerId), 0, 0, Stored(amount))
      ensures ok ==> if amount > 0 then Key(playerId) in db.pledge && db.pledge[Key(playerId)] == amount
                     else Key(playerId) !in db.pledge
      ensures !ok ==> Same(old(db.Now()), db.Now(), Key(playerId))
      ensures db.Noise() <= old(db.Noise())
      ensures db.Noise() == old(db.Noise()) ==> ok && db.capital == old(db.capital) && db.otherGold == old(db.otherGold)
    {
      var r := Key(playerId);
      GameTopUp.SetPledgeEffect(db.Now(), db.env, r, amount);
      hide Moved, NoiseOf, Seen;
      var found, row := db.SelectPledge(r);
      if !found {
        return false;
      }
      if amount > 0 {
        ok := db.PutPledge(r, amount);
      } else if row.Some? {
        ok := db.DeletePledge(r);
      } else {
        return true;
      }
    }

    /** One attempt to add `cash` to the player's gold. */
    method TryPayBack(playerId: string, cash: int) returns (paid: bool, retry: bool)
      requires cash > 0
      modifies db
      ensures paid ==>
                && Changed(old(db.Now()), db.Now(), Key(playerId), cash, 0, old(db.Now()).Pledge(Key(playerId)))
                && !retry
      ensures !paid ==> Same(old(db.Now()), db.Now(), Key(playerId))
      ensures db.Noise() <= old(db.Noise())
      ensures db.Noise() == old(db.Noise()) ==> (paid <==> playerId in old(db.capital))
      ensures paid <==> playerId in old(db.capital) && PairHits(old(db.env), 0, 0, playerId)
      ensures retry ==> AllOk(old(db.env), 2) && db.env == Skip(old(db.env), 2)
      ensures !paid && !retry ==> !AllOk(old(db.env), 2)
    {
      hide Seen, NoiseOf;
      var r := Key(playerId);
      ghost var s, env := db.Now(), db.env;
      ReadThenUpdate(s, env, playerId);
      paid, retry := false, false;
      var read, row := db.SelectCapital(playerId, r);
      if !read {
        return;
      }
      var gold := (if row.Some? then row.value.gold else 0) + cash;
      var version := if row.Some? then row.value.version else 0;
      ghost var u := db.Now();
      assert u.Pledge(r) == s.Pledge(r) && u.capital.Keys == s.capital.Keys;
      assert row.Some? ==> row.value == u.capital[playerId] && (u.Sound() ==> gold >= 0);
      hide Moved;
      var written, affected := db.UpdateGold(playerId, gold, version, r);
      if written && affected > 0 {
        SafeAnyway(u, db.Now(), r, cash, 0, s.Pledge(r), gold >= 0);
        SameThen(s, u, db.Now(), r, cash, 0, s.Pledge(r));
        return true, false;
      }
      ThenSame(s, u, db.Now(), r, 0, 0, s.Pledge(r));
      retry := written;
    }

    /** Adds `cash` to the player's gold, in up to ten attempts: exactly if one of them finds everything in order
        and nobody else writing between its read and its update. */
    method PayBack(playerId: string, cash: int) returns (paid: bool)
      requires cash > 0
      modifies db
      ensures paid ==> Changed(old(db.Now()), db.Now(), Key(playerId), cash, 0, old(db.Now()).Pledge(Key(playerId)))
      ensures !paid ==> Same(old(db.Now()), db.Now(), Key(playerId))
      ensures db.Noise() <= old(db.Noise())
      ensures db.Noise() == old(db.Noise()) ==> (paid <==> playerId in old(db.capital))
      ensures paid <==> playerId in old(db.capital) && exists i: nat :: i < 10 && PairHits(old(db.env), 0, i, playerId)
    {
      var r := Key(playerId);
      ghost var s, env, account := db.Now(), db.env, playerId in db.capital;
      ChangedReflexive(s, r);
      TriedNothing(env, playerId, account);
      for i := 0 to RETRIES
        invariant Same(s, db.Now(), r) && db.Noise() <= old(db.Noise())
        invariant db.Noise() == old(db.Noise()) ==> i == 0 || !account
        invariant Tried(env, i, db.env, playerId, account)
      {
        ghost var u := db.Now();
        assert u.Pledge(r) == s.Pledge(r) && u.capital.Keys == s.capital.Keys;
        TriedMore(env, i, db.env, playerId, account);
        hide NoiseOf, Moved, PairHits, AllOk, Skip, Tried;
        var retry;
        paid, retry := TryPayBack(playerId, cash);
        if paid {
          SameThen(s, u, db.Now(), r, cash, 0, s.Pledge(r));
          return;
        }
        ThenSame(s, u, db.Now(), r, 0, 0, s.Pledge(r));
        if !retry {
          assert account ==> NoPair(env, 10, playerId);
          return;
        }
      }
      assert account ==> NoPair(env, 10, playerId);
      return false;
    }

    /** Reads and deletes the pledge record of a player. */
    method TakeRecord(playerId: string) returns (ok: bool, cash: int)
      modifies db
      ensures ok ==>
                && cash == old(db.Now()).Pledge(Key(playerId))
                && Changed(old(db.Now()), db.Now(), Key(playerId), 0, 0, 0)
      ensures !ok ==> Same(old(db.Now()), db.Now(), Key(playerId))
      ensures db.Noise() <= old(db.Noise()) && (db.Noise() == old(db.Noise()) ==> ok && db.capital == old(db.capital))
      ensures ok <==> AllOk(old(db.env), 2)
      ensures ok ==> db.env == Skip(old(db.env), 2)
    {
      hide Seen, NoiseOf;
      var r := Key(playerId);
      ghost var s := db.Now();
      ReadThenUpdate(s, db.env, playerId);
      var found, amount := db.SelectPledge(r);
      if !found {
        return false, 0;
      }
      cash := if amount.Some? then amount.value else 0;
      ghost var t := db.Now();
      ok := db.DeletePledge(r);
      if ok {
        SameThen(s, t, db.Now(), r, 0, 0, 0);
      } else {
        ThenSame(s, t, db.Now(), r, 0, 0, s.Pledge(r));
      }
    }

    /** Turns a player's pledge back into gold.  `owed` is the amount that the log says must still be
        given back. */
    method ReturnCashPledge(playerId: string) returns (ok: bool, owed: int)
      requires db.Now().Records()
      modifies db
      ensures Returned(old(db.Now()), db.Now(), Key(playerId), db.Noise() == old(db.Noise()), ok, owed)
      ensures db.Noise() <= old(db.Noise())
      ensures ok <==> && AllOk(old(db.env), 2)
                      && (|| old(db.Now()).Pledge(Key(playerId)) == 0
                          || (playerId in old(db.capital)
                              && exists i: nat :: i < 10 && PairHits(old(db.env), 2, i, playerId)))
    {
      hide Seen, NoiseOf, PairHits, AllOk, Skip;
      var r := Key(playerId);
      ghost var s := db.Now();
      PairsAfterTwo(db.env, playerId);
      var taken, cash := TakeRecord(playerId);
      if !taken {
        return false, 0;
      }
      ghost var u := db.Now();
      assert cash == s.Pledge(r) >= 0 && u.Pledge(r) == 0 && u.capital.Keys == s.capital.Keys;
      hide Moved;
      if cash <= 0 {
        return true, 0;
      }
      var paid := PayBack(playerId, cash);
      if paid {
        ChangedTransitive(s, u, db.Now(), r, 0, 0, 0, cash, 0, 0);
        RecordAfter(u, db.Now(), r, cash, 0);
        return true, 0;
      }
      ThenSame(s, u, db.Now(), r, 0, 0, 0);
      RecordAfter(u, db.Now(), r, 0, 0);
      return false, cash;
    }

    /** Moves the missing part of the pledge from the player's gold, read as `row`, to the pledge record. */
    method PlacePledge(playerId: string, held: int, row: Capital) returns (ok: bool, owed: int)
      requires playerId in db.capital && db.capital[playerId] == row
      requires 0 <= held == db.Now().Pledge(Key(playerId)) < cashPledge && cashPledge - held <= row.gold
      modifies db
      ensures Joined(old(db.Now()), db.Now(), Key(playerId), cashPledge, ok, owed)
      ensures db.Noise() <= old(db.Noise())
      ensures db.Noise() == old(db.Noise()) ==> ok && db.otherGold == old(db.otherGold)
    {
      hide Seen, NoiseOf, Moved;
      var r := Key(playerId);
      ghost var s := db.Now();
      var delta := cashPledge - held;
      var written, affected := db.UpdateGold(playerId, row.gold - delta, row.version, r);
      if !written || affected < 1 {
        return false, 0;
      }
      ghost var v := db.Now();
      SafeAnyway(s, v, r, -delta, 0, held, row.gold - delta >= 0);
      ok := UpdateCashPledge(playerId, cashPledge);
      PledgePlaced(s, v, db.Now(), r, cashPledge, ok);
      owed := if ok then 0 else delta;
    }

    /** Reads what joining needs to know: the pledge held already, if one is asked for, and the capital. */
    method ReadForJoin(playerId: string) returns (ok: bool, held: int, capital: Option<Capital>)
      modifies db
      ensures Same(old(db.Now()), db.Now(), Key(playerId))
      ensures ok ==> held == if 0 < cashPledge then db.Now().Pledge(Key(playerId)) else 0
      ensures ok && (held < cashPledge || 0 < diamondNeed) ==>
                capital == if playerId in db.capital then Some(db.capital[playerId]) else None
      ensures ok && !(held < cashPledge || 0 < diamondNeed) ==> capital == None
      ensures db.Noise() <= old(db.Noise()) && (db.Noise() == old(db.Noise()) ==> ok && db.Now() == old(db.Now()))
    {
      hide Seen, NoiseOf;
      var r := Key(playerId);
      ghost var s := db.Now();
      ChangedReflexive(s, r);
      ok, held, capital := false, 0, None;
      if cashPledge > 0 {
        var found, amount := db.SelectPledge(r);
        if !found {
          return;
        }
        held := if amount.Some? then amount.value else 0;
      }
      ghost var t := db.Now();
      if held < cashPledge || diamondNeed > 0 {
        var read, row := db.SelectCapital(playerId, r);
        ThenSame(s, t, db.Now(), r, 0, 0, s.Pledge(r));
        if !read {
          return;
        }
        capital := row;
      }
      ok := true;
    }

    /** Takes the pledge that this room asks for when a player joins.  `held` is the pledge of the
        player's avatar; `owed` is the amount that the log says must be given back. */
    method TakePledge(playerId: string) returns (ok: bool, held: int, owed: int)
      requires db.Now().Records()
      modifies db
      ensures Joined(old(db.Now()), db.Now(), Key(playerId), cashPledge, ok, owed)
      ensures ok && 0 < cashPledge ==> held == db.Now().Pledge(Key(playerId))
      ensures db.Noise() <= old(db.Noise())
      ensures db.Noise() == old(db.Noise()) ==>
                && db.otherGold == old(db.otherGold)
                && (ok <==> old(CanJoin(db.Now(), Key(playerId), cashPledge, diamondNeed)))
    {
      hide Seen, NoiseOf;
      var r := Key(playerId);
      ghost var s := db.Now();
      var read, capital;
      read, held, capital := ReadForJoin(playerId);
      ok, owed := false, 0;
      if !read {
        return;
      }
      ghost var u := db.Now();
      assert u.Records() && u.Pledge(r) == s.Pledge(r);
      NothingJoined(u, r, cashPledge);
      SameJoined(s, u, u, r, cashPledge, false, 0);
      hide Joined, Same;
      var gold := if capital.Some? then capital.value.gold else 0;
      var diamond := if capital.Some? then capital.value.diamond else 0;
      if diamondNeed > 0 && diamond < diamondNeed {
        return;
      }
      if held < cashPledge {
        if gold < cashPledge - held {
          return;
        }
        ok, owed := PlacePledge(playerId, held, capital.value);
        SameJoined(s, u, db.Now(), r, cashPledge, ok, owed);
        if ok {
          held := cashPledge;
        }
        return;
      }
      SameJoined(s, u, u, r, cashPledge, true, 0);
      ok := true;
    }

    /** Writes the pledge record and then, if the capital row is still as it was read, the gold. */
    method CommitDeduct(avatar: Avatar, gold: int, target: int, version: int) returns (retry: bool, applied: bool)
      modifies db, avatar`gold, avatar`cashPledge
      ensures var c := GameTopUp.Commit(old(db.Now()), old(db.env), Key(avatar.playerId), gold, target, version);
              db.Now() == c.db && db.env == c.env && retry == c.retry && applied == c.applied
      ensures applied ==> avatar.cashPledge == target && avatar.gold == gold == db.Now().Gold(avatar.playerId)
      ensures !applied ==> avatar.cashPledge == old(avatar.cashPledge) && avatar.gold == old(avatar.gold)
    {
      hide GameTopUp.SetPledge, Moved, NoiseOf, Seen;
      retry, applied := false, false;
      var updated := UpdateCashPledge(avatar.playerId, target);
      if !updated {
        return;
      }
      var written, affected := db.UpdateGold(avatar.playerId, gold, version, Key(avatar.playerId));
      if written && affected > 0 {
        avatar.gold := gold;
        avatar.cashPledge := target;
        return false, true;
      }
      retry := written;
    }

    /** One attempt to bring the pledge of `avatar` up to `goldNeed`, or, for a player who cannot pay and
        is to be kicked, to pay the whole pledge out.  The pledge record is written first, the gold second. */
    method TryDeduct(avatar: Avatar, goldNeed: int, kick: bool) returns (ok: bool, retry: bool, applied: bool)
      requires avatar.cashPledge < goldNeed
      modifies db, avatar`gold, avatar`cashPledge
      ensures GameTopUp.Once(old(db.Now()), old(db.env), Key(avatar.playerId), old(avatar.cashPledge), goldNeed, kick)
           == GameTopUp.Attempt(db.Now(), db.env, avatar.cashPledge, ok, retry, applied)
      ensures if applied then avatar.gold == db.Now().Gold(avatar.playerId) else avatar.gold == old(avatar.gold)
    {
      hide GameTopUp.Commit, NoiseOf, Seen;
      var r := Key(avatar.playerId);
      ok, retry, applied := false, false, false;
      var cash := avatar.cashPledge;
      var delta := goldNeed - cash;
      var read, row := db.SelectCapital(avatar.playerId, r);
      if !read || row.None? {
        return;
      }
      assert row.value == db.capital[avatar.playerId];
      hide Moved;
      var enough := row.value.gold >= delta;
      if !enough && !kick {
        return;
      }
      var gold := if enough then row.value.gold - delta else row.value.gold + cash;
      retry, applied := CommitDeduct(avatar, gold, if enough then goldNeed else 0, row.value.version);
      ok := enough && applied;
    }

    /** Brings the pledge of `avatar` up to `goldNeed`, in up to ten attempts: it succeeds if one of them goes well,
        with gold enough at every read until then, and only then (unless a player who is to be kicked could not pay
        at some read).  Gold moves exactly when the
        avatar's own pledge does, and by the same amount; but a failing exit can leave the pledge record
        at the new amount, or deleted, without gold having moved. */
    method DeductCashPledge(avatar: Avatar?, goldNeed: int, kick: bool) returns (ok: bool, applied: bool)
      modifies db, avatar
      ensures avatar == null ==> !ok && db.Now() == old(db.Now())
      ensures avatar != null ==>
                var o := GameTopUp.TopUp(old(db.Now()), old(db.env), Key(avatar.playerId), old(avatar.cashPledge),
                                         goldNeed, kick, RETRIES);
                && db.Now() == o.db && db.env == o.env && avatar.cashPledge == o.pledge && ok == o.ok
                && applied == o.applied
      ensures avatar != null ==>
                && avatar.seat == old(avatar.seat)
                && if applied then avatar.gold == db.Now().Gold(avatar.playerId) else avatar.gold == old(avatar.gold)
      ensures avatar != null && old(avatar.cashPledge) >= goldNeed ==>
                ok && !applied && db.Now() == old(db.Now()) && avatar.cashPledge == old(avatar.cashPledge)
      ensures avatar != null && old(avatar.cashPledge) < goldNeed ==>
                Deducted(old(db.Now()), db.Now(), Key(avatar.playerId), old(avatar.cashPledge), avatar.cashPledge,
                         goldNeed, kick, db.Noise() == old(db.Noise()), ok, applied)
      ensures avatar != null && old(avatar.cashPledge) < goldNeed && db.Noise() == old(db.Noise()) ==>
                && (ok <==> && avatar.playerId in old(db.capital)
                            && old(db.Now()).Gold(avatar.playerId) >= goldNeed - old(avatar.cashPledge))
                && (applied <==> avatar.playerId in old(db.capital) && (ok || kick))
      ensures avatar != null && 0 < goldNeed && old(avatar.cashPledge) < goldNeed ==>
                var p, a := avatar.playerId, old(avatar.cashPledge);
                var s, env := old(db.Now()), old(db.env);
                var goes := p in s.capital && exists i: nat :: i < 10 && GoldGoes(s, env, i, p, a, goldNeed);
                && (goes ==> ok)
                && (ok && (!kick || forall k: nat :: k < 10 ==> HasGold(s, env, k, p, a, goldNeed)) ==> goes)
      ensures db.Noise() <= old(db.Noise())
    {
      hide GameTopUp.Once, NoiseOf, Moved, Deducted;
      applied := false;
      if avatar == null {
        return false, false;
      }
      if avatar.cashPledge >= goldNeed {
        return true, false;
      }
      ghost var r, s, cash, env := Key(avatar.playerId), db.Now(), avatar.cashPledge, db.env;
      GameTopUp.TopUpDeducts(s, env, r, cash, goldNeed, kick, RETRIES);
      if 0 < goldNeed {
        GameTopUp.TopUpByTurns(s, env, r, cash, goldNeed, kick, RETRIES);
      }
      hide GoldGoes, HasGold;
      for i := 0 to RETRIES
        invariant avatar.cashPledge == cash && avatar.seat == old(avatar.seat) && avatar.gold == old(avatar.gold)
        invariant GameTopUp.TopUp(db.Now(), db.env, r, cash, goldNeed, kick, RETRIES - i)
               == GameTopUp.TopUp(s, env, r, cash, goldNeed, kick, RETRIES)
      {
        GameTopUp.OnceRetries(db.Now(), db.env, r, cash, goldNeed, kick);
        var retry;
        ok, retry, applied := TryDeduct(avatar, goldNeed, kick);
        if !retry {
          return;
        }
      }
      return false, false;
    }

    /** One attempt to take the diamonds that a game costs; `left` is what the last attempt would have left. */
    method TryDiamond(playerId: string, left: int) returns (ok: bool, retry: bool, diamond: int)
      modifies db
      ensures ok ==>
                && Changed(old(db.Now()), db.Now(), Key(playerId), 0, -diamondNeed, old(db.Now()).Pledge(Key(playerId)))
                && playerId in db.capital && diamond == db.capital[playerId].diamond && !retry
      ensures !ok ==> Same(old(db.Now()), db.Now(), Key(playerId))
      ensures db.Noise() <= old(db.Noise())
      ensures db.Noise() == old(db.Noise()) ==>
                && !retry
                && (ok <==> && playerId in old(db.capital)
                            && (diamondNeed == 0 || diamondNeed <= old(db.capital)[playerId].diamond))
      ensures diamondNeed == 0 ==> !retry && (ok <==> playerId in old(db.capital) && AllOk(old(db.env), 1))
      ensures diamondNeed != 0 ==>
                (ok <==> && playerId in old(db.capital) && PairHits(old(db.env), 0, 0, playerId)
                         && HasDiamonds(old(db.Now()), old(db.env), 0, playerId, diamondNeed))
      ensures retry ==>
                && AllOk(old(db.env), 2) && HasDiamonds(old(db.Now()), old(db.env), 0, playerId, diamondNeed)
                && db.env == Skip(old(db.env), 2) && db.Now() == Others(old(db.Now()), old(db.env), 2)
      ensures !ok && !retry && diamondNeed != 0 && playerId in old(db.capital) ==>
                !(AllOk(old(db.env), 2) && HasDiamonds(old(db.Now()), old(db.env), 0, playerId, diamondNeed))
    {
      hide Seen, NoiseOf;
      var r := Key(playerId);
      ghost var s := db.Now();
      ReadThenUpdate(s, db.env, playerId);
      ok, retry, diamond := false, false, left;
      var read, row := db.SelectCapital(playerId, r);
      if !read || row.None? {
        return;
      }
      if diamondNeed == 0 {
        return true, false, row.value.diamond;
      }
      if diamondNeed > row.value.diamond {
        return;
      }
      diamond := row.value.diamond - diamondNeed;
      ghost var u := db.Now();
      assert u.Pledge(r) == s.Pledge(r) && u.capital[playerId] == row.value;
      hide Moved;
      var written, affected := db.UpdateDiamond(playerId, diamond, row.value.version, r);
      if written && affected > 0 {
        SameThen(s, u, db.Now(), r, 0, -diamondNeed, s.Pledge(r));
        return true, false, diamond;
      }
      ThenSame(s, u, db.Now(), r, 0, 0, s.Pledge(r));
      retry := written;
    }

    /** Attempt `i`, told from the state `s` and the turns `env` before the first one. */
    method NextDiamond(playerId: string, left: int, ghost s: Tables, ghost env: seq<Turn>, ghost i: nat,
                       ghost account: bool)
      returns (ok: bool, retry: bool, diamond: int)
      requires Same(s, db.Now(), Key(playerId)) && account == (playerId in s.capital)
      requires TriedDiamonds(s, env, i, db.Now(), db.env, playerId, diamondNeed, account)
      requires i == 0 || diamondNeed != 0
      modifies db
      ensures ok ==> Changed(s, db.Now(), Key(playerId), 0, -diamondNeed, s.Pledge(Key(playerId)))
      ensures ok ==> playerId in db.capital && diamond == db.capital[playerId].diamond && !retry
      ensures !ok ==> Same(s, db.Now(), Key(playerId))
      ensures db.Noise() <= old(db.Noise()) && (db.Noise() == old(db.Noise()) ==> !retry)
      ensures db.Noise() == old(db.Noise()) ==>
                (ok <==> && playerId in old(db.capital)
                         && (diamondNeed == 0 || diamondNeed <= old(db.capital)[playerId].diamond))
      ensures i == 0 && diamondNeed == 0 ==> !retry && (ok <==> account && AllOk(env, 1))
      ensures ok && diamondNeed != 0 ==> account && DiamondsGo(s, env, i, playerId, diamondNeed)
      ensures retry ==>
                diamondNeed != 0 && TriedDiamonds(s, env, i + 1, db.Now(), db.env, playerId, diamondNeed, account)
      ensures !ok && !retry && diamondNeed != 0 && account ==> NoDiamonds(s, env, 10, playerId, diamondNeed)
    {
      var r := Key(playerId);
      ghost var u := db.Now();
      SameMeans(s, u, r);
      TriedMoreDiamonds(s, env, i, u, db.env, playerId, diamondNeed, account);
      TriedStart(s, env, i, u, db.env, playerId, diamondNeed, account);
      hide Same, Moved, Changed, NoiseOf, PairHits, AllOk, Skip, TriedDiamonds, HasDiamonds, Others, DiamondsGo;
      hide NoDiamonds;
      ok, retry, diamond := TryDiamond(playerId, left);
      if ok {
        SameThen(s, u, db.Now(), r, 0, -diamondNeed, s.Pledge(r));
      } else {
        SameTwice(s, u, db.Now(), r);
      }
    }

    /** Takes the diamonds that a game costs, in up to ten attempts: exactly if one of them goes well, with diamonds
        enough at every read until then. */
    method DeductDiamond(playerId: string) returns (ok: bool, diamond: int)
      modifies db
      ensures ok ==>
                var r := Key(playerId);
                Changed(old(db.Now()), db.Now(), r, 0, -diamondNeed, old(db.Now()).Pledge(r))
      ensures !ok ==> Same(old(db.Now()), db.Now(), Key(playerId))
      ensures ok ==> playerId in db.capital && diamond == db.capital[playerId].diamond
      ensures db.Noise() <= old(db.Noise())
      ensures db.Noise() == old(db.Noise()) ==>
                (ok <==> && playerId in old(db.capital)
                         && (diamondNeed == 0 || diamondNeed <= old(db.capital)[playerId].diamond))
      ensures diamondNeed == 0 ==> (ok <==> playerId in old(db.capital) && AllOk(old(db.env), 1))
      ensures diamondNeed != 0 ==>
                (ok <==> && playerId in old(db.capital)
                         && exists i: nat :: i < 10 && DiamondsGo(old(db.Now()), old(db.env), i, playerId, diamondNeed))
    {
      ghost var s, env, account := db.Now(), db.env, playerId in db.capital;
      ChangedReflexive(s, Key(playerId));
      TriedNoDiamonds(s, env, playerId, diamondNeed, account);
      hide Same, Moved, Changed, NoiseOf, AllOk, TriedDiamonds, DiamondsGo;
      diamond := 0;
      for i := 0 to RETRIES
        invariant Same(s, db.Now(), Key(playerId)) && db.Noise() <= old(db.Noise())
        invariant i == 0 ==> db.Now() == s && db.env == env
        invariant i > 0 ==> diamondNeed != 0 && db.Noise() < old(db.Noise())
        invariant TriedDiamonds(s, env, i, db.Now(), db.env, playerId, diamondNeed, account)
      {
        var retry;
        ok, retry, diamond := NextDiamond(playerId, diamond, s, env, i, account);
        if !retry {
          return;
        }
      }
      TriedInVain(s, env, RETRIES, db.Now(), db.env, playerId, diamondNeed, account);
      return false, diamond;
    }

    // ----- seats -----

    /** In a room of category A, avatars and occupied seats are in bijection; in category B nobody has a seat. */
    ghost predicate Seated()
      reads this`allAvatars, avatarSeats, allAvatars.Values`seat
    {
      && maxPlayerNums <= MAX_SEAT_NUMS == avatarSeats.Length
      && (forall p <- allAvatars ::
            && allAvatars[p].playerId == p
            && if category == CategoryA then
                 0 <= allAvatars[p].seat < maxPlayerNums && avatarSeats[allAvatars[p].seat] == allAvatars[p]
               else
                 allAvatars[p].seat == -1)
      && (forall i :: 0 <= i < MAX_SEAT_NUMS && avatarSeats[i] != null ==>
            && category == CategoryA && i < maxPlayerNums
            && avatarSeats[i].playerId in allAvatars
            && allAvatars[avatarSeats[i].playerId] == avatarSeats[i]
            && avatarSeats[i].seat == i)
    }

    ghost predicate Free(seat: int)
      reads this, avatarSeats
    {
      if category == CategoryA then 0 <= seat < maxPlayerNums && seat < avatarSeats.Length && avatarSeats[seat] == null
      else seat == -1
    }

    /** The lowest free seat, or -1. */
    method GetEmptySeat() returns (seat: int)
      requires Seated()
      ensures seat == -1 || Free(seat)
      ensures category == CategoryA ==>
                forall i :: 0 <= i < (if seat == -1 then maxPlayerNums else seat) ==> avatarSeats[i] != null
    {
      if category == CategoryA {
        var i := 0;
        while i < maxPlayerNums
          invariant 0 <= i <= (if 0 < maxPlayerNums then maxPlayerNums else 0)
          invariant forall k :: 0 <= k < i ==> avatarSeats[k] != null
        {
          if avatarSeats[i] == null {
            return i;
          }
          i := i + 1;
        }
      }
      return -1;
    }

    /** Counting avatars finds out whether every seat is taken. */
    method IsFull() returns (full: bool)
      requires Seated()
      ensures full <==> category == CategoryA && 0 < maxPlayerNums && !exists i :: Free(i)
    {
      if category != CategoryA || maxPlayerNums <= 0 {
        return false;
      }
      ghost var seats := map p | p in allAvatars :: allAvatars[p].seat;
      assert seats.Keys == allAvatars.Keys;
      SeatsTaken(seats, maxPlayerNums);
      forall i | 0 <= i < maxPlayerNums ensures avatarSeats[i] != null <==> i in seats.Values {
        if avatarSeats[i] != null {
          assert avatarSeats[i].playerId in seats;
        }
      }
      full := maxPlayerNums <= |allAvatars|;
      if full {
        forall i ensures !Free(i) {
          if 0 <= i < maxPlayerNums {
            assert avatarSeats[i] != null;
          }
        }
      } else {
        var i :| 0 <= i < maxPlayerNums && avatarSeats[i] == null;
        assert Free(i);
      }
    }

    /** The room is full exactly when it has no empty seat, if and only if it is of category A and has seats. */
    method FullOrFree() returns (full: bool, seat: int)
      requires Seated()
      ensures (full <==> seat == -1) <==> category == CategoryA && 0 < maxPlayerNums
    {
      full := IsFull();
      seat := GetEmptySeat();
      if category == CategoryA && 0 < maxPlayerNums {
        if seat != -1 {
          assert Free(seat);
        }
      }
    }

    predicate HasPlayer(playerId: string)
      reads this
    {
      playerId in allAvatars || (category == CategoryA && playerId in spectators)
    }

    /** Puts a new avatar on a seat and into the room. */
    method Sit(avatar: Avatar, seat: int)
      requires Seated() && Free(seat) && avatar.playerId !in allAvatars && avatar.seat == -1
      modifies this`allAvatars, avatarSeats, avatar`seat
      ensures Seated() && avatar.seat == seat
      ensures allAvatars == old(allAvatars)[avatar.playerId := avatar]
      ensures avatarSeats[..] == if seat == -1 then old(avatarSeats[..]) else old(avatarSeats[..])[seat := avatar]
    {
      if seat > -1 {
        avatar.seat := seat;
        avatarSeats[seat] := avatar;
      }
      allAvatars := allAvatars[avatar.playerId := avatar];
    }

    /** Clearing the avatar's seat and forgetting its player leaves no seat and no avatar without the other. */
    ghost predicate InPlace(avatar: Avatar)
      requires category == CategoryA ==> 0 <= avatar.seat < avatarSeats.Length
      reads this, avatarSeats, avatar`seat, allAvatars.Values`seat
    {
      || category == CategoryB
      || if avatar.playerId in allAvatars then allAvatars[avatar.playerId].seat == avatar.seat
         else avatarSeats[avatar.seat] == null
    }

    /** Clears the seat that the avatar says it has, and forgets the avatar of its player. */
    method Unseat(avatar: Avatar)
      requires Seated() && (category == CategoryA ==> 0 <= avatar.seat < MAX_SEAT_NUMS)
      modifies this`allAvatars, avatarSeats
      ensures Seated() <==> old(InPlace(avatar))
      ensures allAvatars == old(allAvatars) - {avatar.playerId}
      ensures avatarSeats[..]
           == if category == CategoryA then old(avatarSeats[..])[avatar.seat := null] else old(avatarSeats[..])
    {
      ghost var p, k := avatar.playerId, avatar.seat;
      ghost var taken := category == CategoryA && avatarSeats[k] != null;
      ghost var other := if taken then avatarSeats[k].playerId else p;
      if category == CategoryA {
        avatarSeats[avatar.seat] := null;
      }
      allAvatars := allAvatars - {avatar.playerId};
      if !old(InPlace(avatar)) {
        if p in old(allAvatars) {
          assert avatarSeats[old(allAvatars)[p].seat] != null;
        } else {
          assert other in allAvatars;
        }
      }
    }

    // ----- joining and leaving -----

    ghost function Pledges(): map<string, int>
      reads this`allAvatars, allAvatars.Values`cashPledge
    {
      map p | p in allAvatars :: allAvatars[p].cashPledge
    }

    ghost function Now(): Snap
      reads this, db, allAvatars.Values
    {
      Snap(db.Now(), Pledges())
    }

    /** Creates the avatar of a player who has paid. */
    method Admit(seat: int, playerId: string, held: int)
      requires Seated() && Free(seat) && playerId !in allAvatars
      modifies this`allAvatars, avatarSeats
      ensures Seated()
      ensures playerId in allAvatars && fresh(allAvatars[playerId]) && allAvatars[playerId].seat == seat
      ensures allAvatars == old(allAvatars)[playerId := allAvatars[playerId]]
      ensures Pledges() == old(Pledges())[playerId := if 0 < cashPledge then Narrow(held) else 0]
    {
      hide Seated;
      var avatar := new Avatar(playerId);
      Sit(avatar, seat);
      if cashPledge > 0 {
        avatar.cashPledge := Narrow(held);
      }
    }

    /** The player pays the pledge and gets an avatar; or nothing happens in the room. */
    method JoinGame(seat: int, playerId: string, mayJoin: bool) returns (ok: bool, owed: int)
      requires Seated() && Free(seat) && playerId !in allAvatars
      requires db.Now().Records()
      modifies this`allAvatars, avatarSeats, db
      ensures Seated()
      ensures Step(id, old(Now()), Join(playerId, cashPledge, ok, owed), Now())
      ensures !ok ==> allAvatars == old(allAvatars) && avatarSeats[..] == old(avatarSeats[..])
      ensures ok ==>
                && playerId in allAvatars && fresh(allAvatars[playerId]) && allAvatars[playerId].seat == seat
                && allAvatars == old(allAvatars)[playerId := allAvatars[playerId]]
      ensures db.Noise() <= old(db.Noise())
      ensures db.Noise() == old(db.Noise()) ==>
                && db.otherGold == old(db.otherGold)
                && (ok <==> mayJoin && old(CanJoin(db.Now(), Key(playerId), cashPledge, diamondNeed)))
    {
      hide Seated, Joined;
      ghost var s := Now();
      owed := 0;
      if !mayJoin {
        NothingJoined(db.Now(), Key(playerId), cashPledge);
        return false, 0;
      }
      var held;
      ok, held, owed := TakePledge(playerId);
      if !ok {
        assert Now().pledges == s.pledges;
        return;
      }
      Admit(seat, playerId, held);
    }

    /** Gives the pledge back and removes the avatar, whether the pledge could be given back or not. */
    method RemovePlayer(avatar: Avatar) returns (ok: bool, owed: int)
      requires Seated() && (category == CategoryA ==> 0 <= avatar.seat < MAX_SEAT_NUMS) && db.Now().Records()
      modifies this`allAvatars, avatarSeats, avatar`cashPledge, db
      ensures Seated() <==> old(InPlace(avatar))
      ensures Returned(old(db.Now()), db.Now(), Key(avatar.playerId), db.Noise() == old(db.Noise()), ok, owed)
      ensures avatar.playerId in old(allAvatars) ==>
                Step(id, old(Now()), Return(avatar.playerId, db.Noise() == old(db.Noise()), ok, owed), Now())
      ensures allAvatars == old(allAvatars) - {avatar.playerId}
      ensures category == CategoryA ==> avatarSeats[..] == old(avatarSeats[..])[avatar.seat := null]
      ensures db.Noise() <= old(db.Noise())
    {
      hide Seated, Returned;
      ok, owed := ReturnCashPledge(avatar.playerId);
      Dismiss(avatar, ok);
    }

    /** The avatar holds no pledge any more, if it was given back. */
    method Forgo(avatar: Avatar, returned: bool)
      requires forall p <- allAvatars :: allAvatars[p].playerId == p
      modifies avatar`cashPledge
      ensures avatar.cashPledge == if returned then 0 else old(avatar.cashPledge)
      ensures Pledges() - {avatar.playerId} == old(Pledges()) - {avatar.playerId}
    {
      if returned {
        avatar.cashPledge := 0;
      }
    }

    /** `Unseat` takes one pledge off. */
    method Vacate(avatar: Avatar)
      requires Seated() && (category == CategoryA ==> 0 <= avatar.seat < MAX_SEAT_NUMS)
      modifies this`allAvatars, avatarSeats
      ensures Seated() <==> old(InPlace(avatar))
      ensures Pledges() == old(Pledges()) - {avatar.playerId} && allAvatars == old(allAvatars) - {avatar.playerId}
      ensures avatarSeats[..]
           == if category == CategoryA then old(avatarSeats[..])[avatar.seat := null] else old(avatarSeats[..])
    {
      hide Seated, InPlace;
      Unseat(avatar);
    }

    /** The avatar leaves, without a pledge if it was given back. */
    method Dismiss(avatar: Avatar, returned: bool)
      requires Seated() && (category == CategoryA ==> 0 <= avatar.seat < MAX_SEAT_NUMS)
      modifies this`allAvatars, avatarSeats, avatar`cashPledge
      ensures Seated() <==> old(InPlace(avatar))
      ensures avatar.cashPledge == if returned then 0 else old(avatar.cashPledge)
      ensures Pledges() == old(Pledges()) - {avatar.playerId} && allAvatars == old(allAvatars) - {avatar.playerId}
      ensures avatarSeats[..]
           == if category == CategoryA then old(avatarSeats[..])[avatar.seat := null] else old(avatarSeats[..])
    {
      assert forall p <- allAvatars :: allAvatars[p].playerId == p;
      hide Seated, InPlace;
      Forgo(avatar, returned);
      hide Pledges;
      Vacate(avatar);
    }

    /** Lets a player in, as a spectator where the room has them and on the lowest free seat otherwise. */
    method OnEnter(playerId: string, mayEnter: bool, mayJoin: bool) returns (ok: bool, ghost events: seq<Event>)
      requires Seated() && db.Now().Records()
      modifies this`allAvatars, this`spectators, avatarSeats, db
      ensures Seated()
      ensures if events == [] then Now() == old(Now())
              else |events| == 1 && Step(id, old(Now()), events[0], Now()) && events[0].Join?
                   && events[0].p == playerId && events[0].ask == cashPledge && events[0].ok == ok
      ensures ok ==> playerId in allAvatars || playerId in spectators
      ensures var here := old(playerId in allAvatars || (category == CategoryA && playerId in spectators));
              var let := !here && status == 0 && mayEnter;
              && (events != [] <==> let && !enableSpectator && (category == CategoryA ==> old(exists i :: Free(i))))
              && spectators == old(spectators) + (if let && enableSpectator then {playerId} else {})
              && allAvatars.Keys == old(allAvatars.Keys) + (if events != [] && ok then {playerId} else {})
      ensures forall p <- allAvatars ::
                if p in old(allAvatars) then allAvatars[p] == old(allAvatars)[p] else fresh(allAvatars[p])
      ensures ok && !enableSpectator
              && !old(playerId in allAvatars || (category == CategoryA && playerId in spectators)) ==>
                && playerId in allAvatars
                && var seat := allAvatars[playerId].seat;
                   && old(Free(seat))
                   && (category == CategoryA ==> forall i :: 0 <= i < seat ==> old(avatarSeats[..])[i] != null)
      ensures !ok ==>
                && allAvatars == old(allAvatars) && spectators == old(spectators)
                && avatarSeats[..] == old(avatarSeats[..])
      ensures db.Noise() <= old(db.Noise())
      ensures db.Noise() == old(db.Noise()) ==>
                var s, held := old(db.Now()), old(db.Now()).Pledge(Key(playerId));
                var able := && (diamondNeed <= 0 || diamondNeed <= s.Diamond(playerId))
                            && (cashPledge <= 0 || cashPledge <= held || cashPledge - held <= s.Gold(playerId));
                && db.otherGold == old(db.otherGold)
                && (ok <==> || old(playerId in allAvatars || (category == CategoryA && playerId in spectators))
                            || (status == 0 && mayEnter
                                && (enableSpectator || (mayJoin && old(exists i :: Free(i)) && able))))
    {
      hide Seated, Step;
      events := [];
      if HasPlayer(playerId) {
        return true, [];
      }
      if status != 0 {
        return false, [];
      }
      var seat := -1;
      if !enableSpectator && category == CategoryA {
        seat := GetEmptySeat();
        if seat == -1 {
          return false, [];
        }
      }
      if !mayEnter {
        return false, [];
      }
      if enableSpectator {
        spectators := spectators + {playerId};
        return true, [];
      }
      var owed;
      ok, owed := JoinGame(seat, playerId, mayJoin);
      events := [Join(playerId, cashPledge, ok, owed)];
    }

    /** Lets a player go, if the game agrees. */
    method OnLeave(playerId: string, verdict: int) returns (code: int, ghost events: seq<Event>)
      requires Seated() && db.Now().Records()
      modifies this`allAvatars, this`spectators, avatarSeats, allAvatars.Values, db
      ensures Seated()
      ensures if playerId !in old(allAvatars) || verdict != 0 then events == [] && Now() == old(Now())
              else
                && |events| == 1 && events[0].Return? && events[0].p == playerId
                && events[0].calm == (db.Noise() == old(db.Noise())) && Step(id, old(Now()), events[0], Now())
      ensures db.Noise() <= old(db.Noise())
      ensures var here := old(playerId in allAvatars || (category == CategoryA && playerId in spectators));
              && code == (if here then verdict else 0)
              && spectators == old(spectators) - (if here && verdict == 0 then {playerId} else {})
      ensures allAvatars == if verdict == 0 then old(allAvatars) - {playerId} else old(allAvatars)
    {
      hide Seated, Step;
      NotThere(playerId);
      code, events := 0, [];
      if !HasPlayer(playerId) {
        return;
      }
      if verdict != 0 {
        return verdict, [];
      }
      spectators := spectators - {playerId};
      if playerId in allAvatars {
        ghost var e := Depart(playerId);
        events := [e];
      }
    }

    lemma NotThere(playerId: string)
      ensures playerId !in allAvatars ==> allAvatars - {playerId} == allAvatars
    {
    }

    /** The avatar of a player who is here goes. */
    method Depart(playerId: string) returns (ghost e: Event)
      requires Seated() && db.Now().Records() && playerId in allAvatars
      modifies this`allAvatars, avatarSeats, allAvatars.Values, db
      ensures Seated() && allAvatars == old(allAvatars) - {playerId}
      ensures e.Return? && e.p == playerId && e.calm == (db.Noise() == old(db.Noise()))
      ensures Step(id, old(Now()), e, Now()) && db.Noise() <= old(db.Noise())
    {
      assert allAvatars[playerId].playerId == playerId && InPlace(allAvatars[playerId]);
      hide Seated, Step, Returned;
      ghost var noise := db.Noise();
      var ok, owed := RemovePlayer(allAvatars[playerId]);
      e := Return(playerId, db.Noise() == noise, ok, owed);
    }

    /** Throws a player out.  The room stays in order exactly when the avatar sits where its player sits, or
        its player is not here and the seat it names is free. */
    method KickAvatar(avatar: Avatar?) returns (ok: bool, owed: int, ghost events: seq<Event>)
      requires Seated() && db.Now().Records()
      requires avatar != null && category == CategoryA ==> 0 <= avatar.seat < MAX_SEAT_NUMS
      modifies this`allAvatars, avatarSeats, (if avatar == null then {} else {avatar})`cashPledge, db
      ensures Seated() <==> avatar == null || old(InPlace(avatar))
      ensures avatar == null ==> Now() == old(Now()) && allAvatars == old(allAvatars)
      ensures if avatar == null || avatar.playerId !in old(allAvatars) then events == []
              else
                && |events| == 1 && events[0].Return? && events[0].p == avatar.playerId
                && events[0].calm == (db.Noise() == old(db.Noise())) && Step(id, old(Now()), events[0], Now())
      ensures avatar != null ==>
                && allAvatars == old(allAvatars) - {avatar.playerId}
                && Returned(old(db.Now()), db.Now(), Key(avatar.playerId), db.Noise() == old(db.Noise()), ok, owed)
      ensures db.Noise() <= old(db.Noise())
    {
      hide Seated, Step, Returned;
      ok, owed, events := false, 0, [];
      if avatar == null {
        return;
      }
      ghost var noise := db.Noise();
      ok, owed := RemovePlayer(avatar);
      if avatar.playerId in old(allAvatars) {
        events := [Return(avatar.playerId, db.Noise() == noise, ok, owed)];
      }
    }

    method ClearSeats()
      requires Seated()
      modifies avatarSeats
      ensures forall k :: 0 <= k < MAX_SEAT_NUMS ==> avatarSeats[k] == null
    {
      var i := 0;
      while i < maxPlayerNums
        invariant 0 <= i <= (if 0 < maxPlayerNums then maxPlayerNums else 0)
        invariant forall k :: 0 <= k < i ==> avatarSeats[k] == null
        invariant forall k :: i <= k < MAX_SEAT_NUMS ==> avatarSeats[k] == old(avatarSeats[k])
      {
        avatarSeats[i] := null;
        i := i + 1;
      }
    }

    /** Throws everybody out: each pledge is given back once, and all seats are free. */
    method KickAllAvatars() returns (ghost states: seq<Snap>, ghost events: seq<Event>)
      requires Seated() && db.Now().Records()
      modifies this`allAvatars, avatarSeats, allAvatars.Values, db
      ensures Seated() && allAvatars == map[]
      ensures Trace(id, states, events) && states[0] == old(Now()) && states[|events|] == Now()
      ensures |events| == |old(allAvatars)| && forall e <- events :: e.Return? && e.p in old(allAvatars)
      ensures db.Noise() == old(db.Noise()) ==> AllReturned(id, old(db.Now()), events)
      ensures db.Noise() <= old(db.Noise())
    {
      hide Trace;
      ClearSeats();
      states, events := ReturnAll();
      allAvatars := map[];
      assert Now().pledges == map[];
    }

    method ReturnOne(avatar: Avatar, ghost left: map<string, int>) returns (ghost e: Event)
      requires db.Now().Records() && avatar.playerId in left
      modifies avatar`cashPledge, db
      ensures e.Return? && e.p == avatar.playerId && db.Now().Records()
      ensures Step(id, Snap(old(db.Now()), left), e, Snap(db.Now(), left - {avatar.playerId}))
      ensures db.capital.Keys == old(db.capital).Keys
      ensures forall p :: p != avatar.playerId ==> db.Now().Pledge((p, id)) == old(db.Now()).Pledge((p, id))
      ensures db.Noise() <= old(db.Noise()) && e.calm == (db.Noise() == old(db.Noise()))
      ensures db.Noise() == old(db.Noise()) ==>
                (e.ok <==> old(db.Now()).Pledge(Key(avatar.playerId)) == 0 || avatar.playerId in old(db.capital))
    {
      hide Step;
      ghost var s, noise := db.Now(), db.Noise();
      var ok, owed := ReturnCashPledge(avatar.playerId);
      if ok {
        avatar.cashPledge := 0;
      }
      e := Return(avatar.playerId, db.Noise() == noise, ok, owed);
      ReturnStep(id, s, db.Now(), left, avatar.playerId, db.Noise() == noise, ok, owed);
    }

    method ReturnAll() returns (ghost states: seq<Snap>, ghost events: seq<Event>)
      requires db.Now().Records() && forall p <- allAvatars :: allAvatars[p].playerId == p
      modifies allAvatars.Values`cashPledge, db
      ensures Trace(id, states, events) && states[0] == old(Now()) && states[|events|] == Snap(db.Now(), map[])
      ensures |events| == |allAvatars| && forall e <- events :: e.Return? && e.p in allAvatars
      ensures db.Noise() == old(db.Noise()) ==> AllReturned(id, old(db.Now()), events)
      ensures db.Noise() <= old(db.Noise())
    {
      hide Step, AllReturned, Returning;
      ghost var start, left := Now(), Pledges();
      states, events := [start], [];
      ReturningStarts(id, start);
      var todo := allAvatars.Keys;
      while todo != {}
        invariant todo <= allAvatars.Keys && left.Keys == todo && db.Now().Records() && db.Noise() <= old(db.Noise())
        invariant Returning(id, start, states, events, Snap(db.Now(), left), db.Noise() == old(db.Noise()))
      {
        var p :| p in todo;
        ghost var now, calm := Snap(db.Now(), left), db.Noise() == old(db.Noise());
        ghost var e := ReturnOne(allAvatars[p], left);
        todo := todo - {p};
        left := left - {p};
        ReturningMore(id, start, states, events, now, calm, e, Snap(db.Now(), left), db.Noise() == old(db.Noise()));
        states, events := states + [Snap(db.Now(), left)], events + [e];
      }
      assert left == map[];
      AllDone(id, start, states, events, Snap(db.Now(), left), db.Noise() == old(db.Noise()));
      assert |start.pledges.Keys| == |allAvatars.Keys|;
    }

    /** Brings a player's pledge up to `need`. */
    method RaisePledge(playerId: string, need: int, kick: bool) returns (ok: bool, ghost events: seq<Event>)
      requires Seated()
      modifies allAvatars.Values, db
      ensures Seated()
      ensures if playerId !in allAvatars then events == [] && !ok && Now() == old(Now())
              else
                && |events| == 1 && events[0].TopUp? && events[0].p == playerId && events[0].need == need
                && events[0].kick == kick && events[0].calm == (db.Noise() == old(db.Noise())) && events[0].ok == ok
                && Step(id, old(Now()), events[0], Now())
      ensures playerId in allAvatars && db.Noise() == old(db.Noise()) ==>
                var a := old(Pledges())[playerId];
                ok <==> a >= need || (playerId in old(db.capital) && old(db.Now()).Gold(playerId) >= need - a)
      ensures db.Noise() <= old(db.Noise())
    {
      hide GameTopUp.TopUp;
      ghost var s, noise := Now(), db.Noise();
      var avatar := if playerId in allAvatars then allAvatars[playerId] else null;
      assert avatar != null ==> s.pledges[playerId] == avatar.cashPledge && avatar.playerId == playerId;
      var applied;
      ok, applied := DeductCashPledge(avatar, need, kick);
      events := [];
      if avatar != null {
        hide Deducted;
        events := [TopUp(playerId, need, kick, db.Noise() == noise, ok, applied)];
        assert Now().pledges == s.pledges[playerId := avatar.cashPledge];
        assert s.pledges[playerId := s.pledges[playerId]] == s.pledges;
      }
    }

    method ChargeDiamonds(playerId: string) returns (ghost events: seq<Event>)
      requires Seated()
      modifies db
      ensures Seated()
      ensures |events| == 1 && Step(id, old(Now()), events[0], Now())
      ensures events[0] == Spend(playerId, diamondNeed, events[0].ok)
      ensures db.Noise() <= old(db.Noise())
    {
      hide Seated, Moved;
      ghost var s := Now();
      var ok, diamond := DeductDiamond(playerId);
      events := [Spend(playerId, diamondNeed, ok)];
      assert Now().pledges == s.pledges;
    }

    // ----- runs -----

    ghost predicate Ready()
      reads this, avatarSeats, db, allAvatars.Values
    {
      Seated() && db.Now().Records()
    }

    /** What a request is answered by, apart from money. */
    ghost function Look(): Scene
      reads this, avatarSeats
    {
      Scene(allAvatars.Keys, spectators, cashPledge, diamondNeed, status, exists i :: Free(i))
    }

    /** Lets somebody go. */
    method SeeOff(op: Op) returns (ghost events: seq<Event>)
      requires Ready() && op.Leave?
      modifies this, avatarSeats, allAvatars.Values, db
      ensures Seated() && Answers(category == CategoryA, enableSpectator, old(Look()), op, events, Look())
      ensures if events == [] then Now() == old(Now())
              else
                && |events| == 1 && Step(id, old(Now()), events[0], Now())
                && Booked(events[0], op, old(cashPledge), db.Noise() == old(db.Noise()))
      ensures forall p <- allAvatars ::
                if p in old(allAvatars) then allAvatars[p] == old(allAvatars)[p] else fresh(allAvatars[p])
      ensures db.Noise() <= old(db.Noise())
    {
      hide Seated, Step, Returned;
      var code;
      code, events := OnLeave(op.p, op.verdict);
    }

    /** Throws somebody out. */
    method ThrowOut(op: Op) returns (ghost events: seq<Event>)
      requires Ready() && op.Kick?
      modifies this, avatarSeats, allAvatars.Values, db
      ensures Seated() && Answers(category == CategoryA, enableSpectator, old(Look()), op, events, Look())
      ensures if events == [] then Now() == old(Now())
              else
                && |events| == 1 && Step(id, old(Now()), events[0], Now())
                && Booked(events[0], op, old(cashPledge), db.Noise() == old(db.Noise()))
      ensures forall p <- allAvatars ::
                if p in old(allAvatars) then allAvatars[p] == old(allAvatars)[p] else fresh(allAvatars[p])
      ensures db.Noise() <= old(db.Noise())
    {
      assert forall p <- allAvatars :: allAvatars[p].playerId == p;
      assert op.p in allAvatars ==> InPlace(allAvatars[op.p]);
      hide Seated, Step, Returned, InPlace;
      var ok, owed;
      ok, owed, events := KickAvatar(if op.p in allAvatars then allAvatars[op.p] else null);
    }

    /** Does one thing, other than throwing everybody out. */
    method Attend(op: Op) returns (ghost events: seq<Event>)
      requires Ready() && !op.KickAll?
      modifies this, avatarSeats, allAvatars.Values, db
      ensures Seated() && Answers(category == CategoryA, enableSpectator, old(Look()), op, events, Look())
      ensures if events == [] then Now() == old(Now())
              else
                && |events| == 1 && Step(id, old(Now()), events[0], Now())
                && Booked(events[0], op, old(cashPledge), db.Noise() == old(db.Noise()))
      ensures forall p <- allAvatars ::
                if p in old(allAvatars) then allAvatars[p] == old(allAvatars)[p] else fresh(allAvatars[p])
      ensures db.Noise() <= old(db.Noise())
    {
      hide Seated, Step;
      events := [];
      match op {
        case Enter(p, mayEnter, mayJoin) =>
          var ok;
          ok, events := OnEnter(p, mayEnter, mayJoin);
        case Raise(p, need, kick) =>
          var ok;
          ok, events := RaisePledge(p, need, kick);
        case Charge(p) =>
          events := ChargeDiamonds(p);
        case Ask(pledge, diamonds) =>
          cashPledge, diamondNeed := pledge, diamonds;
        case Close(value) =>
          status := value;
        case Leave(_, _) =>
          events := SeeOff(op);
        case Kick(_) =>
          events := ThrowOut(op);
      }
    }

    /** Does one thing. */
    method Handle(op: Op) returns (ghost states: seq<Snap>, ghost events: seq<Event>)
      requires Ready()
      modifies this, avatarSeats, allAvatars.Values, db
      ensures Ready() && Answers(category == CategoryA, enableSpectator, old(Look()), op, events, Look())
      ensures Trace(id, states, events) && states[0] == old(Now()) && states[|events|] == Now()
      ensures forall e <- events :: Booked(e, op, old(cashPledge), db.Noise() == old(db.Noise()))
      ensures forall p <- allAvatars ::
                if p in old(allAvatars) then allAvatars[p] == old(allAvatars)[p] else fresh(allAvatars[p])
      ensures db.Noise() <= old(db.Noise())
    {
      hide Seated, Step;
      states := [Now()];
      if op.KickAll? {
        states, events := KickAllAvatars();
      } else {
        events := Attend(op);
        if events != [] {
          states := states + [Now()];
        }
      }
      RunBalances(id, states, events, "");
    }

    /** Over any run of requests, with other writers in between: each request is answered as it must be, seats and
        avatars stay in bijection, no record becomes negative, and the run is a trace, so that what is proved of
        traces holds of it.  As long as all pledges stay below 2^31, nothing else becomes negative either.  If,
        moreover, nothing goes wrong, and exactly the avatars have pledge records or the room always asks for a
        pledge, then nobody's gold plus pledge plus logged debt changes. */
    method Serve(ops: seq<Op>)
      returns (ghost states: seq<Snap>, ghost events: seq<Event>, ghost scenes: seq<Scene>, ghost log: seq<seq<Event>>)
      requires Ready()
      modifies this, avatarSeats, allAvatars.Values, db
      ensures Ready()
      ensures |log| == |ops| == |scenes| - 1 && scenes[0] == old(Look()) && scenes[|ops|] == Look()
      ensures forall i :: 0 <= i < |ops| ==>
                Answers(category == CategoryA, enableSpectator, scenes[i], ops[i], log[i], scenes[i + 1])
      ensures events == Booklet(log)
      ensures Trace(id, states, events) && states[0] == old(Now()) && states[|events|] == Now()
      ensures forall q :: Balance(id, Now(), q) + Owed(events, q)
                       == Balance(id, old(Now()), q) + Slips(id, states, events, q)
      ensures forall q :: db.Now().OwnDiamond(q) + Spent(events, q) == old(db.Now()).OwnDiamond(q)
      ensures db.Noise() <= old(db.Noise())
      ensures old(Small(id, Now())) && Modest(old(cashPledge), ops) ==>
                Small(id, Now()) && (old(db.Now().Sound()) ==> db.Now().Sound())
      ensures && old(Small(id, Now())) && Modest(old(cashPledge), ops) && db.Noise() == old(db.Noise())
              && (old(Settled(id, Now())) || (old(Agrees(id, Now())) && Asks(old(cashPledge), ops)))
              ==> forall q :: Slips(id, states, events, q) == 0
    {
      hide Ready, Step, Bounded, Answers, Look;
      states, events, scenes, log := [Now()], [], [Look()], [];
      ghost var asks, modest := Asks(cashPledge, ops), Modest(cashPledge, ops);
      ReadyMeans();
      LookAsk();
      for i := 0 to |ops|
        invariant Ready() && db.Noise() <= old(db.Noise())
        invariant |log| == i == |scenes| - 1 && scenes[0] == old(Look()) && scenes[i] == Look()
        invariant cashPledge == scenes[i].ask
        invariant forall k :: 0 <= k < i ==>
                    Answers(category == CategoryA, enableSpectator, scenes[k], ops[k], log[k], scenes[k + 1])
        invariant events == Booklet(log)
        invariant (asks ==> 0 < cashPledge) && (modest ==> cashPledge < PLEDGE_LIMIT)
        invariant Trace(id, states, events) && states[0] == old(Now()) && states[|events|] == Now()
        invariant forall e <- events :: (modest ==> Bounded(e)) && (db.Noise() == old(db.Noise()) ==> Undisturbed(e))
        invariant forall e <- events :: asks && e.Join? ==> 0 < e.ask
        invariant forall p <- allAvatars :: allAvatars[p] in old(allAvatars).Values || fresh(allAvatars[p])
      {
        ghost var ask := cashPledge;
        ghost var more, es := Handle(ops[i]);
        BookedIsBounded(es, ops[i], ask, modest);
        TraceJoins(id, states, events, more, es);
        AnswersAsk(category == CategoryA, enableSpectator, scenes[i], ops[i], es, Look());
        LookAsk();
        states, events, scenes, log := states + more[1..], events + es, scenes + [Look()], log + [es];
      }
      forall q
        ensures Balance(id, Now(), q) + Owed(events, q) == Balance(id, old(Now()), q) + Slips(id, states, events, q)
        ensures db.Now().OwnDiamond(q) + Spent(events, q) == old(db.Now()).OwnDiamond(q)
      {
        RunBalances(id, states, events, q);
      }
      if old(Small(id, Now())) && modest {
        TraceKeepsSmall(id, states, events);
        if db.Noise() == old(db.Noise()) && (old(Settled(id, Now())) || (old(Agrees(id, Now())) && asks)) {
          forall q ensures Slips(id, states, events, q) == 0 {
            QuietRunConserves(id, states, events, q);
          }
        }
      }
    }

    lemma LookAsk()
      ensures Look().ask == cashPledge
    {
    }

    lemma ReadyMeans()
      requires Ready()
      ensures db.Now().Records()
    {
    }
  }

  /** A player with `gold` and an old record of `held` joins a room that asks for `ask`, and is then topped up to
      `need`.  Nothing goes wrong, and avatars and records agree to begin with; but the player is charged for
      what the record says more than the avatar's copy of it.  So agreement alone is not enough for a run to
      conserve money, and pledges of 2^31 or more are not conserved. */
  method JoinThenRaise(gold: nat, held: nat, ask: int, need: int)
    returns (ok: bool, ghost states: seq<Snap>, ghost events: seq<Event>)
    requires 0 < need && CopyOf(ask, held) < need
    requires RecordOf(ask, held) - held <= gold
    requires need - CopyOf(ask, held) <= gold - (RecordOf(ask, held) - held)
    ensures ok && Trace("room", states, events) && Agrees("room", states[0])
    ensures Balance("room", states[0], "p") == gold + held
    ensures (forall e <- events :: Undisturbed(e)) && Owed(events, "p") == 0
    ensures Slips("room", states, events, "p") == CopyOf(ask, held) - RecordOf(ask, held)
    ensures Balance("room", states[|events|], "p") == gold + held + CopyOf(ask, held) - RecordOf(ask, held)
  {
    hide GameRoom.Seated, Step, Slip, Slips, Owed, Trace, Narrow;
    var db := new Database(map["p" := Capital(gold, 0, 0)], map[("p", "room") := held], []);
    var room := new GameRoom("room", CategoryB, 0, false, db);
    room.cashPledge := ask;
    ghost var s0 := room.Now();
    assert room.Free(-1);
    var joined;
    ghost var join, topUp;
    joined, join := room.OnEnter("p", true, true);
    ghost var s1 := room.Now();
    assert "p" in s1.pledges;
    JoinedFor(s0, join[0], s1, gold, held, ask);
    ok, topUp := room.RaisePledge("p", need, false);
    ghost var s2 := room.Now();
    RaisedFor(s1, topUp[0], s2, ask, held);
    TwoSlips("room", s0, join[0], s1, topUp[0], s2, "p");
    states, events := [s0, s1, s2], [join[0], topUp[0]];
    RunBalances("room", states, events, "p");
  }

  lemma JoinedFor(s: Snap, e: Event, s': Snap, gold: nat, held: nat, ask: int)
    requires Step("room", s, e, s') && e.Join? && e.p == "p" && e.ask == ask && e.ok
    requires s.db.Pledge(("p", "room")) == held && s.db.Gold("p") == gold
    requires s'.db.otherGold == s.db.otherGold
    ensures s'.db.Pledge(("p", "room")) == RecordOf(ask, held) && s'.pledges == s.pledges["p" := CopyOf(ask, held)]
    ensures s'.db.Gold("p") == gold - (RecordOf(ask, held) - held) && e.owed == 0
    ensures s'.db.capital.Keys == s.db.capital.Keys && Slip("room", s, e, s') == 0
  {
    assert s'.db.OwnGold("p") == s.db.OwnGold("p") + held - RecordOf(ask, held);
  }

  lemma RaisedFor(s: Snap, e: Event, s': Snap, ask: int, held: nat)
    requires Step("room", s, e, s') && e.TopUp? && e.p == "p" && e.ok && 0 < e.need && CopyOf(ask, held) < e.need
    requires s.db.Pledge(("p", "room")) == RecordOf(ask, held) && s.pledges["p"] == CopyOf(ask, held)
    ensures Slip("room", s, e, s') == CopyOf(ask, held) - RecordOf(ask, held)
  {
    hide Moved;
  }

  /** An event as a request books it: a join asks for the room's pledge, a top-up aims at what was asked for,
      and an undisturbed request has an undisturbed event. */
  ghost predicate Booked(e: Event, op: Op, ask: int, calm: bool) {
    && (e.Join? ==> e.ask == ask)
    && (e.TopUp? ==> op.Raise? && e.need == op.need)
    && (calm ==> Undisturbed(e))
  }

  lemma BookedIsBounded(es: seq<Event>, op: Op, ask: int, modest: bool)
    requires modest ==> ask < PLEDGE_LIMIT && (op.Raise? ==> op.need < PLEDGE_LIMIT)
    requires forall e <- es :: (e.Join? ==> e.ask == ask) && (e.TopUp? ==> op.Raise? && e.need == op.need)
    ensures modest ==> forall e <- es :: Bounded(e)
  {
  }

  /** A room, apart from money: who is there, what is asked, and whether a seat is free. */
  datatype Scene = Scene(avatars: set<string>, spectators: set<string>, ask: int, diamonds: int, status: int,
                         free: bool)

  /** How each request is answered, whatever happens to the money: which event it gives rise to, if any, and what
      changes in the room.  `seats` says that the room has seats, and `watching` that newcomers only watch. */
  ghost predicate Answers(seats: bool, watching: bool, s: Scene, op: Op, es: seq<Event>, s': Scene) {
    && s'.ask == (if op.Ask? then op.pledge else s.ask)
    && s'.diamonds == (if op.Ask? then op.diamonds else s.diamonds)
    && s'.status == (if op.Close? then op.value else s.status)
    && (op.KickAll? || |es| <= 1)
    && match op
       case Enter(p, mayEnter, _) =>
         var let := !(p in s.avatars || (seats && p in s.spectators)) && s.status == 0 && mayEnter;
         && (es != [] <==> let && !watching && (seats ==> s.free))
         && (es != [] ==> es[0].Join? && es[0].p == p && es[0].ask == s.ask)
         && s'.avatars == s.avatars + (if es != [] && es[0].Join? && es[0].ok then {p} else {})
         && s'.spectators == s.spectators + (if let && watching then {p} else {})
       case Leave(p, verdict) =>
         var goes := verdict == 0 && (p in s.avatars || (seats && p in s.spectators));
         && (es != [] <==> verdict == 0 && p in s.avatars)
         && (es != [] ==> es[0].Return? && es[0].p == p)
         && s'.avatars == s.avatars - (if goes then {p} else {})
         && s'.spectators == s.spectators - (if goes then {p} else {})
       case Kick(p) =>
         && (es != [] <==> p in s.avatars) && (es != [] ==> es[0].Return? && es[0].p == p)
         && s'.avatars == s.avatars - {p} && s'.spectators == s.spectators
       case KickAll =>
         && |es| == |s.avatars| && (forall e <- es :: e.Return? && e.p in s.avatars)
         && s'.avatars == {} && s'.spectators == s.spectators
       case Raise(p, need, kick) =>
         && (es != [] <==> p in s.avatars)
         && (es != [] ==> es[0].TopUp? && es[0].p == p && es[0].need == need && es[0].kick == kick)
         && s'.avatars == s.avatars && s'.spectators == s.spectators
       case Charge(p) =>
         && es != [] && es[0].Spend? && es[0].p == p && es[0].cost == s.diamonds
         && s'.avatars == s.avatars && s'.spectators == s.spectators
       case Ask(_, _) => es == [] && s'.avatars == s.avatars && s'.spectators == s.spectators
       case Close(_) => es == [] && s'.avatars == s.avatars && s'.spectators == s.spectators
  }

  lemma AnswersAsk(seats: bool, watching: bool, s: Scene, op: Op, es: seq<Event>, s': Scene)
    requires Answers(seats, watching, s, op, es, s')
    ensures s'.ask == if op.Ask? then op.pledge else s.ask
  {
  }

  function Booklet(log: seq<seq<Event>>): seq<Event> {
    if log == [] then [] else Booklet(log[..|log| - 1]) + log[|log| - 1]
  }

  /** What can be asked of a room. */
  datatype Op =
    | Enter(p: string, mayEnter: bool, mayJoin: bool)
    | Leave(p: string, verdict: int)
    | Kick(p: string)
    | KickAll
    | Raise(p: string, need: int, kick: bool)
    | Charge(p: string)
    | Ask(pledge: int, diamonds: int)
    | Close(value: int)

  /** No pledge of 2^31 or more is asked for or aimed at. */
  predicate Modest(ask: int, ops: seq<Op>) {
    && ask < PLEDGE_LIMIT
    && forall op <- ops :: (op.Raise? ==> op.need < PLEDGE_LIMIT) && (op.Ask? ==> op.pledge < PLEDGE_LIMIT)
  }

  /** The room asks for a pledge all the time. */
  predicate Asks(ask: int, ops: seq<Op>) {
    0 < ask && forall op <- ops :: op.Ask? ==> 0 < op.pledge
  }

  /** Different players on different seats fill all seats exactly when there are as many of them. */
  lemma {:induction false} SeatsTaken(seats: map<string, int>, n: nat)
    requires forall p <- seats :: 0 <= seats[p] < n
    requires forall p, q :: p in seats && q in seats && seats[p] == seats[q] ==> p == q
    ensures |seats| <= n
    ensures |seats| == n <==> forall i :: 0 <= i < n ==> i in seats.Values
  {
    if n == 0 {
      assert seats.Keys == {};
    } else if p :| p in seats && seats[p] == n - 1 {
      var rest := seats - {p};
      assert seats == rest[p := n - 1];
      SeatsTaken(rest, n - 1);
      forall i | 0 <= i < n - 1 ensures i in rest.Values <==> i in seats.Values {
        if q :| q in seats && seats[q] == i {
          assert q in rest;
        }
      }
    } else {
      SeatsTaken(seats, n - 1);
      assert n - 1 !in seats.Values;
    }
  }
}
