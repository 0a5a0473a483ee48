/** Message handlers that own venues, their player counts, and the choice of a handler for a venue. */
module VenueHandlers {
  import Sums

  class Venue {
    const id: string
    const gameType: int

    constructor (id: string, gameType: int)
      ensures this.id == id && this.gameType == gameType
    {
      this.id, this.gameType := id, gameType;
    }
  }

  // ----- sums of counts -----

  ghost function SumOf(m: map<string, int>): real {
    Sums.MapSum(map k | k in m :: m[k] as real)
  }

  lemma CountTake(m: map<string, int>, k: string)
    requires k in m
    ensures SumOf(m) == m[k] as real + SumOf(m - {k})
  {
    var r, r' := map x | x in m :: m[x] as real, map x | x in m - {k} :: m[x] as real;
    Sums.MapSumTake(r, k);
    assert r - {k} == r';
    assert r' == map x | x in m - {k} :: (m - {k})[x] as real;
  }

  lemma SumUpdate(m: map<string, int>, k: string, v: int)
    ensures SumOf(m[k := v]) == SumOf(m) - (if k in m then m[k] as real else 0.0) + v as real
  {
    CountTake(m[k := v], k);
    assert m[k := v] - {k} == m - {k};
    if k in m {
      CountTake(m, k);
    } else {
      assert m - {k} == m;
    }
  }

  lemma {:induction false} SumPositive(m: map<string, int>)
    requires forall k <- m :: m[k] > 0
    ensures SumOf(m) >= 0.0 && (SumOf(m) == 0.0 <==> m == map[])
    decreases |m|
  {
    if m != map[] {
      var k :| k in m;
      CountTake(m, k);
      assert |m - {k}| < |m|;
      SumPositive(m - {k});
    }
  }

  ghost function Within(m: map<string, int>, keys: set<string>): map<string, int> {
    map k | k in m && k in keys :: m[k]
  }

  /** A sum splits into the part within a set of keys and the rest. */
  lemma {:induction false} SumSplits(m: map<string, int>, keys: set<string>)
    ensures SumOf(m) == SumOf(Within(m, keys)) + SumOf(m - keys)
    decreases |m|
  {
    if m == map[] {
      assert Within(m, keys) == map[] && m - keys == map[];
    } else {
      var k :| k in m;
      CountTake(m, k);
      assert |m - {k}| < |m|;
      SumSplits(m - {k}, keys);
      hide SumOf, Within;
      SplitTake(m, keys, k);
      if k in keys {
        CountTake(Within(m, keys), k);
      } else {
        CountTake(m - keys, k);
      }
    }
  }

  lemma SplitTake(m: map<string, int>, keys: set<string>, k: string)
    requires k in m
    ensures if k in keys then
              && k in Within(m, keys) && Within(m, keys)[k] == m[k]
              && Within(m, keys) - {k} == Within(m - {k}, keys) && m - keys == m - {k} - keys
            else m - keys - {k} == m - {k} - keys && Within(m, keys) == Within(m - {k}, keys)
  {
  }

  // ----- lists of venues -----

  /** `list` holds each venue of `venues` exactly once. */
  ghost predicate Lists(list: seq<Venue>, venues: map<string, Venue>) {
    && (forall v <- list :: v.id in venues && venues[v.id] == v)
    && (forall k <- venues :: venues[k] in list)
    && (forall i, j :: 0 <= i < j < |list| ==> list[i] != list[j])
  }

  ghost predicate Keyed(venues: map<string, Venue>) {
    forall k <- venues :: venues[k].id == k
  }

  /** A list belongs to one map only. */
  lemma ListsUnique(list: seq<Venue>, m: map<string, Venue>, m': map<string, Venue>)
    requires Lists(list, m) && Lists(list, m') && Keyed(m) && Keyed(m')
    ensures m == m'
  {
    forall k <- m ensures k in m' && m'[k] == m[k] {
      assert m[k] in list;
    }
    forall k <- m' ensures k in m {
      assert m'[k] in list;
    }
  }

  const GENERATIONS: int := 100000

  class InnerHandler {
    var gameTypes: set<int>
    var venues: map<string, Venue>
    var playerCounts: map<string, int>
    var totalCount: int
    var counterMap: int
    var counterList: int
    var venueList: seq<Venue>
    /** The venues when the list was last rebuilt, and how often they changed since. */
    ghost var listed: map<string, Venue>
    ghost var changes: nat

    /** The total is the sum of the counts per venue. */
    ghost predicate Balanced()
      reads this
    {
      totalCount as real == SumOf(playerCounts)
    }

    ghost predicate Positive()
      reads this
    {
      forall k <- playerCounts :: playerCounts[k] > 0
    }

    /** The total counts the players of this handler's venues, and nobody else. */
    ghost predicate CountsOwned()
      reads this
    {
      totalCount as real == SumOf(Within(playerCounts, venues.Keys))
    }

    /** That is so exactly when no count is left of a venue that is gone. */
    lemma CountsOwnedIff()
      requires Balanced() && Positive()
      ensures CountsOwned() <==> playerCounts.Keys <= venues.Keys
    {
      var rest := playerCounts - venues.Keys;
      SumSplits(playerCounts, venues.Keys);
      SumPositive(rest);
      if rest == map[] {
        forall k | k in playerCounts.Keys ensures k in venues.Keys {
          assert k !in rest;
        }
      } else {
        var k :| k in rest;
        assert k in playerCounts.Keys && k !in venues.Keys;
      }
    }

    ghost predicate Valid()
      reads this
    {
      && Keyed(venues) && Keyed(listed) && Lists(venueList, listed)
      && 0 <= counterMap < GENERATIONS && 0 <= counterList < GENERATIONS
      && counterMap == (counterList + changes) % GENERATIONS
      && (changes == 0 ==> venues == listed)
    }

    constructor ()
      ensures Valid() && Balanced() && Positive() && venues == map[] && gameTypes == {1}
      ensures venueList == [] && listed == map[] && changes == 0
    {
      gameTypes := {1};
      venues, playerCounts, totalCount := map[], map[], 0;
      counterMap, counterList, venueList := 0, 0, [];
      listed, changes := map[], 0;
    }

    predicate CheckGameType(gameType: int)
      reads this
    {
      gameType in gameTypes
    }

    method Bump()
      requires 0 <= counterMap < GENERATIONS
      modifies this`counterMap
      ensures counterMap == (old(counterMap) + 1) % GENERATIONS
    {
      counterMap := counterMap + 1;
      if counterMap > 99999 {
        counterMap := 0;
      }
    }

    method AddVenue(venue: Venue)
      requires Valid()
      modifies this`venues, this`counterMap, this`changes
      ensures Valid() && changes == old(changes) + 1
      ensures venues == if venue.id in old(venues) then old(venues) else old(venues)[venue.id := venue]
    {
      if venue.id !in venues {
        venues := venues[venue.id := venue];
      }
      Bump();
      changes := changes + 1;
    }

    /** Forgets a venue, but not its count: if the total was that of the owned venues before, it is so
        afterwards exactly when the venue had no count. */
    method RemoveVenue(id: string)
      requires Valid()
      modifies this`venues, this`counterMap, this`changes
      ensures Valid() && changes == old(changes) + (if id in old(venues) then 1 else 0)
      ensures venues == old(venues) - {id}
      ensures Balanced() && Positive() && old(CountsOwned()) ==> (CountsOwned() <==> id !in playerCounts)
    {
      if Balanced() && Positive() {
        CountsOwnedIff();
      }
      hide CountsOwned;
      if id in venues {
        venues := venues - {id};
        Bump();
        changes := changes + 1;
      } else {
        assert venues - {id} == venues;
      }
      if Balanced() && Positive() {
        CountsOwnedIff();
      }
    }

    /** Records the number of players in a venue that this handler owns.  The total stays the sum of
        the counts except when a negative count arrives for a venue that had none. */
    method SetPlayerCount(id: string, count: int)
      requires Balanced()
      modifies this`playerCounts, this`totalCount
      ensures id == "" || id !in venues ==> playerCounts == old(playerCounts) && totalCount == old(totalCount)
      ensures id != "" && id in venues ==>
                playerCounts == if count == 0 || (count < 0 && id !in old(playerCounts)) then old(playerCounts) - {id}
                                else old(playerCounts)[id := count]
      ensures id != "" && id in venues ==>
                totalCount == old(totalCount) + count - if id in old(playerCounts) then old(playerCounts)[id] else 0
      ensures Balanced() <==> !(id != "" && id in venues && id !in old(playerCounts) && count < 0)
      ensures count >= 0 && old(Positive()) ==> Positive()
    {
      if id == "" || id !in venues {
        return;
      }
      var oldCount := 0;
      ghost var before := playerCounts;
      if id in playerCounts {
        oldCount := playerCounts[id];
        CountTake(before, id);
        SumUpdate(before, id, count);
        if count == 0 {
          playerCounts := playerCounts - {id};
        } else {
          playerCounts := playerCounts[id := count];
        }
      } else {
        SumUpdate(before, id, count);
        assert before - {id} == before;
        if count > 0 {
          playerCounts := playerCounts[id := count];
        }
      }
      totalCount := totalCount - oldCount;
      totalCount := totalCount + count;
    }

    /** Rebuilds the list when the generation has changed.  Afterwards the list is up to date exactly
        when the number of changes was not a positive multiple of 100000, or the changes cancelled out. */
    method UpdateVenueList()
      requires Valid()
      modifies this`counterList, this`venueList, this`listed, this`changes
      ensures Valid()
      ensures Lists(venueList, venues) <==> old(changes) % 100000 != 0 || old(listed) == venues
      ensures old(changes) % 100000 == 0 ==> venueList == old(venueList)
    {
      GenerationMoved(counterList, changes);
      if counterMap == counterList {
        if Lists(venueList, venues) {
          ListsUnique(venueList, listed, venues);
        }
        return;
      }
      counterList := counterMap;
      venueList := [];
      var todo := venues.Keys;
      while todo != {}
        invariant todo <= venues.Keys && counterList == counterMap
        invariant forall v <- venueList :: v.id in venues && v.id !in todo && venues[v.id] == v
        invariant forall k <- venues :: k !in todo ==> venues[k] in venueList
        invariant forall i, j :: 0 <= i < j < |venueList| ==> venueList[i] != venueList[j]
      {
        var k :| k in todo;
        todo := todo - {k};
        assert forall i :: 0 <= i < |venueList| ==> venueList[i] in venueList && venueList[i] != venues[k];
        venueList := venueList + [venues[k]];
      }
      listed, changes := venues, 0;
    }
  }

  lemma GenerationMoved(counterList: int, changes: nat)
    requires 0 <= counterList < GENERATIONS
    ensures (counterList + changes) % GENERATIONS == counterList <==> changes % GENERATIONS == 0
  {
    assert (counterList + changes) % GENERATIONS == (counterList + changes % GENERATIONS) % GENERATIONS;
  }

  /** A venue that is added 100000 times before the list is looked at is owned, and never listed. */
  method StaleList(venue: Venue) returns (owned: bool, listed: bool)
    ensures owned && !listed
  {
    var handler := new InnerHandler();
    for i := 0 to 100000
      invariant handler.Valid() && handler.changes == i && handler.listed == map[] && handler.venueList == []
      invariant handler.venues == if i == 0 then map[] else map[venue.id := venue]
    {
      handler.AddVenue(venue);
    }
    handler.UpdateVenueList();
    owned, listed := venue.id in handler.venues, venue in handler.venueList;
  }

  // ----- choosing a handler -----

  ghost predicate Eligible(h: InnerHandler, gameType: int)
    reads h
  {
    gameType in h.gameTypes
  }

  class HandlerTable {
    var innerHandlers: seq<InnerHandler>
    var venueHandlerMap: map<string, InnerHandler>

    constructor ()
      ensures innerHandlers == [] && venueHandlerMap == map[]
    {
      innerHandlers, venueHandlerMap := [], map[];
    }

    /** A venue keeps the handler it has; a new one gets a least loaded handler that supports its game. */
    method DistributeHandler(venue: Venue?) returns (ret: InnerHandler?)
      requires forall h <- innerHandlers :: h.Balanced() && h.Positive()
      modifies this`venueHandlerMap
      ensures venue == null ==> ret == null && venueHandlerMap == old(venueHandlerMap)
      ensures venue != null && venue.id in old(venueHandlerMap) ==>
                ret == old(venueHandlerMap)[venue.id] && venueHandlerMap == old(venueHandlerMap)
      ensures venue != null && venue.id !in old(venueHandlerMap) && ret != null ==>
                && ret in innerHandlers && Eligible(ret, venue.gameType)
                && (forall h <- innerHandlers :: Eligible(h, venue.gameType) ==> ret.totalCount <= h.totalCount)
                && venueHandlerMap == old(venueHandlerMap)[venue.id := ret]
      ensures venue != null && venue.id !in old(venueHandlerMap) && ret == null ==>
                && (forall h <- innerHandlers :: !Eligible(h, venue.gameType))
                && venueHandlerMap == old(venueHandlerMap)
    {
      ret := null;
      if venue == null {
        return;
      }
      if venue.id in venueHandlerMap {
        ret := venueHandlerMap[venue.id];
        return;
      }
      var minCount := -1;
      for i := 0 to |innerHandlers|
        invariant venueHandlerMap == old(venueHandlerMap)
        invariant (ret == null) == (minCount < 0)
        invariant ret != null ==> ret in innerHandlers && Eligible(ret, venue.gameType) && minCount == ret.totalCount
        invariant forall h <- innerHandlers[..i] ::
                    Eligible(h, venue.gameType) ==> ret != null && minCount <= h.totalCount
      {
        var handler := innerHandlers[i];
        assert handler in innerHandlers && handler.Positive() && handler.Balanced();
        assert innerHandlers[..i + 1] == innerHandlers[..i] + [handler];
        if !handler.CheckGameType(venue.gameType) {
          continue;
        }
        var playerCount := handler.totalCount;
        SumPositive(handler.playerCounts);
        if minCount < 0 || minCount > playerCount {
          ret := handler;
          minCount := playerCount;
        }
      }
      assert innerHandlers[..|innerHandlers|] == innerHandlers;
      if ret != null {
        venueHandlerMap := venueHandlerMap[venue.id := ret];
      }
    }
  }
}
