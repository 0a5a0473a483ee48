/** The chained hash table of hiredis, as a finite map. */
module Dicts {
  import opened DictChains

  /** Tables with more buckets have bucket numbers that do not fit a signed 32-bit integer. */
  const MAX_BUCKETS: nat := 0x8000_0000

  class Dict {
    const hash: Key -> u32
    var table: array<Entry?>
    var size: nat
    var sizemask: nat
    var used: nat

    ghost var m: Shape

    ghost predicate Valid()
      reads this, table, m.index.Values
    {
      && table.Length == size == |m.chains| && sizemask == (if size == 0 then 0 else size - 1)
      && (size == 0 || (INITIAL_SIZE <= size <= MAX_TABLE && PowerOfTwo(size)))
      && used == |m.contents| && used <= size
      && Sane(m, table[..], hash)
      && Stored(m)
    }

    constructor (hash: Key -> u32)
      ensures Valid() && this.hash == hash && m.contents == map[] && size == 0 && fresh(table)
    {
      this.hash := hash;
      table, size, sizemask, used := new Entry?[0], 0, 0, 0;
      m := Shape([], map[], map[], map[]);
    }

    /** The entry of a key. */
    method Find(key: Key) returns (he: Entry?)
      requires Valid()
      ensures he == if key in m.index then m.index[key] else null
      ensures he != null <==> key in m.contents
      ensures he != null ==> he.key == key && he.val == m.contents[key]
    {
      hide Holds, Linked, And, PowerOfTwo;
      if size == 0 {
        NoChains(m.chains, m.index, hash);
        return null;
      }
      var h := And(hash(key), sizemask);
      he := Search(key, h);
    }

    /** Looks through the chain of bucket `h`. */
    method Search(key: Key, h: nat) returns (he: Entry?)
      requires Valid() && size > 0 && h == Bucket(hash(key), size)
      ensures he == if key in m.index then m.index[key] else null
    {
      hide Holds, Linked, Chain, And, PowerOfTwo;
      ghost var c, i := m.chains[h], 0;
      he := table[h];
      ChainsKnown(table[..], m.chains, m.next, h);
      ChainStart(table[h], c, m.next);
      while he != null
        invariant 0 <= i <= |c| && he == At(c, i)
        invariant forall j :: 0 <= j < i ==> c[j].key != key
        decreases |c| - i
      {
        InChain(m.chains, m.index, hash, h, i);
        if he.key == key {
          return;
        }
        ChainStep(table[h], c, m.next, i);
        he := he.next;
        i := i + 1;
      }
      NotInChain(m.chains, m.index, hash, key);
    }

    /** Takes the entry `de` at position `i` out of the chain of bucket `h`. */
    method Unlink(h: nat, prevde: Entry?, de: Entry, ghost i: nat)
      requires Valid() && h < size && i < |m.chains[h]| && de == m.chains[h][i]
      requires prevde == if i == 0 then null else m.chains[h][i - 1]
      modifies this, table, m.index.Values
      ensures Valid() && table == old(table) && size == old(size)
      ensures m.index == old(m.index) - {de.key} && m.contents == old(m.contents) - {de.key}
      ensures m.chains == Dropped(old(m.chains), h, i)
    {
      hide Sane, PowerOfTwo;
      ghost var s, after := table[..], de.next;
      WithoutSane(m, s, hash, h, i);
      if prevde != null {
        prevde.next := de.next;
      } else {
        table[h] := de.next;
      }
      assert table[..] == if i > 0 then s else s[h := after];
      m := Without(m, h, i);
      used := used - 1;
    }

    /** Looks for a key in the chain of bucket `h`, remembering the entry before. */
    method Locate(key: Key, h: nat) returns (de: Entry?, prevde: Entry?, ghost i: nat)
      requires Valid() && size > 0 && h == Bucket(hash(key), size)
      ensures i <= |m.chains[h]| && de == At(m.chains[h], i) && prevde == if i == 0 then null else m.chains[h][i - 1]
      ensures if de != null then key in m.index && de.key == key else key !in m.index
    {
      hide Holds, Linked, Chain, And, PowerOfTwo;
      ghost var c := m.chains[h];
      i := 0;
      ChainsKnown(table[..], m.chains, m.next, h);
      ChainStart(table[h], c, m.next);
      de, prevde := table[h], null;
      while de != null
        invariant 0 <= i <= |c| && de == At(c, i) && prevde == (if i == 0 then null else c[i - 1])
        invariant forall j :: 0 <= j < i ==> c[j].key != key
        decreases |c| - i
      {
        InChain(m.chains, m.index, hash, h, i);
        if de.key == key {
          return;
        }
        ChainStep(table[h], c, m.next, i);
        prevde, de := de, de.next;
        i := i + 1;
      }
      NotInChain(m.chains, m.index, hash, key);
    }

    /** Removes a key. */
    method Delete(key: Key) returns (ok: bool, ghost h: nat, ghost i: nat)
      requires Valid()
      modifies this, table, m.index.Values
      ensures Valid() && table == old(table) && size == old(size)
      ensures ok <==> key in old(m.contents)
      ensures if ok then h < |old(m.chains)| && i < |old(m.chains[h])| && old(m.chains)[h][i].key == key
                         && m.chains == Dropped(old(m.chains), h, i)
              else m.chains == old(m.chains)
      ensures m.contents == old(m.contents) - {key}
      ensures m.index == old(m.index) - {key}
    {
      hide Holds, Linked, And, PowerOfTwo;
      if size == 0 {
        NoChains(m.chains, m.index, hash);
        return false, 0, 0;
      }
      var b := And(hash(key), sizemask);
      var de, prevde;
      h := b;
      de, prevde, i := Locate(key, b);
      if de != null {
        Unlink(b, prevde, de, i);
        return true, h, i;
      }
      return false, h, i;
    }

    // ----- growing -----

    /** Moves an entry to the new table `n`, whose chains hold `keys` so far. */
    method MoveEntry(he: Entry, n: array<Entry?>, ghost moved: seq<seq<Entry>>, ghost keys: set<Key>)
      requires Stored(m) && m.next.Keys == m.index.Keys && he.key in m.index && m.index[he.key] == he
      requires n.Length == |moved| > 0 && Holds(moved, m.index, keys, hash) && Linked(n[..], moved, m.next)
      requires keys <= m.index.Keys && he.key !in keys && used > 0
      modifies this`used, this`m, n, m.index.Values
      ensures used == old(used) - 1 && Stored(m) && m == old(m).(next := m.next)
      ensures m.next.Keys == m.index.Keys && forall k <- m.next :: k != he.key ==> m.next[k] == old(m.next)[k]
      ensures Holds(Pushed(moved, he, hash), m.index, keys + {he.key}, hash)
      ensures Linked(n[..], Pushed(moved, he, hash), m.next)
    {
      hide Holds, Linked, And;
      NotHeld(moved, m.index, keys, hash, he.key);
      PushHolds(moved, m.index, keys, hash, he, m.index);
      PushLinked(n[..], moved, m.next, hash, he);
      ghost var s, next := n[..], m.next;
      var h := And(hash(he.key), n.Length - 1);
      he.next := n[h];
      n[h] := he;
      used := used - 1;
      m := m.(next := next[he.key := s[h]]);
      assert n[..] == s[h := he];
    }

    /** Moves the chain `c` that starts at `first` to the new table. */
    method MoveChain(first: Entry?, n: array<Entry?>, ghost c: seq<Entry>, ghost moved: seq<seq<Entry>>,
                     ghost keys: set<Key>)
      returns (ghost moved': seq<seq<Entry>>)
      requires Stored(m) && m.next.Keys == m.index.Keys && Chain(first, c, m.next) && Listed(c, m.index)
      requires n.Length == |moved| > 0 && Holds(moved, m.index, keys, hash) && Linked(n[..], moved, m.next)
      requires keys <= m.index.Keys && Keys(c) !! keys && used >= |c|
      modifies this`used, this`m, n, m.index.Values
      ensures used == old(used) - |c| && Stored(m) && m == old(m).(next := m.next)
      ensures m.next.Keys == m.index.Keys && forall k <- m.next :: k !in Keys(c) ==> m.next[k] == old(m.next)[k]
      ensures |moved'| == |moved| && Holds(moved', m.index, keys + Keys(c), hash) && Linked(n[..], moved', m.next)
    {
      hide Holds, Linked, Chain, Pushed, Listed;
      moved' := moved;
      assert c[..0] == [];
      var he := first;
      ghost var i, done := 0, keys;
      while he != null
        invariant 0 <= i <= |c| && Chain(he, c[i..], m.next)
        invariant Stored(m) && m == old(m).(next := m.next)
        invariant m.next.Keys == m.index.Keys && forall k <- m.next :: k !in Keys(c) ==> m.next[k] == old(m.next)[k]
        invariant |moved'| == |moved| && Holds(moved', m.index, done, hash) && Linked(n[..], moved', m.next)
        invariant done == keys + Keys(c[..i]) && done <= m.index.Keys && used == old(used) - i
        decreases |c| - i
      {
        ChainHead(he, c[i..], m.next);
        ListedAt(c, m.index, i);
        assert c[i..][1..] == c[i + 1..];
        var nextHe := he.next;
        ghost var next := m.next;
        MoveEntry(he, n, moved', done);
        RestStays(nextHe, c, i, m.index, next, m.next);
        JoinedKeys(keys, Keys(c[..i]), he.key);
        moved', done := Pushed(moved', he, hash), done + {he.key};
        he := nextHe;
        i := i + 1;
      }
      ChainStart(he, c[i..], m.next);
      assert c[..i] == c;
    }

    /** The first `i` of the old `chains` are in the new table `n`. */
    ghost predicate Moving(chains: seq<seq<Entry>>, n: array<Entry?>, moved: seq<seq<Entry>>, i: nat)
      reads this, table, n, m.index.Values
    {
      && 0 < size == table.Length == |chains| && i <= size
      && Stored(m) && m.next.Keys == m.index.Keys == m.contents.Keys
      && Holds(chains, m.index, m.index.Keys, hash)
      && LinkedFrom(table[..], chains, m.next, i)
      && used == |m.index| - |KeysBelow(m.index, hash, size, i)|
      && |moved| == n.Length > 0 && n != table
      && Holds(moved, m.index, KeysBelow(m.index, hash, size, i), hash) && Linked(n[..], moved, m.next)
    }

    lemma MovingStarts(n: array<Entry?>)
      requires Valid() && size > 0 && n.Length > 0 && n != table && forall b :: 0 <= b < n.Length ==> n[b] == null
      ensures Moving(m.chains, n, seq(n.Length, _ => []), 0)
    {
      hide Holds, Linked, LinkedFrom, Chain, KeysBelow, And, PowerOfTwo;
      EmptyTable(n[..], m.index, m.next, hash);
      AllChains(table[..], m.chains, m.next);
      NoKeysBelow(m.index, hash, size);
    }

    lemma MovingEnds(chains: seq<seq<Entry>>, n: array<Entry?>, moved: seq<seq<Entry>>, i: nat)
      requires Moving(chains, n, moved, i) && (i == size || used == 0)
      ensures used == 0 && |moved| == n.Length && Sane(m.(chains := moved), n[..], hash)
      ensures Stored(m.(chains := moved))
    {
      hide Holds, Linked, LinkedFrom, Chain, KeysBelow, And;
      AllKeys(m.index, hash, size, i);
    }

    method MoveBucket(n: array<Entry?>, ghost chains: seq<seq<Entry>>, ghost moved: seq<seq<Entry>>, i: nat)
      returns (ghost moved': seq<seq<Entry>>)
      requires Moving(chains, n, moved, i) && i < size
      modifies this`used, this`m, n, m.index.Values
      ensures Moving(chains, n, moved', i + 1) && m == old(m).(next := m.next)
    {
      hide Holds, Linked, LinkedFrom, Chain, Keys, KeysBelow, And, Stored, Listed;
      BucketCount(chains, m.index, hash, i);
      KeysBelowCount(m.index, hash, size, i + 1);
      moved' := MoveOne(n, chains, moved, i);
    }

    method MoveOne(n: array<Entry?>, ghost chains: seq<seq<Entry>>, ghost moved: seq<seq<Entry>>, i: nat)
      returns (ghost moved': seq<seq<Entry>>)
      requires Stored(m) && m.next.Keys == m.index.Keys && i < size == table.Length == |chains| && used >= |chains[i]|
      requires Holds(chains, m.index, m.index.Keys, hash) && LinkedFrom(table[..], chains, m.next, i)
      requires |moved| == n.Length > 0 && n != table
      requires Holds(moved, m.index, KeysBelow(m.index, hash, size, i), hash) && Linked(n[..], moved, m.next)
      modifies this`used, this`m, n, m.index.Values
      ensures Stored(m) && m.next.Keys == m.index.Keys && m == old(m).(next := m.next)
      ensures used == old(used) - |chains[i]|
      ensures LinkedFrom(table[..], chains, m.next, i + 1) && |moved'| == n.Length
      ensures Holds(moved', m.index, KeysBelow(m.index, hash, size, i + 1), hash) && Linked(n[..], moved', m.next)
    {
      hide Holds, Linked, LinkedFrom, Chain, Keys, KeysBelow, And, Stored, Listed;
      NextChain(table[..], chains, m.next, i);
      BucketKeys(chains, m.index, hash, i);
      KeysBelowSubset(m.index, hash, size, i);
      ghost var next := m.next;
      moved' := MoveChain(table[i], n, chains[i], moved, KeysBelow(m.index, hash, size, i));
      OtherBuckets(table[..], chains, m.index, hash, next, m.next, i);
    }

    /** Moves all chains to the new table. */
    method MoveAll(n: array<Entry?>)
      requires Valid() && n.Length > 0 && n != table && forall b :: 0 <= b < n.Length ==> n[b] == null
      modifies this`used, this`m, n, m.index.Values
      ensures used == 0 && Stored(m) && Sane(m, n[..], hash) && |m.chains| == n.Length
      ensures m.index == old(m.index) && m.contents == old(m.contents)
    {
      hide Moving, Sane, Stored, PowerOfTwo;
      ghost var chains, moved := m.chains, seq(n.Length, _ => []);
      if size == 0 {
        NothingToMove(n);
      } else {
        MovingStarts(n);
        var i := 0;
        while i < size && used > 0
          invariant i <= size && Moving(chains, n, moved, i) && m == old(m).(next := m.next)
        {
          moved := MoveBucket(n, chains, moved, i);
          i := i + 1;
        }
        MovingEnds(chains, n, moved, i);
      }
      m := m.(chains := moved);
    }

    lemma NothingToMove(n: array<Entry?>)
      requires Valid() && size == 0 && forall b :: 0 <= b < n.Length ==> n[b] == null
      ensures var m' := m.(chains := seq(n.Length, _ => []));
              used == 0 && Stored(m') && Sane(m', n[..], hash)
    {
      hide Holds, Linked, PowerOfTwo;
      NoChains(m.chains, m.index, hash);
      assert m.index.Keys == {};
      EmptyTable(n[..], m.index, m.next, hash);
    }

    /** Grows the table, unless the size is too small for the entries or too large to be allocated. */
    method Expand(size': nat) returns (ok: bool)
      requires Valid() && size' < ULONG_RANGE
      modifies this, m.index.Values
      ensures Valid() && m.index == old(m.index) && m.contents == old(m.contents)
      ensures ok <==> old(used) <= size' <= MAX_TABLE
      ensures if ok then
                && fresh(table) && size' <= size && INITIAL_SIZE <= size
                && (INITIAL_SIZE < size ==> size / 2 < size')
              else table == old(table) && size == old(size)
    {
      hide Sane, Stored, PowerOfTwo, Pow2;
      var realsize := NextPower(size');
      Pow2Values();
      if size' < LONG_MAX {
        PowerApart(realsize, 60);
      }
      if used > size' {
        return false;
      }
      if (ULONG_RANGE - 1) / SLOT_BYTES < realsize {
        return false;
      }
      var n := new Entry?[realsize](_ => null);
      var count := used;
      MoveAll(n);
      table, size, sizemask, used := n, realsize, realsize - 1, count;
      return true;
    }

    lemma EmptyWithoutTable()
      requires Valid() && size == 0
      ensures used == 0
    {
      hide Holds, Linked, PowerOfTwo;
      NoChains(m.chains, m.index, hash);
      assert m.contents.Keys == {};
    }

    /** The table is full and cannot grow. */
    predicate Stuck()
      reads this
    {
      used == size == MAX_TABLE
    }

    /** The number of buckets after making room for one more entry. */
    function Grown(): nat
      reads this
    {
      if size == 0 then INITIAL_SIZE else if used == size && !Stuck() then 2 * size else size
    }

    /** The bucket number of the key as the code hands it around. */
    function Slot(key: Key): int
      reads this
    {
      if Grown() == 0 then -1 else ToInt(Bucket(hash(key), Grown()))
    }

    /** A new key can be added: there is room, and its bucket number is not taken for a mark. */
    predicate Addable(key: Key)
      reads this
    {
      !Stuck() && Slot(key) >= 0
    }

    /** Makes room for one more entry. */
    method ExpandIfNeeded() returns (ok: bool)
      requires Valid()
      modifies this, m.index.Values
      ensures Valid() && m.index == old(m.index) && m.contents == old(m.contents)
      ensures ok <==> !old(Stuck())
      ensures size == old(Grown()) && 0 < size && (ok ==> used < size)
      ensures size == if old(size) == 0 then 4
                      else if old(used) == old(size) < 0x1000_0000_0000_0000 then 2 * old(size)
                      else old(size)
      ensures table == old(table) || fresh(table)
    {
      hide Sane, Stored, And, PowerOfTwo;
      if size == 0 {
        EmptyWithoutTable();
        ok := Expand(INITIAL_SIZE);
        InitialPower();
        SamePower(INITIAL_SIZE, size);
      } else if used == size {
        if size < MAX_TABLE {
          RoomToDouble(size);
        }
        ok := Expand(size * 2);
        if ok {
          SamePower(2 * old(size), size);
        }
      } else {
        ok := true;
      }
    }

    /** The bucket number for a new key; -1 if the key is there already, or the table cannot grow. */
    method KeyIndex(key: Key) returns (i: int)
      requires Valid()
      modifies this, m.index.Values
      ensures Valid() && m.index == old(m.index) && m.contents == old(m.contents)
      ensures 0 < size == old(Grown()) && (table == old(table) || fresh(table)) && (i != -1 ==> used < size)
      ensures size == if old(size) == 0 then 4
                      else if old(used) == old(size) < 0x1000_0000_0000_0000 then 2 * old(size)
                      else old(size)
      ensures i == if key in m.contents || old(Stuck()) then -1 else ToInt(Bucket(hash(key), size))
    {
      hide Stored, Holds, Linked, And, PowerOfTwo;
      var ok := ExpandIfNeeded();
      if !ok {
        return -1;
      }
      var h: u32 := And(hash(key), sizemask);
      var he := Search(key, h);
      if he != null {
        return -1;
      }
      return ToInt(h);
    }

    /** Adds a new key.  A bucket number below -1 would be used as it is, outside the table. */
    method Add(key: Key, val: Value) returns (ok: bool)
      requires Valid() && (key in m.contents || Stuck() || Slot(key) >= -1)
      modifies this, table, m.index.Values
      ensures Valid() && size == old(Grown()) && (table == old(table) || fresh(table))
      ensures size == if old(size) == 0 then 4
                      else if old(used) == old(size) < 0x1000_0000_0000_0000 then 2 * old(size)
                      else old(size)
      ensures ok <==> key !in old(m.contents) && old(Addable(key))
      ensures m.contents == if ok then old(m.contents)[key := val] else old(m.contents)
      ensures forall k <- m.index :: if k in old(m.index) then m.index[k] == old(m.index)[k] else fresh(m.index[k])
    {
      hide Sane, PowerOfTwo, And;
      var i := KeyIndex(key);
      if i == -1 {
        return false;
      }
      Insert(key, val, i);
      return true;
    }

    /** Puts a new entry in front of the chain of bucket `i`. */
    method Insert(key: Key, val: Value, i: nat)
      requires Valid() && used < size && key !in m.contents && i == Bucket(hash(key), size)
      modifies this`m, this`used, table
      ensures Valid() && m.contents == old(m.contents)[key := val]
      ensures key in m.index && fresh(m.index[key]) && m.index == old(m.index)[key := m.index[key]]
    {
      hide Sane, PowerOfTwo, And;
      ghost var s := table[..];
      var entry := new Entry(key, val, table[i]);
      WithSane(m, s, hash, entry, val);
      table[i] := entry;
      m := With(m, entry, s[i], val, hash);
      used := used + 1;
      assert table[..] == s[i := entry];
    }

    /** Sets the value of a key, unless it is new and cannot be added. */
    method Replace(key: Key, val: Value) returns (added: bool)
      requires Valid() && (key in m.contents || Stuck() || Slot(key) >= -1)
      modifies this, table, m.index.Values
      ensures Valid() && size == old(Grown()) && (table == old(table) || fresh(table))
      ensures size == if old(size) == 0 then 4
                      else if old(used) == old(size) < 0x1000_0000_0000_0000 then 2 * old(size)
                      else old(size)
      ensures added <==> key !in old(m.contents) && old(Addable(key))
      ensures m.contents == if key in old(m.contents) || added then old(m.contents)[key := val] else old(m.contents)
      ensures forall k <- m.index :: if k in old(m.index) then m.index[k] == old(m.index)[k] else fresh(m.index[k])
    {
      hide Sane, PowerOfTwo, And;
      added := Add(key, val);
      if added {
        return;
      }
      var entry := Find(key);
      if entry == null {
        return;
      }
      Overwrite(key, val);
    }

    /** Up to 2^31 entries in up to 2^31 buckets, every new key can be added. */
    lemma RoomBelow(key: Key)
      requires Valid() && size <= MAX_BUCKETS && used < MAX_BUCKETS
      ensures Addable(key) && Grown() <= MAX_BUCKETS
    {
      hide Sane, Stored, And, PowerOfTwo;
      if size != 0 {
        RoomToDouble(size);
      }
    }

    /** Sets the value of a key that is there. */
    method Overwrite(key: Key, val: Value)
      requires Valid() && key in m.contents
      modifies this`m, m.index.Values
      ensures Valid() && m.contents == old(m.contents)[key := val] && m.index == old(m.index)
    {
      hide Sane, PowerOfTwo, And;
      var entry := Find(key);
      SetSane(m, table[..], hash, key, val);
      entry.val := val;
      m := m.(contents := m.contents[key := val]);
    }
  }
}
