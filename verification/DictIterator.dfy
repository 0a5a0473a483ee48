/** Walking through a hash table, and whole sequences of operations on it. */
module DictIterators {
  import opened DictChains
  import opened Dicts
  import opened Options

  // ----- sequences of operations -----

  datatype Op =
    | AddKey(key: Key, val: Value)
    | ReplaceKey(key: Key, val: Value)
    | DeleteKey(key: Key)
    | FindKey(key: Key)

  /** Changes answer whether they took place, or whether the key is new; a search answers with the value. */
  datatype Answer = Done(ok: bool) | Found(value: Option<Value>)

  /** What an operation does to a finite map, and what it answers. */
  function Effect(c: map<Key, Value>, op: Op): map<Key, Value> {
    match op
    case AddKey(k, v) => if k in c then c else c[k := v]
    case ReplaceKey(k, v) => c[k := v]
    case DeleteKey(k) => c - {k}
    case FindKey(k) => c
  }

  function AnswerOf(c: map<Key, Value>, op: Op): Answer {
    match op
    case AddKey(k, _) => Done(k !in c)
    case ReplaceKey(k, _) => Done(k !in c)
    case DeleteKey(k) => Done(k in c)
    case FindKey(k) => Found(if k in c then Some(c[k]) else None)
  }

  function After(c: map<Key, Value>, ops: seq<Op>): map<Key, Value> {
    if ops == [] then c else Effect(After(c, ops[..|ops| - 1]), ops[|ops| - 1])
  }

  lemma AfterNone(c: map<Key, Value>)
    ensures After(c, []) == c
  {
  }

  lemma AfterOne(c: map<Key, Value>, ops: seq<Op>, n: nat)
    requires n < |ops|
    ensures After(c, ops[..n + 1]) == Effect(After(c, ops[..n]), ops[n])
  {
    assert ops[..n + 1][..n] == ops[..n];
  }

  /** Every sequence of operations, of any length, answers and leaves the table as a finite map would, as long
      as the map stays below 2^31 keys. */
  method Play(d: Dict, ops: seq<Op>) returns (answers: seq<Answer>)
    requires d.Valid() && d.size <= MAX_BUCKETS
    requires forall i :: 0 <= i < |ops| ==> |After(d.m.contents, ops[..i])| < MAX_BUCKETS
    modifies d, d.table, d.m.index.Values
    ensures d.Valid() && d.m.contents == After(old(d.m.contents), ops)
    ensures |answers| == |ops|
    ensures forall i :: 0 <= i < |ops| ==> answers[i] == AnswerOf(After(old(d.m.contents), ops[..i]), ops[i])
  {
    hide Dict.Valid, Effect, AnswerOf, After;
    answers := [];
    ghost var start := d.m.contents;
    AfterNone(start);
    for n := 0 to |ops|
      invariant d.Valid() && d.size <= MAX_BUCKETS
      invariant d.m.contents == After(start, ops[..n])
      invariant |answers| == n && forall i :: 0 <= i < n ==> answers[i] == AnswerOf(After(start, ops[..i]), ops[i])
      invariant d.table == old(d.table) || fresh(d.table)
      invariant forall k <- d.m.index :: d.m.index[k] in old(d.m.index.Values) || fresh(d.m.index[k])
    {
      var answer := Do(d, ops[n]);
      AfterOne(start, ops, n);
      answers := answers + [answer];
    }
    assert ops[..|ops|] == ops;
  }

  /** Adds or replaces. */
  method Put(d: Dict, op: Op) returns (answer: Answer)
    requires d.Valid() && d.size <= MAX_BUCKETS && |d.m.contents| < MAX_BUCKETS
    requires op.AddKey? || op.ReplaceKey?
    modifies d, d.table, d.m.index.Values
    ensures d.Valid() && d.size <= MAX_BUCKETS
    ensures d.m.contents == Effect(old(d.m.contents), op) && answer == AnswerOf(old(d.m.contents), op)
    ensures d.table == old(d.table) || fresh(d.table)
    ensures forall k <- d.m.index ::
              if k in old(d.m.index) then d.m.index[k] == old(d.m.index)[k] else fresh(d.m.index[k])
  {
    assert d.used == |d.m.contents|;
    hide Dict.Valid;
    d.RoomBelow(op.key);
    assert d.Slot(op.key) >= -1;
    hide Dict.Grown, Dict.Slot, Dict.Addable;
    var done;
    if op.AddKey? {
      done := d.Add(op.key, op.val);
    } else {
      done := d.Replace(op.key, op.val);
    }
    answer := Done(done);
  }

  method Do(d: Dict, op: Op) returns (answer: Answer)
    requires d.Valid() && d.size <= MAX_BUCKETS && |d.m.contents| < MAX_BUCKETS
    modifies d, d.table, d.m.index.Values
    ensures d.Valid() && d.size <= MAX_BUCKETS
    ensures d.m.contents == Effect(old(d.m.contents), op) && answer == AnswerOf(old(d.m.contents), op)
    ensures d.table == old(d.table) || fresh(d.table)
    ensures forall k <- d.m.index ::
              if k in old(d.m.index) then d.m.index[k] == old(d.m.index)[k] else fresh(d.m.index[k])
  {
    hide Dict.Valid;
    match op {
      case DeleteKey(k) =>
        var ok, h, i := d.Delete(k);
        answer := Done(ok);
      case FindKey(k) =>
        var entry := d.Find(k);
        answer := Found(if entry == null then None else Some(entry.val));
      case _ =>
        answer := Put(d, op);
    }
  }

  // ----- iterators -----

  /** The entries from bucket `i` on, in the order of the walk. */
  ghost function From(chains: seq<seq<Entry>>, i: nat): seq<Entry>
    decreases |chains| - i
  {
    if i >= |chains| then [] else chains[i] + From(chains, i + 1)
  }

  ghost function Rest(s: seq<Entry>): seq<Entry> {
    if s == [] then [] else s[1..]
  }

  ghost predicate Suffix(t: seq<Entry>, c: seq<Entry>) {
    |t| <= |c| && c[|c| - |t|..] == t
  }

  /** From bucket `i` on, the walk meets exactly the keys that are not in lower buckets. */
  lemma {:induction false} FromKeys(chains: seq<seq<Entry>>, index: map<Key, Entry>, hash: Key -> u32, i: nat)
    requires Holds(chains, index, index.Keys, hash) && i <= |chains| && chains != []
    ensures Keys(From(chains, i)) == index.Keys - KeysBelow(index, hash, |chains|, i)
    decreases |chains| - i
  {
    hide Holds, KeysBelow, And;
    if i == |chains| {
      AllKeys(index, hash, |chains|, i);
      assert Keys(From(chains, i)) == {};
    } else {
      hide Keys;
      BucketKeys(chains, index, hash, i);
      KeysBelowSubset(index, hash, |chains|, i + 1);
      FromKeys(chains, index, hash, i + 1);
      KeysConcat(chains[i], From(chains, i + 1));
      RestOfKeys(index.Keys, KeysBelow(index, hash, |chains|, i), Keys(chains[i]));
    }
  }

  lemma RestOfKeys(all: set<Key>, lower: set<Key>, here: set<Key>)
    requires lower + here <= all && here !! lower
    ensures here + (all - (lower + here)) == all - lower
  {
  }

  /** And it is as long as there are such keys, so that it meets each of them once. */
  lemma {:induction false} FromCount(chains: seq<seq<Entry>>, index: map<Key, Entry>, hash: Key -> u32, i: nat)
    requires Holds(chains, index, index.Keys, hash) && i <= |chains| && chains != []
    ensures |From(chains, i)| == |index| - |KeysBelow(index, hash, |chains|, i)|
    decreases |chains| - i
  {
    hide Holds, Keys, KeysBelow, And;
    if i == |chains| {
      AllKeys(index, hash, |chains|, i);
    } else {
      BucketCount(chains, index, hash, i);
      FromCount(chains, index, hash, i + 1);
    }
  }

  lemma KeysConcat(a: seq<Entry>, b: seq<Entry>)
    ensures Keys(a + b) == Keys(a) + Keys(b)
  {
    forall k ensures k in Keys(a + b) <==> k in Keys(a) + Keys(b) {
      if k in Keys(a) + Keys(b) {
        var e :| (e in a || e in b) && e.key == k;
        assert e in a + b;
      }
    }
  }

  lemma {:induction false} FromSame(chains: seq<seq<Entry>>, chains': seq<seq<Entry>>, i: nat)
    requires |chains| == |chains'| && forall b :: i <= b < |chains| ==> chains[b] == chains'[b]
    ensures From(chains, i) == From(chains', i)
    decreases |chains| - i
  {
    if i < |chains| {
      FromSame(chains, chains', i + 1);
    }
  }

  /** The chains that a walk looks into. */
  ghost function Walked(d: Dict): (chains: seq<seq<Entry>>)
    requires |d.m.chains| == d.size
    reads d
    ensures |chains| == Limit(d.size)
  {
    d.m.chains[..Limit(d.size)]
  }

  class DictIterator {
    const ht: Dict
    var index: int
    var entry: Entry?
    var nextEntry: Entry?
    ghost var tail: seq<Entry>

    /** The state of a walk through the given chains. */
    ghost predicate Valid(chains: seq<seq<Entry>>)
      reads this
    {
      && -1 <= index
      && if entry == null then tail == []
         else 0 <= index < |chains| && nextEntry == At(tail, 0) && Suffix(tail, chains[index])
    }

    /** The current entry is the first of the tail, and has not been handed out yet. */
    ghost predicate Poised(chains: seq<seq<Entry>>)
      reads this
    {
      0 <= index < |chains| && entry == At(tail, 0) && Suffix(tail, chains[index])
    }

    /** The entries that are still to come. */
    ghost function Ahead(chains: seq<seq<Entry>>): seq<Entry>
      reads this
    {
      tail + From(chains, if index < 0 then 0 else index + 1)
    }

    constructor (ht: Dict)
      ensures this.ht == ht && forall chains :: Valid(chains) && Ahead(chains) == From(chains, 0)
    {
      this.ht := ht;
      index, entry, nextEntry, tail := -1, null, null, [];
    }

    method NextBucket(ghost chains: seq<seq<Entry>>) returns (more: bool)
      requires Valid(chains) && entry == null
      requires |chains| == Limit(ht.size) && ht.size == ht.table.Length
      requires forall b :: 0 <= b < |chains| ==> ht.table[b] == At(chains[b], 0)
      modifies this
      ensures index == old(index) + 1 && Ahead(chains) == old(Ahead(chains))
      ensures if more then Poised(chains) else Valid(chains) && |chains| <= index && Ahead(chains) == []
    {
      index := index + 1;
      if index >= Signed(ht.size) {
        return false;
      }
      entry, tail := ht.table[index], chains[index];
      return true;
    }

    method Take(ghost chains: seq<seq<Entry>>)
      requires Poised(chains) && entry != null && entry.next == At(tail, 1)
      modifies this
      ensures Valid(chains) && entry == old(entry) && tail == old(tail)[1..] && index == old(index)
    {
      SuffixRest(tail, chains[index]);
      nextEntry, tail := entry.next, tail[1..];
    }

    /** The next entry, or null at the end. */
    method Next() returns (e: Entry?)
      requires ht.Valid() && Valid(Walked(ht))
      modifies this
      ensures Valid(Walked(ht))
      ensures e == At(old(Ahead(Walked(ht))), 0) && Ahead(Walked(ht)) == Rest(old(Ahead(Walked(ht))))
      ensures e != null ==> entry == e && Suffix([e] + tail, Walked(ht)[index])
    {
      hide Dict.Valid, Suffix, From, Limit;
      Starts(ht);
      ghost var chains := Walked(ht);
      ghost var ahead := Ahead(chains);
      while true
        invariant Valid(chains) && Ahead(chains) == ahead
        decreases if |chains| >= index then |chains| - index else 0, if entry != null then 1 else 0
      {
        if entry == null {
          var more := NextBucket(chains);
          if !more {
            return null;
          }
        } else {
          entry := nextEntry;
        }
        if entry != null {
          ghost var t := tail;
          TailLink(ht, t, index);
          Take(chains);
          assert t == [entry] + tail;
          return entry;
        }
      }
    }
  }

  lemma SuffixRest(t: seq<Entry>, c: seq<Entry>)
    requires Suffix(t, c) && t != []
    ensures Suffix(t[1..], c)
  {
    assert c[|c| - |t| + 1..] == t[1..];
  }

  lemma Starts(d: Dict)
    requires d.Valid()
    ensures d.size == d.table.Length == |d.m.chains|
    ensures forall b :: 0 <= b < |Walked(d)| ==> d.table[b] == At(Walked(d)[b], 0)
  {
    hide Holds, Stored, PowerOfTwo;
    forall b | 0 <= b < |Walked(d)| ensures d.table[b] == At(Walked(d)[b], 0) {
      assert Chain(d.table[..][b], d.m.chains[b], d.m.next);
    }
  }

  /** The link of the first entry of a tail. */
  lemma TailLink(d: Dict, t: seq<Entry>, i: nat)
    requires d.Valid() && i < |d.m.chains| && Suffix(t, d.m.chains[i]) && t != []
    ensures t[0].next == At(t, 1)
  {
    hide Holds, Linked, Chain, And, PowerOfTwo;
    var c := d.m.chains[i];
    var p := |c| - |t|;
    assert t[0] == c[p] && (|t| > 1 ==> t[1] == c[p + 1]);
    InChain(d.m.chains, d.m.index, d.hash, i, p);
    ChainsKnown(d.table[..], d.m.chains, d.m.next, i);
    ChainStep(d.table[i], c, d.m.next, p);
  }

  /** Deleting the entry that was handed out last does not disturb a walk through the first `n` chains. */
  lemma DropKeepsWalk(chains: seq<seq<Entry>>, index: map<Key, Entry>, hash: Key -> u32, h: nat, i: nat,
                      e: Entry, tail: seq<Entry>, b: nat, n: nat)
    requires Holds(chains, index, index.Keys, hash) && h < |chains| && i < |chains[h]| && chains[h][i].key == e.key
    requires b < n <= |chains| && Suffix([e] + tail, chains[b])
    ensures |Dropped(chains, h, i)| == |chains| && Suffix(tail, Dropped(chains, h, i)[b])
    ensures From(Dropped(chains, h, i)[..n], b + 1) == From(chains[..n], b + 1)
  {
    hide And, Suffix;
    var c := chains[b];
    var p := |c| - |tail| - 1;
    assert Tidy(c, index, index.Keys, hash, |chains|, b) && Tidy(chains[h], index, index.Keys, hash, |chains|, h);
    CutTail(c, e, tail);
    assert h == b && i == p;
    hide Holds, Tidy;
    FromSame(chains[..n], Dropped(chains, h, i)[..n], b + 1);
  }

  lemma CutTail(c: seq<Entry>, e: Entry, tail: seq<Entry>)
    requires Suffix([e] + tail, c)
    ensures var p := |c| - |tail| - 1; p >= 0 && c[p] == e && Suffix(tail, c[..p] + c[p + 1..])
  {
    var p := |c| - |tail| - 1;
    assert c[p] == ([e] + tail)[0] == e;
    assert c[p + 1..] == tail by {
      assert c[p..][1..] == c[p + 1..] && ([e] + tail)[1..] == tail;
    }
    var c' := c[..p] + c[p + 1..];
    assert c'[|c'| - |tail|..] == tail;
  }

  lemma AllWalked(d: Dict)
    requires d.Valid()
    ensures Walked(d) == if d.size < 0x8000_0000 then d.m.chains else []
  {
    hide Sane, Stored, PowerOfTwo, Limit;
    LimitOfPower(d.size);
  }

  /** A walk meets every key, and as many entries as there are keys, if and only if there are less than 2^31
      buckets or no keys; from 2^31 buckets on it meets nothing. */
  lemma WholeWalk(d: Dict)
    requires d.Valid()
    ensures var walk := From(Walked(d), 0);
            && (Keys(walk) == d.m.contents.Keys <==> d.size < 0x8000_0000 || d.m.contents == map[])
            && (d.size < 0x8000_0000 ==> |walk| == |d.m.contents|)
            && (d.size >= 0x8000_0000 ==> walk == [])
  {
    AllWalked(d);
    hide Walked, Holds, Linked, Stored, And, PowerOfTwo;
    if d.size == 0 {
      NoChains(d.m.chains, d.m.index, d.hash);
      assert d.m.contents.Keys == {};
      assert Keys([]) == {};
    } else if d.size < 0x8000_0000 {
      NoKeysBelow(d.m.index, d.hash, d.size);
      FromKeys(d.m.chains, d.m.index, d.hash, 0);
      FromCount(d.m.chains, d.m.index, d.hash, 0);
    } else {
      assert Keys([]) == {};
      assert d.m.contents.Keys == {} <==> d.m.contents == map[];
    }
  }

  /** Walks through the table and deletes the doomed keys on the way. */
  method Walk(d: Dict, doomed: set<Key>) returns (seen: seq<Key>, ghost walk: seq<Entry>)
    requires d.Valid()
    modifies d, d.table, d.m.index.Values
    ensures d.Valid() && d.size == old(d.size) && walk == From(old(Walked(d)), 0)
    ensures |seen| == |walk| && forall i :: 0 <= i < |walk| ==> seen[i] == walk[i].key
    ensures d.m.contents == Remaining(old(d.m.contents), doomed, seen)
  {
    hide Dict.Valid, From, Met, Walked;
    Sizes(d);
    walk := From(Walked(d), 0);
    ghost var start := d.m.contents;
    MetNone(walk, start, doomed);
    var it := new DictIterator(d);
    seen := [];
    while true
      invariant d.Valid() && it.ht == d && d.size == old(d.size) == |d.m.chains| && it.Valid(Walked(d))
      invariant Met(walk, start, doomed, seen, it.Ahead(Walked(d)), d.m.contents)
      invariant d.table == old(d.table) && d.m.index.Values <= old(d.m.index.Values)
      decreases |it.Ahead(Walked(d))|
    {
      ghost var ahead, contents := it.Ahead(Walked(d)), d.m.contents;
      var e := Visit(it, doomed);
      if e == null {
        MetAll(walk, start, doomed, seen, ahead, contents);
        break;
      }
      Sizes(d);
      MetOne(walk, start, doomed, seen, ahead, contents, e);
      seen := seen + [e.key];
    }
  }

  /** The entries of the walk up to now were seen, the rest is ahead, and the doomed ones seen are gone. */
  ghost predicate Met(walk: seq<Entry>, start: map<Key, Value>, doomed: set<Key>, seen: seq<Key>,
                      ahead: seq<Entry>, contents: map<Key, Value>) {
    && |seen| <= |walk| && ahead == walk[|seen|..]
    && (forall i :: 0 <= i < |seen| ==> seen[i] == walk[i].key)
    && contents == Remaining(start, doomed, seen)
  }

  lemma MetNone(walk: seq<Entry>, start: map<Key, Value>, doomed: set<Key>)
    ensures Met(walk, start, doomed, [], walk, start)
  {
    NoneGone(start, doomed);
  }

  lemma MetOne(walk: seq<Entry>, start: map<Key, Value>, doomed: set<Key>, seen: seq<Key>,
               ahead: seq<Entry>, contents: map<Key, Value>, e: Entry)
    requires Met(walk, start, doomed, seen, ahead, contents) && e == At(ahead, 0)
    ensures Met(walk, start, doomed, seen + [e.key], Rest(ahead), contents - if e.key in doomed then {e.key} else {})
  {
    hide Remaining;
    OneMoreGone(start, doomed, seen, e.key);
    assert walk[|seen|..][1..] == walk[|seen| + 1..];
  }

  lemma MetAll(walk: seq<Entry>, start: map<Key, Value>, doomed: set<Key>, seen: seq<Key>,
               ahead: seq<Entry>, contents: map<Key, Value>)
    requires Met(walk, start, doomed, seen, ahead, contents) && At(ahead, 0) == null
    ensures |seen| == |walk| && (forall i :: 0 <= i < |walk| ==> seen[i] == walk[i].key)
    ensures contents == Remaining(start, doomed, seen)
  {
  }

  /** Below 2^31 buckets a walk that deletes on the way meets every key exactly once and leaves exactly the
      others; from there on it meets none. */
  method Sweep(d: Dict, doomed: set<Key>) returns (seen: seq<Key>)
    requires d.Valid()
    modifies d, d.table, d.m.index.Values
    ensures d.Valid() && d.size == old(d.size)
    ensures old(d.size) < 0x8000_0000 ==>
              && d.m.contents == old(d.m.contents) - doomed
              && |seen| == |old(d.m.contents)| && (set k | k in seen) == old(d.m.contents).Keys
    ensures old(d.size) >= 0x8000_0000 ==> seen == [] && d.m.contents == old(d.m.contents)
  {
    hide Dict.Valid, From, Keys, Remaining, Walked;
    Sizes(d);
    WholeWalk(d);
    NoneGone(d.m.contents, doomed);
    ghost var start, walk := d.m.contents, [];
    seen, walk := Walk(d, doomed);
    if d.size < 0x8000_0000 {
      AllGone(start, doomed, seen, walk);
    }
  }

  lemma Sizes(d: Dict)
    requires d.Valid()
    ensures d.size == |d.m.chains|
  {
  }

  /** A table asked for 2^31 buckets holds a key that a walk does not meet. */
  method LostKey(hash: Key -> u32, key: Key, val: Value) returns (d: Dict, seen: seq<Key>)
    ensures d.Valid() && key in d.m.contents && seen == []
  {
    d := new Dict(hash);
    var grown := d.Expand(0x8000_0000);
    assert d.size == 0x8000_0000 by {
      FullSize(d);
    }
    d.RoomBelow(key);
    var added := d.Add(key, val);
    seen := Sweep(d, {});
  }

  lemma FullSize(d: Dict)
    requires d.Valid() && 0x8000_0000 <= d.size < 0x1_0000_0000
    ensures d.size == 0x8000_0000
  {
    hide Sane, Stored, PowerOfTwo, Pow2;
    Pow2Values();
    PowerApart(d.size, 31);
  }

  /** One step of a walk that deletes the doomed keys. */
  method Visit(it: DictIterator, doomed: set<Key>) returns (e: Entry?)
    requires it.ht.Valid() && it.Valid(Walked(it.ht))
    modifies it, it.ht, it.ht.table, it.ht.m.index.Values
    ensures it.ht.Valid() && it.ht.size == old(it.ht.size) && it.Valid(Walked(it.ht))
    ensures e == At(old(it.Ahead(Walked(it.ht))), 0) && it.Ahead(Walked(it.ht)) == Rest(old(it.Ahead(Walked(it.ht))))
    ensures it.ht.m.contents == old(it.ht.m.contents) - (if e != null && e.key in doomed then {e.key} else {})
    ensures it.ht.table == old(it.ht.table) && it.ht.m.index.Values <= old(it.ht.m.index.Values)
  {
    Sizes(it.ht);
    hide Dict.Valid, From, Suffix, Rest, Walked;
    e := it.Next();
    if e != null && e.key in doomed {
      DeleteSeen(it, e);
    }
  }

  ghost function Gone(doomed: set<Key>, seen: seq<Key>): set<Key> {
    set k | k in doomed && k in seen
  }

  /** What is left when the doomed keys among those seen are gone. */
  ghost function Remaining(start: map<Key, Value>, doomed: set<Key>, seen: seq<Key>): map<Key, Value> {
    start - Gone(doomed, seen)
  }

  lemma NoneGone(start: map<Key, Value>, doomed: set<Key>)
    ensures Remaining(start, doomed, []) == start
  {
    assert Gone(doomed, []) == {};
  }

  lemma OneMoreGone(start: map<Key, Value>, doomed: set<Key>, seen: seq<Key>, k: Key)
    ensures Remaining(start, doomed, seen + [k]) == Remaining(start, doomed, seen) - (if k in doomed then {k} else {})
  {
    assert Gone(doomed, seen + [k]) == Gone(doomed, seen) + if k in doomed then {k} else {};
  }

  lemma AllGone(start: map<Key, Value>, doomed: set<Key>, seen: seq<Key>, walk: seq<Entry>)
    requires |seen| == |walk| && (forall i :: 0 <= i < |seen| ==> seen[i] == walk[i].key) && Keys(walk) == start.Keys
    ensures (set k | k in seen) == start.Keys && Remaining(start, doomed, seen) == start - doomed
  {
    forall k ensures k in seen <==> k in Keys(walk) {
      if k in Keys(walk) {
        var i :| 0 <= i < |walk| && walk[i].key == k;
        assert seen[i] == k;
      }
    }
  }

  /** Deletes the entry that was handed out last. */
  method DeleteSeen(it: DictIterator, e: Entry)
    requires it.ht.Valid() && it.Valid(Walked(it.ht)) && it.entry == e
    requires Suffix([e] + it.tail, Walked(it.ht)[it.index])
    modifies it.ht, it.ht.table, it.ht.m.index.Values
    ensures it.ht.Valid() && it.ht.size == old(it.ht.size) && it.Valid(Walked(it.ht))
    ensures it.Ahead(Walked(it.ht)) == old(it.Ahead(Walked(it.ht)))
    ensures it.ht.m.contents == old(it.ht.m.contents) - {e.key}
    ensures it.ht.table == old(it.ht.table) && it.ht.m.index == old(it.ht.m.index) - {e.key}
  {
    Sizes(it.ht);
    hide Dict.Valid, Suffix, From, Limit;
    DropVisited(it.ht, e, it.tail, it.index, Limit(it.ht.size));
    Sizes(it.ht);
  }

  method DropVisited(d: Dict, e: Entry, ghost tail: seq<Entry>, ghost b: nat, ghost n: nat)
    requires d.Valid() && b < n <= |d.m.chains| && Suffix([e] + tail, d.m.chains[b])
    modifies d, d.table, d.m.index.Values
    ensures d.Valid() && d.size == old(d.size) && |d.m.chains| == |old(d.m.chains)|
    ensures Suffix(tail, d.m.chains[b]) && From(d.m.chains[..n], b + 1) == old(From(d.m.chains[..n], b + 1))
    ensures d.m.contents == old(d.m.contents) - {e.key}
    ensures d.table == old(d.table) && d.m.index == old(d.m.index) - {e.key}
  {
    hide Dict.Valid, Suffix, From, Dropped, Holds;
    ghost var m := d.m;
    InTable(d, e, tail, b);
    var ok, h, i := d.Delete(e.key);
    DropKeepsWalk(m.chains, m.index, d.hash, h, i, e, tail, b, n);
  }

  lemma InTable(d: Dict, e: Entry, tail: seq<Entry>, b: nat)
    requires d.Valid() && b < |d.m.chains| && Suffix([e] + tail, d.m.chains[b])
    ensures e.key in d.m.contents && Holds(d.m.chains, d.m.index, d.m.index.Keys, d.hash)
  {
    hide Holds, Linked, Stored, And, PowerOfTwo;
    var c := d.m.chains[b];
    var p := |c| - |tail| - 1;
    assert c[p] == ([e] + tail)[0] == e;
    InChain(d.m.chains, d.m.index, d.hash, b, p);
  }
}
