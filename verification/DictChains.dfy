/** Buckets of a chained hash table: the arithmetic of bucket numbers, and what it means that the
    chains of entries hold certain keys. */
module DictChains {

  type Key(==, !new)
  type Value(!new)

  type u32 = x: nat | x < 0x1_0000_0000

  const INITIAL_SIZE: nat := 4
  const LONG_MAX: nat := 0x7fff_ffff_ffff_ffff
  const ULONG_RANGE: nat := 0x1_0000_0000_0000_0000

  /** The most buckets that an allocation of eight bytes each is not refused for. */
  const MAX_TABLE: nat := 0x1000_0000_0000_0000
  const SLOT_BYTES: nat := 8

  // ----- bucket numbers -----

  function Pow2(k: nat): (r: nat)
    ensures r > 0
  {
    if k == 0 then 1 else 2 * Pow2(k - 1)
  }

  ghost predicate PowerOfTwo(n: nat) {
    exists k: nat :: n == Pow2(k)
  }

  /** Bitwise and. */
  function And(a: nat, b: nat): (r: nat)
    ensures r <= a && r <= b
  {
    if a == 0 || b == 0 then 0
    else 2 * And(a / 2, b / 2) + if a % 2 == 1 && b % 2 == 1 then 1 else 0
  }

  /** A mask whose lowest bit is set keeps the lowest bit. */
  lemma MaskLowest(h: nat, n: nat)
    requires n > 0
    ensures And(h, 2 * n - 1) == 2 * And(h / 2, n - 1) + h % 2
  {
    assert (2 * n - 1) / 2 == n - 1 && (2 * n - 1) % 2 == 1;
  }

  /** Masking with one less than a power of two is taking the remainder. */
  lemma {:induction false} MaskIsRemainder(h: nat, k: nat)
    ensures And(h, Pow2(k) - 1) == h % Pow2(k)
  {
    hide And;
    if k == 0 {
      assert h % 1 == 0 && And(h, 0) <= 0;
    } else {
      var n, m := Pow2(k - 1), Pow2(k);
      assert m == 2 * n;
      hide Pow2;
      MaskIsRemainder(h / 2, k - 1);
      MaskOneMore(h, n, m);
    }
  }

  lemma MaskOneMore(h: nat, n: nat, m: nat)
    requires n > 0 && m == 2 * n && And(h / 2, n - 1) == h / 2 % n
    ensures And(h, m - 1) == h % m
  {
    hide And;
    MaskLowest(h, n);
    HalfRemainder(h, n);
  }

  lemma HalfRemainder(h: nat, n: nat)
    requires n > 0
    ensures h % (2 * n) == 2 * (h / 2 % n) + h % 2
  {
    var q, r := h / 2 / n, h / 2 % n;
    assert h / 2 == q * n + r;
    assert h == q * (2 * n) + (2 * r + h % 2);
    Remainder(h, 2 * n, q, 2 * r + h % 2);
  }

  lemma Remainder(h: nat, n: nat, q: nat, r: nat)
    requires h == q * n + r && r < n
    ensures h % n == r
  {
    var d := h / n - q;
    assert d * n == r - h % n by {
      assert h / n * n == (q + d) * n == q * n + d * n;
    }
    NoMultipleBetween(d, n);
  }

  lemma NoMultipleBetween(d: int, n: int)
    requires -n < d * n < n
    ensures d == 0
  {
  }

  /** An unsigned 32-bit number read as a signed one. */
  function ToInt(x: u32): int {
    if x < 0x8000_0000 then x else x - 0x1_0000_0000
  }

  lemma {:induction false} Pow2Grows(j: nat, k: nat)
    requires j <= k
    ensures Pow2(j) <= Pow2(k)
    ensures Pow2(k) == Pow2(j) * Pow2(k - j)
    decreases k
  {
    if j < k {
      Pow2Grows(j, k - 1);
      assert Pow2(k - j) == 2 * Pow2(k - 1 - j);
    }
  }

  lemma InitialPower()
    ensures PowerOfTwo(INITIAL_SIZE)
  {
    assert INITIAL_SIZE == Pow2(2);
  }

  lemma Pow2Values()
    ensures Pow2(31) == 0x8000_0000 && Pow2(32) == 0x1_0000_0000
    ensures Pow2(60) == MAX_TABLE && Pow2(61) == 2 * MAX_TABLE
  {
    assert Pow2(8) == 256;
    Pow2Grows(8, 16);
    Pow2Grows(16, 31);
    assert Pow2(15) == 2 * (2 * (2 * (2 * (2 * (2 * (2 * Pow2(8)))))));
    assert Pow2(31) == 2 * Pow2(30);
    Pow2Grows(30, 60);
  }

  /** The bucket of a key with hash value `h`. */
  function Bucket(h: u32, size: nat): (b: u32)
    requires size > 0
    ensures b < size
  {
    And(h, size - 1)
  }

  /** Bucket numbers are handed around as signed integers, in which -1 means that the key exists already.
      They survive this for every hash value exactly when there are at most 2^31 buckets. */
  lemma IndexFits(k: nat)
    ensures (forall h: u32 :: ToInt(Bucket(h, Pow2(k))) == Bucket(h, Pow2(k))) <==> k <= 31
  {
    hide Bucket, Pow2;
    Pow2Values();
    if k <= 31 {
      Pow2Grows(k, 31);
      forall h: u32 ensures ToInt(Bucket(h, Pow2(k))) == Bucket(h, Pow2(k)) {
        assert Bucket(h, Pow2(k)) < Pow2(k);
      }
    } else {
      Pow2Grows(32, k);
      SmallHash(0x8000_0000, k);
      assert ToInt(Bucket(0x8000_0000, Pow2(k))) < 0;
    }
  }

  /** A hash value below the number of buckets is its own bucket number. */
  lemma SmallHash(h: u32, k: nat)
    requires h < Pow2(k)
    ensures Bucket(h, Pow2(k)) == h
  {
    hide And, Pow2;
    MaskIsRemainder(h, k);
    Remainder(h, Pow2(k), 0, h);
  }

  /** With 2^32 buckets the last bucket's number turns into -1. */
  lemma LastOf2To32Buckets()
    ensures ToInt(Bucket(0xffff_ffff, Pow2(32))) == -1
  {
    hide Bucket, Pow2;
    Pow2Values();
    SmallHash(0xffff_ffff, 32);
  }

  /** There is no power of two between a power of two and its double. */
  lemma SamePower(a: nat, b: nat)
    requires PowerOfTwo(a) && PowerOfTwo(b) && a <= b < 2 * a
    ensures a == b
  {
    var j: nat :| a == Pow2(j);
    var k: nat :| b == Pow2(k);
    if k < j {
      Pow2Grows(k, j);
    } else if k > j {
      Pow2Grows(j + 1, k);
    }
  }

  /** Powers of two on this and that side of 2^k. */
  lemma PowerApart(n: nat, k: nat)
    requires PowerOfTwo(n)
    ensures n <= Pow2(k) || n >= Pow2(k + 1)
    ensures n < Pow2(k) ==> 2 * n <= Pow2(k) && PowerOfTwo(2 * n)
  {
    var j: nat :| n == Pow2(j);
    if j <= k {
      Pow2Grows(j, k);
    } else {
      Pow2Grows(k + 1, j);
    }
    if j < k {
      Pow2Grows(j + 1, k);
    }
    assert 2 * n == Pow2(j + 1);
  }

  /** A power of two below the largest table size can be doubled. */
  lemma RoomToDouble(n: nat)
    requires PowerOfTwo(n) && n < MAX_TABLE
    ensures 2 * n <= MAX_TABLE && PowerOfTwo(2 * n)
    ensures n < 0x8000_0000 ==> 2 * n <= 0x8000_0000
  {
    hide Pow2, PowerOfTwo;
    Pow2Values();
    PowerApart(n, 60);
    PowerApart(n, 31);
  }

  // ----- the bound of a walk -----

  /** A number of buckets cut down to a signed 32-bit integer. */
  function Signed(size: nat): int {
    ToInt(size % 0x1_0000_0000)
  }

  /** How many buckets a walk looks into. */
  function Limit(size: nat): (n: nat)
    ensures n <= size
  {
    if Signed(size) > 0 then Signed(size) else 0
  }

  /** A walk looks into all buckets of a table below 2^31, and into none from there on. */
  lemma LimitOfPower(size: nat)
    requires size == 0 || PowerOfTwo(size)
    ensures Limit(size) == if size < 0x8000_0000 then size else 0
  {
    hide Pow2;
    if size >= 0x8000_0000 {
      var k: nat :| size == Pow2(k);
      Pow2Values();
      if k <= 31 {
        Pow2Grows(k, 31);
      } else {
        Pow2Grows(32, k);
        Multiple(Pow2(k - 32), 0x1_0000_0000);
      }
    }
  }

  lemma Multiple(q: nat, n: nat)
    requires n > 0
    ensures n * q % n == 0
  {
    Remainder(n * q, n, q, 0);
  }

  /** The size of a table: the least power of two that is at least the initial size and `size`. */
  method NextPower(size: nat) returns (i: nat)
    requires size < ULONG_RANGE
    ensures size >= LONG_MAX ==> i == LONG_MAX
    ensures size < LONG_MAX ==>
              && PowerOfTwo(i) && INITIAL_SIZE <= i && size <= i < ULONG_RANGE
              && (INITIAL_SIZE < i ==> i / 2 < size)
  {
    i := INITIAL_SIZE;
    assert i == Pow2(2);
    if size >= LONG_MAX {
      return LONG_MAX;
    }
    while true
      invariant PowerOfTwo(i) && INITIAL_SIZE <= i < ULONG_RANGE
      invariant INITIAL_SIZE < i ==> i / 2 < size
      decreases 2 * size - i
    {
      if i >= size {
        return;
      }
      ghost var k: nat :| i == Pow2(k);
      assert 2 * i == Pow2(k + 1);
      i := i * 2 % ULONG_RANGE;
    }
  }

  // ----- chains -----

  class Entry {
    const key: Key
    var val: Value
    var next: Entry?

    constructor (key: Key, val: Value, next: Entry?)
      ensures this.key == key && this.val == val && this.next == next
    {
      this.key, this.val, this.next := key, val, next;
    }
  }

  function At(c: seq<Entry>, i: nat): Entry? {
    if i < |c| then c[i] else null
  }

  /** `first` starts the list of the entries `c`. */
  ghost predicate Chain(first: Entry?, c: seq<Entry>, next: map<Key, Entry?>) {
    && first == At(c, 0)
    && (forall i :: 0 <= i < |c| ==> c[i].key in next)
    && (forall i {:trigger next[c[i].key]} :: 0 <= i < |c| ==> next[c[i].key] == At(c, i + 1))
  }

  /** Every table slot starts the list of its chain. */
  ghost predicate Linked(table: seq<Entry?>, chains: seq<seq<Entry>>, next: map<Key, Entry?>) {
    && |table| == |chains|
    && (forall b {:trigger Chain(table[b], chains[b], next)} ::
          0 <= b < |chains| ==> Chain(table[b], chains[b], next))
  }

  ghost predicate Distinct(c: seq<Entry>) {
    forall i, j :: 0 <= i < j < |c| ==> c[i] != c[j]
  }

  /** The chain of bucket `b`: entries of the index with keys among `keys`, each once. */
  ghost predicate Tidy(c: seq<Entry>, index: map<Key, Entry>, keys: set<Key>, hash: Key -> u32, size: nat, b: nat) {
    && (forall i :: 0 <= i < |c| ==>
          && c[i].key in keys && c[i].key in index && index[c[i].key] == c[i]
          && size > 0 && Bucket(hash(c[i].key), size) == b)
    && Distinct(c)
  }

  /** The chains hold exactly the entries of `keys`, each in the bucket of its key. */
  ghost predicate Holds(chains: seq<seq<Entry>>, index: map<Key, Entry>, keys: set<Key>, hash: Key -> u32) {
    && (forall b {:trigger Tidy(chains[b], index, keys, hash, |chains|, b)} ::
          0 <= b < |chains| ==> Tidy(chains[b], index, keys, hash, |chains|, b))
    && (forall k <- keys ::
          chains != [] && k in index && index[k].key == k && index[k] in chains[Bucket(hash(k), |chains|)])
  }

  /** `chains` with `e` put in front of its chain. */
  ghost function Pushed(chains: seq<seq<Entry>>, e: Entry, hash: Key -> u32): (r: seq<seq<Entry>>)
    requires chains != []
    ensures |r| == |chains|
  {
    var b := Bucket(hash(e.key), |chains|);
    chains[b := [e] + chains[b]]
  }

  lemma PushHolds(chains: seq<seq<Entry>>, index: map<Key, Entry>, keys: set<Key>, hash: Key -> u32, e: Entry,
                  index': map<Key, Entry>)
    requires chains != [] && Holds(chains, index, keys, hash) && e.key !in keys
    requires e.key in index' && index'[e.key] == e && forall k <- keys :: k in index' && index'[k] == index[k]
    ensures Holds(Pushed(chains, e, hash), index', keys + {e.key}, hash)
  {
    hide And;
    var size, chains' := |chains|, Pushed(chains, e, hash);
    var h := Bucket(hash(e.key), size);
    forall b | 0 <= b < size ensures Tidy(chains'[b], index', keys + {e.key}, hash, size, b) {
      assert Tidy(chains[b], index, keys, hash, size, b);
    }
    forall k | k in keys + {e.key} ensures index'[k] in chains'[Bucket(hash(k), size)] {
      if k == e.key {
        assert chains'[h][0] == e;
      } else if Bucket(hash(k), size) == h {
        var i :| 0 <= i < |chains[h]| && chains[h][i] == index[k];
        assert chains'[h][i + 1] == index[k];
      }
    }
  }

  lemma ChainStays(first: Entry?, c: seq<Entry>, next: map<Key, Entry?>, next': map<Key, Entry?>)
    requires Chain(first, c, next) && forall e <- c :: e.key in next' && next'[e.key] == next[e.key]
    ensures Chain(first, c, next')
  {
    forall i | 0 <= i < |c| ensures next'[c[i].key] == At(c, i + 1) {
      assert next[c[i].key] == At(c, i + 1);
    }
  }

  lemma ChainGrows(first: Entry?, c: seq<Entry>, next: map<Key, Entry?>, e: Entry)
    requires Chain(first, c, next) && forall e' <- c :: e'.key != e.key
    ensures Chain(e, [e] + c, next[e.key := first])
  {
    var c', next' := [e] + c, next[e.key := first];
    forall i | 0 <= i < |c'| ensures next'[c'[i].key] == At(c', i + 1) {
      if i > 0 {
        assert c'[i] == c[i - 1] && next[c[i - 1].key] == At(c, i);
      }
    }
  }

  lemma ChainShrinks(first: Entry?, c: seq<Entry>, next: map<Key, Entry?>, i: nat, next': map<Key, Entry?>)
    requires Chain(first, c, next) && i < |c| && forall j, k :: 0 <= j < k < |c| ==> c[j].key != c[k].key
    requires forall e <- c :: e != c[i] ==>
               e.key in next' && next'[e.key] == if i > 0 && e == c[i - 1] then next[c[i].key] else next[e.key]
    ensures Chain(if i > 0 then first else next[c[i].key], c[..i] + c[i + 1..], next')
  {
    var c' := c[..i] + c[i + 1..];
    assert next[c[i].key] == At(c, i + 1);
    assert At(c', 0) == if i > 0 then At(c, 0) else At(c, i + 1);
    forall j | 0 <= j < |c'| ensures c'[j].key in next' && next'[c'[j].key] == At(c', j + 1) {
      ShrunkLink(first, c, next, i, next', j);
    }
  }

  lemma ShrunkLink(first: Entry?, c: seq<Entry>, next: map<Key, Entry?>, i: nat, next': map<Key, Entry?>, j: nat)
    requires Chain(first, c, next) && i < |c| && j + 1 < |c|
    requires forall j, k :: 0 <= j < k < |c| ==> c[j].key != c[k].key
    requires forall e <- c :: e != c[i] ==>
               e.key in next' && next'[e.key] == if i > 0 && e == c[i - 1] then next[c[i].key] else next[e.key]
    ensures var c' := c[..i] + c[i + 1..]; c'[j].key in next' && next'[c'[j].key] == At(c', j + 1)
  {
    var k := if j < i then j else j + 1;
    AtShrunk(c, i, j);
    ChainStep(first, c, next, k);
    ChainStep(first, c, next, i);
    hide At, Chain;
    assert c[k].key != c[i].key && c[k] in c;
    assert i > 0 ==> (c[k] == c[i - 1] <==> k == i - 1);
  }

  lemma AtShrunk(c: seq<Entry>, i: nat, j: nat)
    requires i < |c| && j + 1 < |c|
    ensures var c', k := c[..i] + c[i + 1..], if j < i then j else j + 1;
            c'[j] == c[k] && At(c', j + 1) == At(c, if j + 1 == i then i + 1 else k + 1)
  {
  }

  /** Pushing an entry relinks it, and one slot of the table. */
  lemma PushLinked(table: seq<Entry?>, chains: seq<seq<Entry>>, next: map<Key, Entry?>, hash: Key -> u32, e: Entry)
    requires chains != [] && Linked(table, chains, next)
    requires forall b :: 0 <= b < |chains| ==> forall e' <- chains[b] :: e'.key != e.key
    ensures var b := Bucket(hash(e.key), |chains|);
            Linked(table[b := e], Pushed(chains, e, hash), next[e.key := table[b]])
  {
    hide And, Chain;
    var h, chains' := Bucket(hash(e.key), |chains|), Pushed(chains, e, hash);
    forall b | 0 <= b < |chains| ensures Chain(table[h := e][b], chains'[b], next[e.key := table[h]]) {
      if b == h {
        ChainGrows(table[b], chains[b], next, e);
      } else {
        ChainKnown(table[b], chains[b], next);
        ChainStays(table[b], chains[b], next, next[e.key := table[h]]);
      }
    }
  }

  lemma ChainStart(first: Entry?, c: seq<Entry>, next: map<Key, Entry?>)
    requires Chain(first, c, next)
    ensures first == At(c, 0)
  {
  }

  lemma ChainStep(first: Entry?, c: seq<Entry>, next: map<Key, Entry?>, i: nat)
    requires Chain(first, c, next) && i < |c|
    ensures c[i].key in next && next[c[i].key] == At(c, i + 1)
  {
  }

  /** Where the chain of a key's bucket ends without the key, the key is not there. */
  lemma NotInChain(chains: seq<seq<Entry>>, index: map<Key, Entry>, hash: Key -> u32, key: Key)
    requires Holds(chains, index, index.Keys, hash) && chains != []
    requires forall e <- chains[Bucket(hash(key), |chains|)] :: e.key != key
    ensures key !in index
  {
  }

  lemma ChainsKnown(table: seq<Entry?>, chains: seq<seq<Entry>>, next: map<Key, Entry?>, b: nat)
    requires Linked(table, chains, next) && b < |chains|
    ensures Chain(table[b], chains[b], next)
  {
  }

  lemma NoChains(chains: seq<seq<Entry>>, index: map<Key, Entry>, hash: Key -> u32)
    requires Holds(chains, index, index.Keys, hash) && chains == []
    ensures forall k :: k !in index
  {
  }

  lemma InChain(chains: seq<seq<Entry>>, index: map<Key, Entry>, hash: Key -> u32, b: nat, i: nat)
    requires Holds(chains, index, index.Keys, hash) && b < |chains| && i < |chains[b]|
    ensures var e := chains[b][i]; e.key in index && index[e.key] == e && Bucket(hash(e.key), |chains|) == b
  {
    assert Tidy(chains[b], index, index.Keys, hash, |chains|, b);
  }

  lemma DistinctKeys(chains: seq<seq<Entry>>, index: map<Key, Entry>, hash: Key -> u32, b: nat, i: nat)
    requires Holds(chains, index, index.Keys, hash) && b < |chains| && 0 < i < |chains[b]|
    ensures chains[b][i - 1].key != chains[b][i].key
  {
    assert Tidy(chains[b], index, index.Keys, hash, |chains|, b);
  }

  lemma ChainKnown(first: Entry?, c: seq<Entry>, next: map<Key, Entry?>)
    requires Chain(first, c, next)
    ensures forall e <- c :: e.key in next
  {
  }

  /** `chains` without the entry at position `i` of bucket `b`. */
  ghost function Dropped(chains: seq<seq<Entry>>, b: nat, i: nat): seq<seq<Entry>>
    requires b < |chains| && i < |chains[b]|
  {
    chains[b := chains[b][..i] + chains[b][i + 1..]]
  }

  lemma DropHolds(chains: seq<seq<Entry>>, index: map<Key, Entry>, hash: Key -> u32, b: nat, i: nat)
    requires Holds(chains, index, index.Keys, hash) && b < |chains| && i < |chains[b]|
    ensures var k := chains[b][i].key;
            Holds(Dropped(chains, b, i), index - {k}, (index - {k}).Keys, hash)
  {
    hide And;
    var size, chains', c := |chains|, Dropped(chains, b, i), chains[b];
    var k := c[i].key;
    var index' := index - {k};
    assert Tidy(c, index, index.Keys, hash, size, b);
    forall b' | 0 <= b' < size ensures Tidy(chains'[b'], index', index'.Keys, hash, size, b') {
      assert Tidy(chains[b'], index, index.Keys, hash, size, b');
      DropTidy(c, i);
    }
    forall k' | k' in index'.Keys ensures index'[k'] in chains'[Bucket(hash(k'), size)] {
      if Bucket(hash(k'), size) == b {
        var j :| 0 <= j < |c| && c[j] == index[k'];
        assert chains'[b][if j < i then j else j - 1] == c[j];
      }
    }
  }

  lemma DropTidy(c: seq<Entry>, i: nat)
    requires i < |c| && Distinct(c)
    ensures var c' := c[..i] + c[i + 1..];
            Distinct(c') && forall j :: 0 <= j < |c'| ==> c'[j] in c && c'[j] != c[i]
  {
  }

  /** The links after dropping the entry at position `i` of the chain `c`. */
  ghost function Relinked(next: map<Key, Entry?>, c: seq<Entry>, i: nat): map<Key, Entry?>
    requires i < |c| && c[i].key in next
  {
    (if i > 0 then next[c[i - 1].key := next[c[i].key]] else next) - {c[i].key}
  }

  /** Dropping an entry relinks the one before it, or one slot of the table. */
  lemma DropLinked(table: seq<Entry?>, chains: seq<seq<Entry>>, next: map<Key, Entry?>, index: map<Key, Entry>,
                   hash: Key -> u32, b: nat, i: nat)
    requires Linked(table, chains, next) && Holds(chains, index, index.Keys, hash)
    requires b < |chains| && i < |chains[b]| && chains[b][i].key in next
    ensures Linked(if i > 0 then table else table[b := next[chains[b][i].key]],
                   Dropped(chains, b, i), Relinked(next, chains[b], i))
  {
    hide Bucket, Chain;
    var c, next' := chains[b], Relinked(next, chains[b], i);
    var chains', table' := Dropped(chains, b, i), if i > 0 then table else table[b := next[c[i].key]];
    assert Tidy(c, index, index.Keys, hash, |chains|, b);
    forall a | 0 <= a < |chains| ensures Chain(table'[a], chains'[a], next') {
      ChainKnown(table[a], chains[a], next);
      if a == b {
        ChainShrinks(table[b], c, next, i, next');
      } else {
        assert Tidy(chains[a], index, index.Keys, hash, |chains|, a);
        ChainStays(table[a], chains[a], next, next');
      }
    }
  }

  // ----- whole tables -----

  /** A table as a value: its chains; its entries, their links and their values, by key. */
  datatype Shape = Shape(chains: seq<seq<Entry>>, index: map<Key, Entry>,
                         next: map<Key, Entry?>, contents: map<Key, Value>)

  ghost predicate Sane(m: Shape, table: seq<Entry?>, hash: Key -> u32) {
    && m.next.Keys == m.index.Keys == m.contents.Keys
    && Holds(m.chains, m.index, m.index.Keys, hash)
    && Linked(table, m.chains, m.next)
  }

  /** The entries are as the value says. */
  ghost predicate Stored(m: Shape)
    reads m.index.Values
  {
    forall k <- m.index ::
      && k in m.next && k in m.contents
      && m.index[k].key == k && m.index[k].next == m.next[k] && m.index[k].val == m.contents[k]
  }

  /** Without the entry at position `i` of bucket `b`. */
  ghost function Without(m: Shape, b: nat, i: nat): Shape
    requires b < |m.chains| && i < |m.chains[b]| && m.chains[b][i].key in m.next
  {
    var k := m.chains[b][i].key;
    Shape(Dropped(m.chains, b, i), m.index - {k}, Relinked(m.next, m.chains[b], i), m.contents - {k})
  }

  lemma WithoutSane(m: Shape, table: seq<Entry?>, hash: Key -> u32, b: nat, i: nat)
    requires Sane(m, table, hash) && b < |m.chains| && i < |m.chains[b]|
    ensures var e := m.chains[b][i];
            && e.key in m.index && m.index[e.key] == e
            && |m.contents - {e.key}| == |m.contents| - 1
            && Sane(Without(m, b, i), if i > 0 then table else table[b := m.next[e.key]], hash)
    ensures i > 0 ==>
              var d := m.chains[b][i - 1];
              d.key in m.index && m.index[d.key] == d && d.key != m.chains[b][i].key
  {
    hide Holds, Linked, Bucket;
    var e := m.chains[b][i];
    InChain(m.chains, m.index, hash, b, i);
    if i > 0 {
      InChain(m.chains, m.index, hash, b, i - 1);
      DistinctKeys(m.chains, m.index, hash, b, i);
    }
    DropHolds(m.chains, m.index, hash, b, i);
    DropLinked(table, m.chains, m.next, m.index, hash, b, i);
    assert m.contents == (m.contents - {e.key})[e.key := m.contents[e.key]];
  }

  /** With the entry `e` for a new key in front of its chain. */
  ghost function With(m: Shape, e: Entry, first: Entry?, val: Value, hash: Key -> u32): Shape
    requires m.chains != []
  {
    Shape(Pushed(m.chains, e, hash), m.index[e.key := e], m.next[e.key := first], m.contents[e.key := val])
  }

  lemma WithSane(m: Shape, table: seq<Entry?>, hash: Key -> u32, e: Entry, val: Value)
    requires Sane(m, table, hash) && table != [] && |table| == |m.chains| && e.key !in m.contents
    ensures var h := Bucket(hash(e.key), |table|);
            Sane(With(m, e, table[h], val, hash), table[h := e], hash)
    ensures |m.contents[e.key := val]| == |m.contents| + 1
  {
    hide Holds, Linked, And;
    NotHeld(m.chains, m.index, m.index.Keys, hash, e.key);
    assert m.index[e.key := e].Keys == m.index.Keys + {e.key};
    PushHolds(m.chains, m.index, m.index.Keys, hash, e, m.index[e.key := e]);
    PushLinked(table, m.chains, m.next, hash, e);
  }

  lemma SetSane(m: Shape, table: seq<Entry?>, hash: Key -> u32, key: Key, val: Value)
    requires Sane(m, table, hash) && key in m.contents
    ensures Sane(m.(contents := m.contents[key := val]), table, hash)
    ensures |m.contents[key := val]| == |m.contents|
  {
    hide Holds, Linked;
    assert m.contents[key := val].Keys == m.contents.Keys;
  }

  // ----- moving chains to a larger table -----

  ghost function Keys(c: seq<Entry>): set<Key> {
    set e | e in c :: e.key
  }

  /** The keys in the first `n` buckets. */
  ghost function KeysBelow(index: map<Key, Entry>, hash: Key -> u32, size: nat, n: nat): set<Key>
    requires size > 0
  {
    set k | k in index && Bucket(hash(k), size) < n
  }

  /** A list of entries with different keys, all of them in the index. */
  ghost predicate Listed(c: seq<Entry>, index: map<Key, Entry>) {
    && (forall i :: 0 <= i < |c| ==> c[i].key in index && index[c[i].key] == c[i])
    && (forall i, j :: 0 <= i < j < |c| ==> c[i].key != c[j].key)
  }

  lemma {:induction false} KeysCount(c: seq<Entry>, index: map<Key, Entry>)
    requires Listed(c, index)
    ensures |Keys(c)| == |c|
  {
    if c == [] {
      assert Keys(c) == {};
    } else {
      var n := |c| - 1;
      KeysCount(c[..n], index);
      ListedAt(c, index, n);
      hide Keys, Listed;
      assert c[..n + 1] == c;
    }
  }

  /** Bucket `b` has exactly the keys that hash to it. */
  lemma BucketKeys(chains: seq<seq<Entry>>, index: map<Key, Entry>, hash: Key -> u32, b: nat)
    requires Holds(chains, index, index.Keys, hash) && b < |chains|
    ensures Listed(chains[b], index)
    ensures Keys(chains[b]) !! KeysBelow(index, hash, |chains|, b)
    ensures KeysBelow(index, hash, |chains|, b + 1) == KeysBelow(index, hash, |chains|, b) + Keys(chains[b])
  {
    hide And;
    var size, c := |chains|, chains[b];
    assert Tidy(c, index, index.Keys, hash, size, b);
    var lower, upper := KeysBelow(index, hash, size, b), KeysBelow(index, hash, size, b + 1);
    forall k ensures k in upper <==> k in lower || k in Keys(c) {
      if k in upper && k !in lower {
        assert index[k] in c;
      }
    }
    assert upper == lower + Keys(c);
  }

  lemma BucketCount(chains: seq<seq<Entry>>, index: map<Key, Entry>, hash: Key -> u32, b: nat)
    requires Holds(chains, index, index.Keys, hash) && b < |chains|
    ensures |KeysBelow(index, hash, |chains|, b + 1)| == |KeysBelow(index, hash, |chains|, b)| + |chains[b]|
  {
    hide Holds, Keys, KeysBelow, And;
    BucketKeys(chains, index, hash, b);
    KeysCount(chains[b], index);
  }

  lemma KeysBelowSubset(index: map<Key, Entry>, hash: Key -> u32, size: nat, n: nat)
    requires size > 0
    ensures KeysBelow(index, hash, size, n) <= index.Keys
  {
  }

  lemma KeysBelowCount(index: map<Key, Entry>, hash: Key -> u32, size: nat, n: nat)
    requires size > 0
    ensures |KeysBelow(index, hash, size, n)| <= |index|
  {
    var lower := KeysBelow(index, hash, size, n);
    assert index.Keys == lower + (index.Keys - lower);
  }

  lemma AllKeys(index: map<Key, Entry>, hash: Key -> u32, size: nat, n: nat)
    requires size > 0
    requires n >= size || |KeysBelow(index, hash, size, n)| == |index|
    ensures KeysBelow(index, hash, size, n) == index.Keys
  {
    var lower := KeysBelow(index, hash, size, n);
    assert lower <= index.Keys;
    if n < size {
      assert index.Keys == lower + (index.Keys - lower);
      assert |index.Keys - lower| == 0;
    }
  }

  /** Entries that are not held yet are in none of the chains. */
  lemma NotHeld(chains: seq<seq<Entry>>, index: map<Key, Entry>, keys: set<Key>, hash: Key -> u32, key: Key)
    requires Holds(chains, index, keys, hash) && key !in keys
    ensures forall b :: 0 <= b < |chains| ==> forall e <- chains[b] :: e.key != key
  {
    forall b | 0 <= b < |chains| ensures forall e <- chains[b] :: e.key != key {
      assert Tidy(chains[b], index, keys, hash, |chains|, b);
    }
  }

  lemma EmptyTable(table: seq<Entry?>, index: map<Key, Entry>, next: map<Key, Entry?>, hash: Key -> u32)
    requires forall b :: 0 <= b < |table| ==> table[b] == null
    ensures var none := seq(|table|, _ => []);
            Linked(table, none, next) && Holds(none, index, {}, hash)
  {
  }

  lemma ChainHead(first: Entry?, c: seq<Entry>, next: map<Key, Entry?>)
    requires Chain(first, c, next) && first != null
    ensures c != [] && first == c[0] && c[0].key in next && Chain(next[c[0].key], c[1..], next)
  {
    var rest := c[1..];
    assert next[c[0].key] == At(c, 1);
    forall i | 0 <= i < |rest| ensures next[rest[i].key] == At(rest, i + 1) {
      assert next[c[i + 1].key] == At(c, i + 2);
    }
  }

  lemma ListedAt(c: seq<Entry>, index: map<Key, Entry>, i: nat)
    requires Listed(c, index) && i < |c|
    ensures c[i].key in index && index[c[i].key] == c[i]
    ensures c[i].key !in Keys(c[..i]) && c[i].key in Keys(c) && c[i].key !in Keys(c[i + 1..])
    ensures Keys(c[..i + 1]) == Keys(c[..i]) + {c[i].key}
  {
    assert c[..i + 1] == c[..i] + [c[i]];
    assert c[i] in c;
  }

  /** Relinking entry `i` leaves the rest of the chain as it is. */
  lemma RestStays(first: Entry?, c: seq<Entry>, i: nat, index: map<Key, Entry>, next: map<Key, Entry?>,
                  next': map<Key, Entry?>)
    requires Listed(c, index) && i < |c| && Chain(first, c[i + 1..], next)
    requires next'.Keys == next.Keys && forall k <- next' :: k != c[i].key ==> next'[k] == next[k]
    ensures Chain(first, c[i + 1..], next')
  {
    var rest := c[i + 1..];
    ListedAt(c, index, i);
    forall e <- rest ensures e.key in next' && next'[e.key] == next[e.key] {
      assert e.key in Keys(rest);
    }
    hide Chain;
    ChainStays(first, rest, next, next');
  }

  lemma JoinedKeys(a: set<Key>, b: set<Key>, k: Key)
    ensures a + b + {k} == a + (b + {k})
  {
  }

  /** The table slots from `i` on start the lists of their chains. */
  ghost predicate LinkedFrom(table: seq<Entry?>, chains: seq<seq<Entry>>, next: map<Key, Entry?>, i: nat) {
    && |table| == |chains|
    && (forall b {:trigger Chain(table[b], chains[b], next)} ::
          i <= b < |chains| ==> Chain(table[b], chains[b], next))
  }

  lemma AllChains(table: seq<Entry?>, chains: seq<seq<Entry>>, next: map<Key, Entry?>)
    requires Linked(table, chains, next)
    ensures LinkedFrom(table, chains, next, 0)
  {
  }

  lemma NextChain(table: seq<Entry?>, chains: seq<seq<Entry>>, next: map<Key, Entry?>, i: nat)
    requires LinkedFrom(table, chains, next, i) && i < |chains|
    ensures Chain(table[i], chains[i], next)
  {
  }

  lemma NoKeysBelow(index: map<Key, Entry>, hash: Key -> u32, size: nat)
    requires size > 0
    ensures KeysBelow(index, hash, size, 0) == {}
  {
  }

  /** Relinking the entries of one bucket leaves the chains of later buckets alone. */
  lemma OtherBuckets(table: seq<Entry?>, chains: seq<seq<Entry>>, index: map<Key, Entry>, hash: Key -> u32,
                     next: map<Key, Entry?>, next': map<Key, Entry?>, i: nat)
    requires Holds(chains, index, index.Keys, hash) && i < |chains| && next.Keys == next'.Keys
    requires forall k <- next :: k !in Keys(chains[i]) ==> next'[k] == next[k]
    requires LinkedFrom(table, chains, next, i)
    ensures LinkedFrom(table, chains, next', i + 1)
  {
    hide And, Chain;
    assert Tidy(chains[i], index, index.Keys, hash, |chains|, i);
    forall b | i < b < |chains| ensures Chain(table[b], chains[b], next') {
      assert Tidy(chains[b], index, index.Keys, hash, |chains|, b);
      ChainKnown(table[b], chains[b], next);
      ChainStays(table[b], chains[b], next, next');
    }
  }
}
