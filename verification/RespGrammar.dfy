/** What the reader accepts, as a grammar over literal bytes: every reply on the wire is one of a few forms, and
    the reader gives a reply exactly if its input begins with a form that means this reply.  Nothing here refers
    to how the reader works; the proofs connect both, in both directions and at every nesting depth. */
module RespGrammar {
  import opened Options
  import opened Bytes
  import opened RespScan
  import opened Resp

  /** A form of a reply.  Each begins with a start byte; a line, a length or a count follows, and a line end.  The
      two bytes that end a body can be any, as the reader does not look at them. */
  datatype Item =
    | OneLine(start: byte, line: seq<byte>)
    | Blob(start: byte, body: seq<byte>, end: seq<byte>)
    | NoBlob(start: byte)
    | Many(start: byte, items: seq<Item>)
    | NoMany(start: byte)

  /** Maps, started by `%` or `|`, announce pairs. */
  function CountOf(start: byte, n: nat): nat {
    if start == 37 || start == 124 then n / 2 else n
  }

  function Spell(item: Item): (s: seq<byte>)
    decreases item, 1
  {
    match item
    case OneLine(b, line) => [b] + line + [13, 10]
    case Blob(b, body, end) => [b] + Decimal(|body|) + [13, 10] + (body + end)
    case NoBlob(b) => [b] + [45, 49] + [13, 10]
    case Many(b, items) => [b] + Decimal(CountOf(b, |items|)) + [13, 10] + SpellAll(items)
    case NoMany(b) => [b] + [45, 49] + [13, 10]
  }

  function SpellAll(items: seq<Item>): seq<byte>
    decreases items, 0
  {
    if items == [] then [] else Spell(items[0]) + SpellAll(items[1..])
  }

  /** No line end inside. */
  ghost predicate Unbroken(line: seq<byte>) {
    forall i :: 0 <= i && i + 1 < |line| ==> !(line[i] == 13 && line[i + 1] == 10)
  }

  /** The letter `c`, given in lower case, in either case. */
  predicate Letter(b: byte, c: byte) {
    b == c || (97 <= c <= 122 && b == c - 32)
  }

  /** `inf` or `nan`, perhaps after a minus sign, in any case. */
  predicate Special(s: seq<byte>) {
    if |s| == 4 then s[0] == 45 && Special(s[1..])
    else
      && |s| == 3
      && (|| (Letter(s[0], 105) && Letter(s[1], 110) && Letter(s[2], 102))
          || (Letter(s[0], 110) && Letter(s[1], 97) && Letter(s[2], 110)))
  }

  /** What a line means. */
  ghost predicate LineMeans(cfg: Config, b: byte, line: seq<byte>, r: Reply) {
    || (b == 43 && r == Text(Status, line) && 13 !in line && 10 !in line)
    || (b == 45 && r == Text(Error, line) && 13 !in line && 10 !in line)
    || (b == 58 && r.Int? && -0x8000_0000_0000_0000 <= r.value <= 0x7fff_ffff_ffff_ffff && Decimal(r.value) == line)
    || (b == 44 && r == Real(line) && |line| <= 325 && (Special(line) || cfg.finite(line)))
    || (b == 95 && r == NilReply && line == [])
    || (b == 35 && r == Flag(true) && (line == [116] || line == [84]))
    || (b == 35 && r == Flag(false) && (line == [102] || line == [70] || line == [0]))
    || (b == 40 && r == Text(Bignum, line)
        && forall i :: 0 <= i < |line| ==> 48 <= line[i] <= 57 || (i == 0 && line[0] == 45))
  }

  predicate StartsBlob(b: byte) {
    b == 36 || b == 61
  }

  predicate StartsMany(b: byte, k: Kind) {
    || (b == 42 && k == Array) || (b == 37 && k == Map) || (b == 126 && k == Set) || (b == 124 && k == Attr)
    || (b == 62 && k == Push)
  }

  ghost predicate Means(cfg: Config, item: Item, r: Reply)
    decreases item, 1
  {
    match item
    case OneLine(b, line) => Unbroken(line) && LineMeans(cfg, b, line, r)
    case Blob(b, body, end) =>
      && |end| == 2 && |body| <= 0x7fff_ffff_ffff_fffd
      && (|| (b == 36 && r == Text(String, body))
          || (b == 61 && |body| >= 4 && body[3] == 58 && r == Verbatim(body[..3], body[4..])))
    case NoBlob(b) => StartsBlob(b) && r == NilReply
    case Many(b, items) =>
      && r.Aggregate? && StartsMany(b, r.kind)
      && |items| <= 0x8000_0000 && (b == 37 || b == 124 ==> |items| % 2 == 0)
      && AllMean(cfg, items, r.elements)
    case NoMany(b) => (exists k :: StartsMany(b, k)) && r == NilReply
  }

  ghost predicate AllMean(cfg: Config, items: seq<Item>, rs: seq<Reply>)
    decreases items, 0
  {
    && |items| == |rs|
    && (items != [] ==> Means(cfg, items[0], rs[0]) && AllMean(cfg, items[1..], rs[1..]))
  }

  // ----- start bytes -----

  /** All the start bytes there are. */
  lemma StartBytes(b: byte)
    ensures KindOf(b) == None
            <==> b !in {43, 45, 58, 44, 95, 35, 40, 36, 61, 42, 37, 126, 124, 62}
    ensures StartsBlob(b) <==> KindOf(b) == Some(String) || KindOf(b) == Some(Verb)
    ensures forall k :: StartsMany(b, k) <==> KindOf(b) == Some(k) && IsAggregate(k)
    ensures KindOf(b) == Some(String) <==> b == 36
    ensures KindOf(b) == Some(Verb) <==> b == 61
    ensures KindOf(b).Some? && IsPaired(KindOf(b).value) <==> b == 37 || b == 124
  {
  }

  predicate IsLineKind(k: Kind) {
    !IsAggregate(k) && !k.String? && !k.Verb?
  }

  lemma SpecialIff(s: seq<byte>)
    ensures Special(s) <==> IsSpecialDouble(s)
  {
    if |s| == 4 {
      var t := s[1..];
      assert s == [s[0]] + t;
      SpecialThree(t);
      forall w: seq<byte> | |w| == 3 ensures SameText(s, [MINUS] + w) <==> s[0] == MINUS && SameText(t, w) {
        assert forall i :: 0 <= i < 3 ==> ([MINUS] + w)[i + 1] == w[i] && s[i + 1] == t[i];
        if s[0] == MINUS && SameText(t, w) {
          forall i | 0 <= i < 4 ensures Lower(s[i]) == ([MINUS] + w)[i] {
            if i > 0 {
              assert Lower(t[i - 1]) == w[i - 1];
            }
          }
        }
        if SameText(s, [MINUS] + w) {
          assert Lower(s[0]) == MINUS;
          forall i | 0 <= i < 3 ensures Lower(t[i]) == w[i] {
            assert Lower(s[i + 1]) == ([MINUS] + w)[i + 1];
          }
        }
      }
    } else if |s| == 3 {
      SpecialThree(s);
    }
  }

  lemma SpecialThree(s: seq<byte>)
    requires |s| == 3
    ensures Special(s) <==> SameText(s, INF) || SameText(s, NAN)
  {
  }

  /** The meaning of a line is what the parser makes of it. */
  lemma LineMeansIff(cfg: Config, b: byte, k: Kind, line: seq<byte>, r: Reply)
    requires KindOf(b) == Some(k) && IsLineKind(k)
    ensures LineMeans(cfg, b, line, r) <==> ParseLine(cfg, k, line) == Good(r)
  {
    hide Decimal, IsSpecialDouble, Special;
    if k.Integer? {
      if IsLongLong(if r.Int? then r.value else 0) && r.Int? && Decimal(r.value) == line {
        ParseDecimal(r.value);
      }
    } else if k.Double? {
      SpecialIff(line);
    }
  }

  // ----- one line at a time -----

  /** What a call for a reply comes to after a step with the given outcome. */
  ghost function Onward(cfg: Config, o: Outcome): (Reader, Option<Reply>)
    requires !o.Blocked?
  {
    match o
    case Moved(next, rest) => GetReply(cfg, Waiting(next, rest))
    case Emitted(r, rest) => (Waiting(START, rest), Some(r))
    case Failed(e) => (Dead(e), None)
  }

  /** The start byte is read first. */
  lemma ReadStart(cfg: Config, frames: seq<Frame>, b: byte, input: seq<byte>)
    ensures GetReply(cfg, Waiting(State(frames, None), [b] + input))
         == if KindOf(b).Some? then GetReply(cfg, Waiting(State(frames, KindOf(b)), input))
            else (Dead(BadType(b)), None)
  {
    assert ([b] + input)[1..] == input;
  }

  lemma OneStep(cfg: Config, st: State, buf: seq<byte>)
    ensures GetReply(cfg, Waiting(st, buf))
         == if Step(cfg, st, buf).Blocked? then (Waiting(st, buf), None) else Onward(cfg, Step(cfg, st, buf))
  {
  }

  /** A line and its end are cut off, and what is cut off is a line and its end. */
  lemma Cut(line: seq<byte>, rest: seq<byte>)
    requires Unbroken(line)
    ensures var s := line + [13, 10] + rest;
            FindCrlf(s) == |line| && s[..|line|] == line && s[|line| + 2..] == rest
  {
    var s := line + [13, 10] + rest;
    assert CrlfAt(s, |line|);
    forall j | 0 <= j < |line| ensures !CrlfAt(s, j) {
      assert s[j] == line[j];
      if j + 1 < |line| {
        assert s[j + 1] == line[j + 1];
      }
    }
    FirstCrlf(s, |line|);
  }

  lemma Pieces(s: seq<byte>, e: nat)
    requires CrlfAt(s, e)
    ensures s == s[..e] + [13, 10] + s[e + 2..]
  {
  }

  lemma CutOff(s: seq<byte>)
    requires FindCrlf(s) >= 0
    ensures var e := FindCrlf(s); Unbroken(s[..e]) && e + 2 <= |s| && s == s[..e] + [13, 10] + s[e + 2..]
  {
    hide FindCrlf;
    var e := FindCrlf(s);
    Pieces(s, e);
    forall i | 0 <= i && i + 1 < e ensures !(s[..e][i] == 13 && s[..e][i + 1] == 10) {
      assert !CrlfAt(s, i);
    }
  }

  lemma DecimalUnbroken(v: int)
    ensures Unbroken(Decimal(v))
  {
    NumeralDigits(if v < 0 then -v else v);
    forall i | 0 <= i < |Decimal(v)| ensures Decimal(v)[i] != 13 {
      if v >= 0 {
        assert Decimal(v)[i] in Numeral(v);
      } else if i > 0 {
        assert Decimal(v)[i] == Numeral(-v)[i - 1] && Numeral(-v)[i - 1] in Numeral(-v);
      }
    }
  }

  /** The outcome of a line whose kind is known, with `rest` behind it. */
  ghost function LineOutcome(cfg: Config, frames: seq<Frame>, k: Kind, line: seq<byte>, rest: seq<byte>)
    : (o: Outcome)
    requires !k.String? && !k.Verb?
    ensures !o.Blocked?
  {
    if IsAggregate(k) then
      if ParseLL(line).None? then Failed(BadCount) else Open(frames, k, ParseLL(line).value, rest)
    else Resp.Finish(frames, ParseLine(cfg, k, line), rest)
  }

  lemma ReadLine(cfg: Config, frames: seq<Frame>, b: byte, k: Kind, line: seq<byte>, rest: seq<byte>)
    requires KindOf(b) == Some(k) && !k.String? && !k.Verb? && Unbroken(line)
    ensures GetReply(cfg, Waiting(State(frames, None), [b] + line + [13, 10] + rest))
         == Onward(cfg, LineOutcome(cfg, frames, k, line, rest))
  {
    hide FindCrlf, Resp.Finish, Open, ParseLine, ParseLL, Unbroken, KindOf, GetReply, Onward;
    var input := line + [13, 10] + rest;
    assert [b] + line + [13, 10] + rest == [b] + input;
    ReadStart(cfg, frames, b, input);
    Cut(line, rest);
    OneStep(cfg, State(frames, Some(k)), input);
    assert Step(cfg, State(frames, Some(k)), input) == LineOutcome(cfg, frames, k, line, rest);
  }

  /** The outcome of a length line, with `rest` behind it. */
  ghost function LengthOutcome(frames: seq<Frame>, k: Kind, line: seq<byte>, rest: seq<byte>): Outcome {
    if ParseLL(line).None? then Failed(BadBulkLength)
    else
      var len := ParseLL(line).value;
      if len < -1 then Failed(BulkOutOfRange)
      else if len == -1 then Deliver(frames, NilReply, rest)
      else if len > MAX_BULK then Failed(LengthOverflow)
      else if len + 2 > |rest| then Blocked
      else Resp.Finish(frames, ParseBody(k, rest[..len]), rest[len + 2..])
  }

  lemma SliceTwice(s: seq<byte>, rest: seq<byte>, h: nat, len: nat)
    requires h <= |s| && s[h..] == rest && len + 2 <= |rest|
    ensures s[h..h + len] == rest[..len] && s[h + len + 2..] == rest[len + 2..]
  {
    assert s[h + len + 2..] == s[h..][len + 2..];
  }

  lemma LengthStep(frames: seq<Frame>, k: Kind, line: seq<byte>, rest: seq<byte>)
    requires Unbroken(line)
    ensures BulkStep(frames, k, line + [13, 10] + rest) == LengthOutcome(frames, k, line, rest)
  {
    hide FindCrlf, Resp.Finish, ParseBody, ParseLL, Unbroken, Deliver;
    var s := line + [13, 10] + rest;
    Cut(line, rest);
    if ParseLL(line).Some? && 0 <= ParseLL(line).value <= |rest| - 2 {
      SliceTwice(s, rest, |line| + 2, ParseLL(line).value);
    }
  }

  lemma ReadLength(cfg: Config, frames: seq<Frame>, b: byte, k: Kind, line: seq<byte>, rest: seq<byte>)
    requires KindOf(b) == Some(k) && (k.String? || k.Verb?) && Unbroken(line)
    ensures GetReply(cfg, Waiting(State(frames, None), [b] + line + [13, 10] + rest))
         == var o := LengthOutcome(frames, k, line, rest);
            if o.Blocked? then (Waiting(State(frames, Some(k)), line + [13, 10] + rest), None) else Onward(cfg, o)
  {
    hide BulkStep, LengthOutcome, Unbroken, KindOf, GetReply, Onward;
    var input := line + [13, 10] + rest;
    assert [b] + line + [13, 10] + rest == [b] + input;
    ReadStart(cfg, frames, b, input);
    LengthStep(frames, k, line, rest);
    OneStep(cfg, State(frames, Some(k)), input);
  }

  // ----- whatever is spelled is read -----

  lemma ReadOneLine(cfg: Config, frames: seq<Frame>, item: Item, r: Reply, rest: seq<byte>)
    requires item.OneLine? && Means(cfg, item, r)
    ensures GetReply(cfg, Waiting(State(frames, None), Spell(item) + rest)) == Onward(cfg, Deliver(frames, r, rest))
  {
    hide GetReply, Onward, Deliver, ParseLine, Unbroken;
    var k := KindOf(item.start).value;
    assert KindOf(item.start) == Some(k) && IsLineKind(k);
    LineMeansIff(cfg, item.start, k, item.line, r);
    ReadLine(cfg, frames, item.start, k, item.line, rest);
  }

  lemma ReadBlob(cfg: Config, frames: seq<Frame>, item: Item, r: Reply, rest: seq<byte>)
    requires item.Blob? && Means(cfg, item, r)
    ensures GetReply(cfg, Waiting(State(frames, None), Spell(item) + rest)) == Onward(cfg, Deliver(frames, r, rest))
  {
    StartBytes(item.start);
    hide GetReply, Onward, Deliver, Unbroken, Decimal, ParseLL;
    var k := KindOf(item.start).value;
    var line, body := Decimal(|item.body|), item.body;
    var tail := body + item.end + rest;
    DecimalUnbroken(|body|);
    ParseDecimal(|body|);
    ReadLength(cfg, frames, item.start, k, line, tail);
    assert Spell(item) + rest == [item.start] + line + [13, 10] + tail;
    assert tail[..|body|] == body && tail[|body| + 2..] == rest;
  }

  /** A length or a count of minus one is nil. */
  lemma ReadNothing(cfg: Config, frames: seq<Frame>, b: byte, rest: seq<byte>)
    requires StartsBlob(b) || exists k :: StartsMany(b, k)
    ensures GetReply(cfg, Waiting(State(frames, None), [b] + [45, 49] + [13, 10] + rest))
         == Onward(cfg, Deliver(frames, NilReply, rest))
  {
    StartBytes(b);
    var line: seq<byte> := [45, 49];
    assert Decimal(-1) == line;
    ParseDecimal(-1);
    assert Unbroken(line);
    hide GetReply, Onward, Deliver, Unbroken, Decimal, ParseLL;
    var k := KindOf(b).value;
    if StartsBlob(b) {
      ReadLength(cfg, frames, b, k, line, rest);
    } else {
      ReadLine(cfg, frames, b, k, line, rest);
    }
  }

  lemma ReadCount(cfg: Config, frames: seq<Frame>, b: byte, k: Kind, n: nat, rest: seq<byte>)
    requires StartsMany(b, k) && n <= MAX_ELEMENTS
    ensures GetReply(cfg, Waiting(State(frames, None), [b] + Decimal(n) + [13, 10] + rest))
         == Onward(cfg, Open(frames, k, n, rest))
  {
    StartBytes(b);
    hide GetReply, Onward, Open, Unbroken, Decimal, ParseLL;
    DecimalUnbroken(n);
    ParseDecimal(n);
    ReadLine(cfg, frames, b, k, Decimal(n), rest);
  }

  /** Whatever means a reply is read as that reply, into any stack of open aggregates. */
  lemma {:induction false} ReadItem(cfg: Config, frames: seq<Frame>, item: Item, r: Reply, rest: seq<byte>)
    requires Means(cfg, item, r)
    ensures GetReply(cfg, Waiting(State(frames, None), Spell(item) + rest)) == Onward(cfg, Deliver(frames, r, rest))
    decreases item, 1
  {
    match item
    case OneLine(_, _) => ReadOneLine(cfg, frames, item, r, rest);
    case Blob(_, _, _) => ReadBlob(cfg, frames, item, r, rest);
    case NoBlob(b) => ReadNothing(cfg, frames, b, rest);
    case NoMany(b) => ReadNothing(cfg, frames, b, rest);
    case Many(b, items) =>
      ReadHeader(cfg, frames, b, r.kind, items, rest);
      assert r == Aggregate(r.kind, r.elements);
      hide GetReply, Onward, Deliver, Spell, SpellAll;
      if items != [] {
        assert [] + r.elements == r.elements;
        ReadItems(cfg, frames, Frame(r.kind, |items|, []), items, r.elements, r.elements, rest);
      } else {
        assert r.elements == [];
      }
  }

  lemma ReadHeader(cfg: Config, frames: seq<Frame>, b: byte, k: Kind, items: seq<Item>, rest: seq<byte>)
    requires StartsMany(b, k) && |items| <= 0x8000_0000 && (b == 37 || b == 124 ==> |items| % 2 == 0)
    ensures GetReply(cfg, Waiting(State(frames, None), Spell(Many(b, items)) + rest))
         == if items == [] then Onward(cfg, Deliver(frames, Aggregate(k, []), rest))
            else GetReply(cfg, Waiting(State(frames + [Frame(k, |items|, [])], None), SpellAll(items) + rest))
  {
    var n, tail := CountOf(b, |items|), SpellAll(items) + rest;
    StartBytes(b);
    assert (if IsPaired(k) then 2 * n else n) == |items|;
    assert items == [] ==> tail == rest;
    hide GetReply, Deliver, Decimal, SpellAll, CountOf;
    assert Spell(Many(b, items)) + rest == [b] + Decimal(n) + [13, 10] + tail;
    hide Spell;
    ReadCount(cfg, frames, b, k, n, tail);
  }

  lemma FirstItem(cfg: Config, items: seq<Item>, rs: seq<Reply>, rest: seq<byte>)
    requires AllMean(cfg, items, rs) && items != []
    ensures |rs| == |items| && Means(cfg, items[0], rs[0]) && AllMean(cfg, items[1..], rs[1..])
    ensures |items| == 1 ==> SpellAll(items[1..]) + rest == rest
  {
    hide Spell, Means;
  }

  lemma FirstBytes(items: seq<Item>, rest: seq<byte>)
    requires items != []
    ensures SpellAll(items) + rest == Spell(items[0]) + (SpellAll(items[1..]) + rest)
  {
    hide Spell;
  }

  /** An element is read and fills its slot. */
  lemma {:induction false} ReadFirst(cfg: Config, frames: seq<Frame>, f: Frame, items: seq<Item>, rs: seq<Reply>,
                                     rest: seq<byte>)
    requires AllMean(cfg, items, rs) && items != []
    ensures GetReply(cfg, Waiting(State(frames + [f], None), SpellAll(items) + rest))
         == Onward(cfg, Filled(frames, f, rs[0], SpellAll(items[1..]) + rest))
    decreases items, 0
  {
    var tail := SpellAll(items[1..]) + rest;
    FirstItem(cfg, items, rs, rest);
    FirstBytes(items, rest);
    hide GetReply, Spell, Means, Deliver, SpellAll, AllMean, Filled, Onward;
    ReadItem(cfg, frames + [f], items[0], rs[0], tail);
    NextSlot(frames, f, rs[0], tail);
  }

  lemma {:induction false} ReadItems(cfg: Config, frames: seq<Frame>, f: Frame, items: seq<Item>, rs: seq<Reply>,
                                     all: seq<Reply>, rest: seq<byte>)
    requires AllMean(cfg, items, rs) && items != []
    requires f.count == |f.filled| + |items| <= 0x8000_0000 && all == f.filled + rs
    ensures GetReply(cfg, Waiting(State(frames + [f], None), SpellAll(items) + rest))
         == Onward(cfg, Deliver(frames, Aggregate(f.kind, all), rest))
    decreases items, 1
  {
    ReadFirst(cfg, frames, f, items, rs, rest);
    FirstItem(cfg, items, rs, rest);
    OneMore(f.filled, rs);
    hide GetReply, Spell, Means, Deliver, SpellAll, AllMean, Onward, Filled;
    var tail, f' := SpellAll(items[1..]) + rest, Frame(f.kind, f.count, f.filled + [rs[0]]);
    if |items| == 1 {
      FilledLast(cfg, frames, f, rs[0], tail);
    } else {
      FilledMore(cfg, frames, f, rs[0], tail);
      ReadItems(cfg, frames, f', items[1..], rs[1..], all, rest);
    }
  }

  ghost function Filled(frames: seq<Frame>, f: Frame, r: Reply, rest: seq<byte>): (o: Outcome)
    ensures !o.Blocked?
  {
    if |f.filled| + 1 >= f.count then Deliver(frames, Aggregate(f.kind, f.filled + [r]), rest)
    else if |f.filled| + 1 >= 0x8000_0000 then Failed(IndexOverflow)
    else Moved(State(frames + [f.(filled := f.filled + [r])], None), rest)
  }

  lemma FilledLast(cfg: Config, frames: seq<Frame>, f: Frame, r: Reply, rest: seq<byte>)
    requires |f.filled| + 1 >= f.count
    ensures Filled(frames, f, r, rest) == Deliver(frames, Aggregate(f.kind, f.filled + [r]), rest)
  {
    hide Deliver;
  }

  lemma FilledMore(cfg: Config, frames: seq<Frame>, f: Frame, r: Reply, rest: seq<byte>)
    requires |f.filled| + 1 < f.count && |f.filled| + 1 < 0x8000_0000
    ensures Onward(cfg, Filled(frames, f, r, rest))
         == GetReply(cfg, Waiting(State(frames + [Frame(f.kind, f.count, f.filled + [r])], None), rest))
  {
    hide Deliver, GetReply;
  }

  lemma OneMore(done: seq<Reply>, rs: seq<Reply>)
    requires rs != []
    ensures done + [rs[0]] + rs[1..] == done + rs
    ensures |rs| == 1 ==> done + [rs[0]] == done + rs
  {
  }

  /** A reply that is delivered fills the next slot, and perhaps completes the aggregate. */
  lemma NextSlot(frames: seq<Frame>, f: Frame, r: Reply, rest: seq<byte>)
    ensures Deliver(frames + [f], r, rest) == Filled(frames, f, r, rest)
  {
    var fs := frames + [f];
    assert fs[|fs| - 1] == f && fs[..|fs| - 1] == frames;
  }

  // ----- whatever is read was spelled -----

  /** `buf` begins with a form that means `r`, and `rest` is what is behind it. */
  ghost predicate Begins(cfg: Config, buf: seq<byte>, item: Item, r: Reply, rest: seq<byte>) {
    Means(cfg, item, r) && buf == Spell(item) + rest
  }

  /** From any stack of open aggregates: no reply is given, or the input begins with a form. */
  ghost predicate GivesNothing(cfg: Config, frames: seq<Frame>, buf: seq<byte>) {
    GetReply(cfg, Waiting(State(frames, None), buf)).1 == None
  }

  ghost predicate BeginsSome(cfg: Config, buf: seq<byte>) {
    exists item, r, rest :: Begins(cfg, buf, item, r, rest)
  }

  ghost predicate AllBegin(cfg: Config, buf: seq<byte>, n: nat, items: seq<Item>, rs: seq<Reply>, rest: seq<byte>) {
    |items| == n && AllMean(cfg, items, rs) && buf == SpellAll(items) + rest
  }

  lemma SpellsSomething(item: Item)
    ensures |Spell(item)| > 0
  {
  }

  lemma FindOneLine(cfg: Config, frames: seq<Frame>, b: byte, k: Kind, line: seq<byte>, rest: seq<byte>)
    requires KindOf(b) == Some(k) && IsLineKind(k) && Unbroken(line)
    ensures var buf := [b] + line + [13, 10] + rest;
            GivesNothing(cfg, frames, buf) || exists r :: Begins(cfg, buf, OneLine(b, line), r, rest)
  {
    hide GetReply, Deliver, ParseLine, Unbroken;
    ReadLine(cfg, frames, b, k, line, rest);
    var p := ParseLine(cfg, k, line);
    if p.Good? {
      LineMeansIff(cfg, b, k, line, p.reply);
      assert Begins(cfg, [b] + line + [13, 10] + rest, OneLine(b, line), p.reply, rest);
    }
  }

  lemma FindBlob(cfg: Config, frames: seq<Frame>, b: byte, k: Kind, line: seq<byte>, rest: seq<byte>)
    requires KindOf(b) == Some(k) && (k.String? || k.Verb?) && Unbroken(line)
    ensures var buf := [b] + line + [13, 10] + rest; GivesNothing(cfg, frames, buf) || BeginsSome(cfg, buf)
  {
    StartBytes(b);
    hide GetReply, Deliver, Unbroken;
    ReadLength(cfg, frames, b, k, line, rest);
    if ParseLL(line).Some? {
      var len := ParseLL(line).value;
      assert line == Decimal(len);
      hide Decimal, ParseLL;
      if len == -1 {
        assert line == [45, 49] by {
          MinusOne();
        }
        assert Begins(cfg, [b] + line + [13, 10] + rest, NoBlob(b), NilReply, rest);
      } else if 0 <= len <= MAX_BULK && len + 2 <= |rest| && ParseBody(k, rest[..len]).Good? {
        FoundBlob(cfg, b, k, len, rest);
      }
    }
  }

  lemma FoundBlob(cfg: Config, b: byte, k: Kind, len: nat, rest: seq<byte>)
    requires KindOf(b) == Some(k) && (k.String? || k.Verb?)
    requires len <= MAX_BULK && len + 2 <= |rest| && ParseBody(k, rest[..len]).Good?
    ensures var item, r := Blob(b, rest[..len], rest[len..len + 2]), ParseBody(k, rest[..len]).reply;
            Begins(cfg, [b] + Decimal(len) + [13, 10] + rest, item, r, rest[len + 2..])
  {
    StartBytes(b);
    hide Decimal;
    var body, end := rest[..len], rest[len..len + 2];
    assert rest == body + end + rest[len + 2..];
  }

  lemma MinusOne()
    ensures Decimal(-1) == [45, 49]
  {
  }

  /** Without a line end there is no reply. */
  lemma NoLine(cfg: Config, frames: seq<Frame>, b: byte, input: seq<byte>)
    requires FindCrlf(input) < 0
    ensures GivesNothing(cfg, frames, [b] + input)
  {
    hide FindCrlf, KindOf;
    ReadStart(cfg, frames, b, input);
    if KindOf(b).Some? {
      OneStep(cfg, State(frames, KindOf(b)), input);
    }
  }

  /** An input that gives a reply, from any stack of open aggregates, begins with a form. */
  lemma {:induction false} FindItem(cfg: Config, frames: seq<Frame>, buf: seq<byte>)
    ensures GivesNothing(cfg, frames, buf) || BeginsSome(cfg, buf)
    decreases |buf|, 1
  {
    hide KindOf, GetReply, BeginsSome, GivesNothing, FindCrlf, Unbroken;
    if buf == [] {
      NothingToRead(cfg, frames);
    } else {
      var b, input := buf[0], buf[1..];
      assert buf == [b] + input;
      var e := FindCrlf(input);
      if KindOf(b).None? {
        UnknownStart(cfg, frames, b, input);
      } else if e < 0 {
        NoLine(cfg, frames, b, input);
      } else {
        CutOff(input);
        assert buf == [b] + input[..e] + [13, 10] + input[e + 2..];
        FindFrom(cfg, frames, b, KindOf(b).value, input[..e], input[e + 2..]);
      }
    }
  }

  lemma NothingToRead(cfg: Config, frames: seq<Frame>)
    ensures GivesNothing(cfg, frames, [])
  {
  }

  lemma UnknownStart(cfg: Config, frames: seq<Frame>, b: byte, input: seq<byte>)
    requires KindOf(b) == None
    ensures GivesNothing(cfg, frames, [b] + input)
  {
    ReadStart(cfg, frames, b, input);
  }

  lemma {:induction false} FindFrom(cfg: Config, frames: seq<Frame>, b: byte, k: Kind, line: seq<byte>, rest: seq<byte>)
    requires KindOf(b) == Some(k) && Unbroken(line)
    ensures var buf := [b] + line + [13, 10] + rest; GivesNothing(cfg, frames, buf) || BeginsSome(cfg, buf)
    decreases |rest|, 4
  {
    hide KindOf, GetReply, Means, Spell, GivesNothing, Unbroken;
    if IsAggregate(k) {
      FindMany(cfg, frames, b, k, line, rest);
    } else if k.String? || k.Verb? {
      FindBlob(cfg, frames, b, k, line, rest);
    } else {
      FindOneLine(cfg, frames, b, k, line, rest);
    }
  }

  ghost predicate SomeBegin(cfg: Config, buf: seq<byte>, n: nat) {
    exists items, rs, rest :: AllBegin(cfg, buf, n, items, rs, rest)
  }

  /** The same for an aggregate with its elements. */
  lemma {:induction false} FindMany(cfg: Config, frames: seq<Frame>, b: byte, k: Kind, line: seq<byte>, rest: seq<byte>)
    requires KindOf(b) == Some(k) && IsAggregate(k) && Unbroken(line)
    ensures var buf := [b] + line + [13, 10] + rest; GivesNothing(cfg, frames, buf) || BeginsSome(cfg, buf)
    decreases |rest|, 3
  {
    StartBytes(b);
    hide KindOf, GetReply, Deliver, Unbroken, SomeBegin;
    ReadLine(cfg, frames, b, k, line, rest);
    if ParseLL(line).Some? {
      var n := ParseLL(line).value;
      assert line == Decimal(n);
      hide Decimal, ParseLL;
      if n == -1 {
        MinusOne();
        assert Begins(cfg, [b] + line + [13, 10] + rest, NoMany(b), NilReply, rest);
      } else if n == 0 {
        EmptyMany(cfg, b, k, rest);
      } else if 0 < n <= MAX_ELEMENTS {
        var count := if IsPaired(k) then 2 * n else n;
        FindItems(cfg, frames, Frame(k, count, []), rest);
        if SomeBegin(cfg, rest, count) && count <= 0x8000_0000 {
          FoundMany(cfg, b, k, n, count, rest);
        }
      }
    }
  }

  lemma EmptyMany(cfg: Config, b: byte, k: Kind, rest: seq<byte>)
    requires StartsMany(b, k)
    ensures Begins(cfg, [b] + Decimal(0) + [13, 10] + rest, Many(b, []), Aggregate(k, []), rest)
  {
    hide Decimal;
    assert [b] + Decimal(0) + [13, 10] + [] + rest == [b] + Decimal(0) + [13, 10] + rest;
  }

  lemma FoundMany(cfg: Config, b: byte, k: Kind, n: nat, count: nat, rest: seq<byte>)
    requires StartsMany(b, k) && SomeBegin(cfg, rest, count) && count <= 0x8000_0000
    requires count == if b == 37 || b == 124 then 2 * n else n
    ensures BeginsSome(cfg, [b] + Decimal(n) + [13, 10] + rest)
  {
    var items, rs, more :| AllBegin(cfg, rest, count, items, rs, more);
    hide AllMean, SpellAll, Decimal;
    var buf := [b] + Decimal(n) + [13, 10] + rest;
    assert buf == [b] + Decimal(n) + [13, 10] + SpellAll(items) + more;
    assert CountOf(b, |items|) == n;
    assert Begins(cfg, buf, Many(b, items), Aggregate(k, rs), more);
  }

  lemma {:induction false} FindItems(cfg: Config, frames: seq<Frame>, f: Frame, buf: seq<byte>)
    requires |f.filled| < f.count && |f.filled| < 0x8000_0000
    ensures || GivesNothing(cfg, frames + [f], buf)
            || (f.count <= 0x8000_0000 && SomeBegin(cfg, buf, f.count - |f.filled|))
    decreases |buf|, 2
  {
    hide GetReply, Means, Spell, Deliver, Filled, Onward, SomeBegin, AllBegin;
    FindItem(cfg, frames + [f], buf);
    if !GivesNothing(cfg, frames + [f], buf) {
      var item, r, rest :| Begins(cfg, buf, item, r, rest);
      ReadItem(cfg, frames + [f], item, r, rest);
      NextSlot(frames, f, r, rest);
      SpellsSomething(item);
      if |f.filled| + 1 >= f.count {
        OneBegins(cfg, buf, item, r, rest);
      } else if |f.filled| + 1 >= 0x8000_0000 {
        FilledNever(cfg, frames, f, r, rest);
      } else {
        FilledMore(cfg, frames, f, r, rest);
        var f' := Frame(f.kind, f.count, f.filled + [r]);
        FindItems(cfg, frames, f', rest);
        if SomeBegin(cfg, rest, f.count - |f.filled| - 1) {
          MoreBegin(cfg, buf, item, r, rest, f.count - |f.filled| - 1);
        }
      }
    }
  }

  lemma FilledNever(cfg: Config, frames: seq<Frame>, f: Frame, r: Reply, rest: seq<byte>)
    requires |f.filled| + 1 < f.count && |f.filled| + 1 >= 0x8000_0000
    ensures Onward(cfg, Filled(frames, f, r, rest)).1 == None
  {
  }

  lemma OneBegins(cfg: Config, buf: seq<byte>, item: Item, r: Reply, rest: seq<byte>)
    requires Begins(cfg, buf, item, r, rest)
    ensures SomeBegin(cfg, buf, 1)
  {
    assert [item][1..] == [] && [r][1..] == [];
    assert SpellAll([item]) == Spell(item) + [];
    assert AllBegin(cfg, buf, 1, [item], [r], rest);
  }

  lemma MoreBegin(cfg: Config, buf: seq<byte>, item: Item, r: Reply, rest: seq<byte>, n: nat)
    requires Begins(cfg, buf, item, r, rest) && SomeBegin(cfg, rest, n)
    ensures SomeBegin(cfg, buf, n + 1)
  {
    var items, rs, more :| AllBegin(cfg, rest, n, items, rs, more);
    hide Spell, Means;
    MoreForms(cfg, item, r, items, rs, more);
    assert AllBegin(cfg, buf, n + 1, [item] + items, [r] + rs, more);
  }

  // ----- the grammar -----

  /** The reader gives a reply if and only if its input begins with a form that means this reply, and then exactly
      this form is used up. */
  lemma ReadsTheGrammar(cfg: Config, buf: seq<byte>, r: Reply, rest: seq<byte>)
    ensures GetReply(cfg, Waiting(START, buf)) == (Waiting(START, rest), Some(r))
            <==> exists item :: Means(cfg, item, r) && buf == Spell(item) + rest
  {
    hide GetReply, Means, Spell;
    forall item, r', rest' | Begins(cfg, buf, item, r', rest')
      ensures GetReply(cfg, Waiting(START, buf)) == (Waiting(START, rest'), Some(r'))
    {
      ReadItem(cfg, [], item, r', rest');
    }
    FindItem(cfg, [], buf);
    if GetReply(cfg, Waiting(START, buf)) == (Waiting(START, rest), Some(r)) {
      var item, r', rest' :| Begins(cfg, buf, item, r', rest');
      assert Means(cfg, item, r) && buf == Spell(item) + rest;
    }
    if item :| Means(cfg, item, r) && buf == Spell(item) + rest {
      assert Begins(cfg, buf, item, r, rest);
    }
  }

  /** So no input can be understood in two ways. */
  lemma Unambiguous(cfg: Config, item: Item, item': Item, r: Reply, r': Reply, rest: seq<byte>, rest': seq<byte>)
    requires Means(cfg, item, r) && Means(cfg, item', r') && Spell(item) + rest == Spell(item') + rest'
    ensures r == r' && rest == rest'
  {
    hide GetReply, Means, Spell;
    ReadItem(cfg, [], item, r, rest);
    ReadItem(cfg, [], item', r', rest');
  }

  /** Reading a form takes it off what the rest of the stream would yield, into any stack of open aggregates. */
  lemma DrainItem(cfg: Config, frames: seq<Frame>, item: Item, r: Reply, rest: seq<byte>)
    requires Means(cfg, item, r)
    ensures Drain(cfg, Waiting(State(frames, None), Spell(item) + rest)) == AfterStep(cfg, Deliver(frames, r, rest))
  {
    hide Drain, GetReply, Means, Spell, Deliver;
    ReadItem(cfg, frames, item, r, rest);
    DrainByReply(cfg, Waiting(State(frames, None), Spell(item) + rest), Deliver(frames, r, rest));
  }

  /** What the reader yields after a step with the given outcome. */
  ghost function AfterStep(cfg: Config, o: Outcome): (seq<Reply>, Reader)
    requires !o.Blocked?
  {
    match o
    case Moved(next, rest) => Drain(cfg, Waiting(next, rest))
    case Emitted(r, rest) => ([r] + Drain(cfg, Waiting(START, rest)).0, Drain(cfg, Waiting(START, rest)).1)
    case Failed(e) => ([], Dead(e))
  }

  lemma DrainByReply(cfg: Config, rd: Reader, o: Outcome)
    requires !o.Blocked? && GetReply(cfg, rd) == Onward(cfg, o)
    ensures Drain(cfg, rd) == AfterStep(cfg, o)
  {
    FeedTwice(rd, [], []);
    GetReplyIsDrainStep(cfg, rd, []);
    FeedTwice(GetReply(cfg, rd).0, [], []);
    match o
    case Moved(next, rest) =>
      FeedTwice(Waiting(next, rest), [], []);
      GetReplyIsDrainStep(cfg, Waiting(next, rest), []);
    case Emitted(_, _) =>
    case Failed(_) =>
  }

  /** `$-1`, `=-1`, `*-1`, `%-1`, `~-1`, `|-1` and `>-1` are nil, wherever they stand. */
  lemma Nulls(cfg: Config, frames: seq<Frame>, b: byte, rest: seq<byte>)
    requires b in {36, 61, 42, 37, 126, 124, 62}
    ensures Drain(cfg, Waiting(State(frames, None), [b, 45, 49, 13, 10] + rest))
         == AfterStep(cfg, Deliver(frames, NilReply, rest))
  {
    hide Drain, GetReply, Deliver;
    var item := if b in {36, 61} then NoBlob(b) else NoMany(b);
    assert StartsBlob(b) || StartsMany(b, Array) || StartsMany(b, Map) || StartsMany(b, Set) || StartsMany(b, Attr)
        || StartsMany(b, Push);
    assert Spell(item) == [b, 45, 49, 13, 10];
    DrainItem(cfg, frames, item, NilReply, rest);
  }

  /** A whole stream: the replies it yields are what its forms mean, one after the other, up to where no form
      begins. */
  lemma {:induction false} StreamOfForms(cfg: Config, buf: seq<byte>)
    ensures exists items, rest ::
              && AllMean(cfg, items, Drain(cfg, Waiting(START, buf)).0) && buf == SpellAll(items) + rest
              && !BeginsSome(cfg, rest)
    decreases |buf|
  {
    FindItem(cfg, [], buf);
    if BeginsSome(cfg, buf) {
      hide Drain, GetReply, Means, Spell;
      var item, r, rest :| Begins(cfg, buf, item, r, rest);
      SpellsSomething(item);
      DrainItem(cfg, [], item, r, rest);
      StreamOfForms(cfg, rest);
      var items, last :| && AllMean(cfg, items, Drain(cfg, Waiting(START, rest)).0) && rest == SpellAll(items) + last
                         && !BeginsSome(cfg, last);
      MoreForms(cfg, item, r, items, Drain(cfg, Waiting(START, rest)).0, last);
    } else {
      NoReplyMeansDrained(cfg, Waiting(START, buf));
      hide BeginsSome;
      assert SpellAll([]) + buf == buf;
      assert AllMean(cfg, [], []);
    }
  }

  lemma MoreForms(cfg: Config, item: Item, r: Reply, items: seq<Item>, rs: seq<Reply>, rest: seq<byte>)
    requires Means(cfg, item, r) && AllMean(cfg, items, rs)
    ensures AllMean(cfg, [item] + items, [r] + rs)
    ensures Spell(item) + (SpellAll(items) + rest) == SpellAll([item] + items) + rest
  {
    hide Means, Spell;
    assert ([item] + items)[1..] == items && ([r] + rs)[1..] == rs;
    assert SpellAll([item] + items) == Spell(item) + SpellAll(items);
  }

  // ----- what is refused -----

  /** Every other start byte is an error. */
  lemma RefusedStart(cfg: Config, frames: seq<Frame>, b: byte, rest: seq<byte>)
    requires b !in {43, 45, 58, 44, 95, 35, 40, 36, 61, 42, 37, 126, 124, 62}
    ensures Drain(cfg, Waiting(State(frames, None), [b] + rest)) == ([], Dead(BadType(b)))
  {
    hide Drain, GetReply;
    ReadStart(cfg, frames, b, rest);
    DrainByReply(cfg, Waiting(State(frames, None), [b] + rest), Failed(BadType(b)));
  }

  function LineFault(b: byte, length: nat): Fault {
    if b == 58 then BadInteger
    else if b == 44 then (if length >= 326 then DoubleTooLarge else BadDouble)
    else if b == 95 then BadNil
    else if b == 35 then BadBool
    else if b == 40 then BadBignum
    else BadSimpleString
  }

  /** A complete line that means nothing is an error. */
  lemma RefusedLine(cfg: Config, frames: seq<Frame>, b: byte, line: seq<byte>, rest: seq<byte>)
    requires b in {43, 45, 58, 44, 95, 35, 40} && Unbroken(line) && !exists r :: LineMeans(cfg, b, line, r)
    ensures Drain(cfg, Waiting(State(frames, None), [b] + line + [13, 10] + rest))
         == ([], Dead(LineFault(b, |line|)))
  {
    var k := KindOf(b).value;
    assert KindOf(b) == Some(k) && IsLineKind(k);
    var p := ParseLine(cfg, k, line);
    if p.Good? {
      LineMeansIff(cfg, b, k, line, p.reply);
    }
    assert p == Bad(LineFault(b, |line|));
    hide Drain, GetReply, ParseLine, Unbroken, LineMeans;
    ReadLine(cfg, frames, b, k, line, rest);
    DrainByReply(cfg, Waiting(State(frames, None), [b] + line + [13, 10] + rest), Failed(LineFault(b, |line|)));
  }

  /** A length that is no number, or below minus one, or so large that the sum with the line end overflows. */
  lemma RefusedLength(cfg: Config, frames: seq<Frame>, b: byte, line: seq<byte>, rest: seq<byte>)
    requires StartsBlob(b) && Unbroken(line)
    ensures (forall v :: -0x8000_0000_0000_0000 <= v <= 0x7fff_ffff_ffff_ffff ==> Decimal(v) != line) ==>
              Drain(cfg, Waiting(State(frames, None), [b] + line + [13, 10] + rest)) == ([], Dead(BadBulkLength))
    ensures forall v :: -0x8000_0000_0000_0000 <= v < -1 && Decimal(v) == line ==>
              Drain(cfg, Waiting(State(frames, None), [b] + line + [13, 10] + rest)) == ([], Dead(BulkOutOfRange))
    ensures forall v :: 0x7fff_ffff_ffff_fffe <= v <= 0x7fff_ffff_ffff_ffff && Decimal(v) == line ==>
              Drain(cfg, Waiting(State(frames, None), [b] + line + [13, 10] + rest)) == ([], Dead(LengthOverflow))
  {
    StartBytes(b);
    var k := KindOf(b).value;
    hide Drain, GetReply, Unbroken, Deliver, Decimal;
    ReadLength(cfg, frames, b, k, line, rest);
    var o := LengthOutcome(frames, k, line, rest);
    forall v | IsLongLong(v) && Decimal(v) == line ensures ParseLL(line) == Some(v) {
      ParseDecimal(v);
    }
    if o.Failed? {
      DrainByReply(cfg, Waiting(State(frames, None), [b] + line + [13, 10] + rest), o);
    }
  }

  /** A count that is no number, or below minus one, or above 2^32 - 1. */
  lemma RefusedCount(cfg: Config, frames: seq<Frame>, b: byte, line: seq<byte>, rest: seq<byte>)
    requires b in {42, 37, 126, 124, 62} && Unbroken(line)
    ensures (forall v :: -0x8000_0000_0000_0000 <= v <= 0x7fff_ffff_ffff_ffff ==> Decimal(v) != line) ==>
              Drain(cfg, Waiting(State(frames, None), [b] + line + [13, 10] + rest)) == ([], Dead(BadCount))
    ensures forall v :: -0x8000_0000_0000_0000 <= v <= 0x7fff_ffff_ffff_ffff && Decimal(v) == line
                        && (v < -1 || v > 4294967295) ==>
              Drain(cfg, Waiting(State(frames, None), [b] + line + [13, 10] + rest)) == ([], Dead(CountOutOfRange))
  {
    StartBytes(b);
    var k := KindOf(b).value;
    hide Drain, GetReply, Unbroken, Deliver, Decimal;
    ReadLine(cfg, frames, b, k, line, rest);
    var o := LineOutcome(cfg, frames, k, line, rest);
    forall v | IsLongLong(v) && Decimal(v) == line ensures ParseLL(line) == Some(v) {
      ParseDecimal(v);
    }
    if o.Failed? {
      DrainByReply(cfg, Waiting(State(frames, None), [b] + line + [13, 10] + rest), o);
    }
  }
}
