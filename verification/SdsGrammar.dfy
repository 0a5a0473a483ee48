/** The lines that can be split into words, as a grammar over literal bytes.  A line is split into certain words if
    and only if the grammar spells it with these words; all other lines are refused. */
module SdsGrammar {
  import opened Options
  import opened Bytes
  import opened SdsArgs

  // ----- text in double quotes -----

  /** One byte in double quotes: itself, two hexadecimal digits, or one character after a backslash. */
  datatype Unit = Lit(c: byte) | Hex(h: byte, l: byte) | Esc(c: byte)

  predicate HexDigits(h: byte, l: byte) {
    && (48 <= h <= 57 || 97 <= h <= 102 || 65 <= h <= 70)
    && (48 <= l <= 57 || 97 <= l <= 102 || 65 <= l <= 70)
  }

  function HexOf(c: byte): int {
    if c <= 57 then c - 48 else if c >= 97 then c - 87 else c - 55
  }

  function SpellUnit(u: Unit): (s: seq<byte>)
    ensures |s| > 0
  {
    match u
    case Lit(c) => [c]
    case Hex(h, l) => [92, 120, h, l]
    case Esc(c) => [92, c]
  }

  predicate UnitOk(u: Unit) {
    match u
    case Lit(c) => c != 34 && c != 92 && c != 0
    case Hex(h, l) => HexDigits(h, l)
    case Esc(c) => c != 0
  }

  function UnitValue(u: Unit): byte
    requires UnitOk(u)
  {
    match u
    case Lit(c) => c
    case Hex(h, l) => 16 * HexOf(h) + HexOf(l)
    case Esc(c) =>
      if c == 110 then 10 else if c == 114 then 13 else if c == 116 then 9 else if c == 98 then 8
      else if c == 97 then 7 else c
  }

  function SpellUnits(us: seq<Unit>): seq<byte> {
    if us == [] then [] else SpellUnit(us[0]) + SpellUnits(us[1..])
  }

  predicate TwoHex(s: seq<byte>) {
    |s| >= 2 && HexDigits(s[0], s[1])
  }

  /** `\x` is only a plain `x` where two hexadecimal digits do not follow. */
  predicate UnitsOk(us: seq<Unit>) {
    us == [] || (UnitOk(us[0]) && UnitsOk(us[1..]) && (us[0] == Esc(120) ==> !TwoHex(SpellUnits(us[1..]) + [34])))
  }

  function UnitsValue(us: seq<Unit>): seq<byte>
    requires UnitsOk(us)
  {
    if us == [] then [] else [UnitValue(us[0])] + UnitsValue(us[1..])
  }

  // ----- text in single quotes -----

  /** An apostrophe is written with a backslash, and everything else as it is. */
  function SpellSingle(w: seq<byte>): seq<byte> {
    if w == [] then [] else (if w[0] == 39 then [92, 39] else [w[0]]) + SpellSingle(w[1..])
  }

  /** A text that ends with a backslash cannot be written in single quotes: the closing quote would belong to it. */
  predicate SingleOk(w: seq<byte>) {
    0 !in w && (w != [] ==> w[|w| - 1] != 92)
  }

  // ----- words -----

  datatype Tail = NoQuote | DoubleQuoted(units: seq<Unit>) | SingleQuoted(w: seq<byte>)

  /** A word: bare text, perhaps with a quoted part at its end. */
  datatype Token = Token(text: seq<byte>, tail: Tail)

  /** What ends bare text.  Vertical tabs and form feeds do not, although they count as blanks between words. */
  predicate Ends(c: byte) {
    c == 32 || c == 10 || c == 13 || c == 9
  }

  predicate Blank(c: byte) {
    Ends(c) || c == 11 || c == 12
  }

  predicate Bare(c: byte) {
    c != 0 && !Ends(c) && c != 34 && c != 39
  }

  predicate TokenOk(t: Token) {
    && (forall i :: 0 <= i < |t.text| ==> Bare(t.text[i]))
    && (t.text != [] ==> !Blank(t.text[0]))
    && match t.tail
       case NoQuote => t.text != []
       case DoubleQuoted(us) => UnitsOk(us)
       case SingleQuoted(w) => SingleOk(w)
  }

  function SpellTail(t: Tail): seq<byte> {
    match t
    case NoQuote => []
    case DoubleQuoted(us) => [34] + SpellUnits(us) + [34]
    case SingleQuoted(w) => [39] + SpellSingle(w) + [39]
  }

  function SpellToken(t: Token): seq<byte> {
    t.text + SpellTail(t.tail)
  }

  function TailValue(t: Tail): seq<byte>
    requires t.DoubleQuoted? ==> UnitsOk(t.units)
  {
    match t
    case NoQuote => []
    case DoubleQuoted(us) => UnitsValue(us)
    case SingleQuoted(w) => w
  }

  function TokenValue(t: Token): seq<byte>
    requires TokenOk(t)
  {
    t.text + TailValue(t.tail)
  }

  // ----- lines -----

  /** A word and the blanks behind it. */
  datatype Piece = Piece(token: Token, gap: seq<byte>)

  predicate Blanks(s: seq<byte>) {
    forall i :: 0 <= i < |s| ==> Blank(s[i])
  }

  /** Between two words there is a blank; behind bare text it is one that ends the text. */
  predicate PiecesOk(ps: seq<Piece>) {
    ps == []
    || (&& TokenOk(ps[0].token) && Blanks(ps[0].gap) && PiecesOk(ps[1..])
        && (|ps| > 1 ==> ps[0].gap != [])
        && (ps[0].token.tail.NoQuote? && ps[0].gap != [] ==> Ends(ps[0].gap[0])))
  }

  function SpellPieces(ps: seq<Piece>): seq<byte> {
    if ps == [] then [] else SpellToken(ps[0].token) + ps[0].gap + SpellPieces(ps[1..])
  }

  function Values(ps: seq<Piece>): seq<seq<byte>>
    requires PiecesOk(ps)
  {
    if ps == [] then [] else [TokenValue(ps[0].token)] + Values(ps[1..])
  }

  /** The line consists of blanks and then words with blanks between them, up to its end or a zero. */
  predicate Spells(line: seq<byte>, lead: seq<byte>, ps: seq<Piece>) {
    var end := |lead| + |SpellPieces(ps)|;
    && Blanks(lead) && PiecesOk(ps)
    && end <= |line| && line[..end] == lead + SpellPieces(ps) && (end < |line| ==> line[end] == 0)
  }

  // ----- texts at a position -----

  predicate Holds(line: seq<byte>, p: nat, s: seq<byte>) {
    p + |s| <= |line| && line[p..p + |s|] == s
  }

  lemma HoldsBoth(line: seq<byte>, p: nat, a: seq<byte>, b: seq<byte>)
    ensures Holds(line, p, a + b) <==> Holds(line, p, a) && Holds(line, p + |a|, b)
  {
    var n := p + |a| + |b|;
    if n <= |line| {
      assert line[p..n] == line[p..p + |a|] + line[p + |a|..n];
      if Holds(line, p, a + b) {
        assert line[p..p + |a|] == (a + b)[..|a|] == a;
        assert line[p + |a|..n] == (a + b)[|a|..] == b;
      }
    }
  }

  lemma HoldsAt(line: seq<byte>, p: nat, s: seq<byte>, k: nat)
    requires Holds(line, p, s) && k < |s|
    ensures At(line, p + k) == s[k]
  {
    assert line[p..p + |s|][k] == line[p + k];
  }

  lemma HoldsOne(line: seq<byte>, p: nat)
    requires p < |line|
    ensures Holds(line, p, [line[p]])
  {
  }

  lemma HoldsAll(line: seq<byte>)
    ensures Holds(line, 0, line)
  {
  }

  // ----- what is spelled is read -----

  lemma ReadUnit(line: seq<byte>, p: nat, u: Unit, cur: seq<byte>)
    requires UnitOk(u) && Holds(line, p, SpellUnit(u))
    requires u == Esc(120) ==> !HexDigits(At(line, p + 2), At(line, p + 3))
    ensures Word(line, p, Quoted, cur) == Word(line, p + |SpellUnit(u)|, Quoted, cur + [UnitValue(u)])
  {
    var s := SpellUnit(u);
    HoldsAt(line, p, s, 0);
    match u
    case Lit(c) =>
    case Hex(h, l) =>
      HoldsAt(line, p, s, 1);
      HoldsAt(line, p, s, 2);
      HoldsAt(line, p, s, 3);
    case Esc(c) =>
      HoldsAt(line, p, s, 1);
  }

  lemma FirstUnit(us: seq<Unit>, cur: seq<byte>)
    requires UnitsOk(us) && us != []
    ensures SpellUnits(us) + [34] == SpellUnit(us[0]) + (SpellUnits(us[1..]) + [34])
    ensures |SpellUnits(us)| == |SpellUnit(us[0])| + |SpellUnits(us[1..])|
    ensures cur + UnitsValue(us) == cur + [UnitValue(us[0])] + UnitsValue(us[1..])
  {
    hide SpellUnit, UnitValue;
    var a, b := SpellUnit(us[0]), SpellUnits(us[1..]);
    var v: seq<byte>, w := [UnitValue(us[0])], UnitsValue(us[1..]);
    assert SpellUnits(us) == a + b && UnitsValue(us) == v + w;
    hide SpellUnits, UnitsValue, UnitsOk;
    Grouped(a, b, [34]);
    Grouped(cur, v, w);
  }

  lemma Grouped(a: seq<byte>, b: seq<byte>, c: seq<byte>)
    ensures a + b + c == a + (b + c)
  {
  }

  lemma {:induction false} ReadUnits(line: seq<byte>, p: nat, us: seq<Unit>, cur: seq<byte>, end: nat, all: seq<byte>)
    requires UnitsOk(us) && Holds(line, p, SpellUnits(us) + [34])
    requires end == p + |SpellUnits(us)| && all == cur + UnitsValue(us)
    ensures Word(line, p, Quoted, cur) == if Closes(line, end) then Some((end + 1, all)) else None
    decreases |us|
  {
    hide Word, Holds, UnitOk, UnitValue, Closes;
    if us == [] {
      assert SpellUnits(us) + [34] == [34];
      HoldsAt(line, p, [34], 0);
      CloseQuote(line, p, cur);
      assert cur + [] == cur;
    } else {
      var u, rest := us[0], SpellUnits(us[1..]) + [34];
      assert UnitOk(u) && UnitsOk(us[1..]) && (u == Esc(120) ==> !TwoHex(rest));
      FirstUnit(us, cur);
      hide SpellUnits, UnitsValue, UnitsOk, TwoHex;
      HoldsBoth(line, p, SpellUnit(u), rest);
      if u == Esc(120) {
        NotHex(line, p, us[1..]);
      }
      ReadUnit(line, p, u, cur);
      ReadUnits(line, p + |SpellUnit(u)|, us[1..], cur + [UnitValue(u)], end, all);
    }
  }

  lemma CloseQuote(line: seq<byte>, p: nat, cur: seq<byte>)
    requires At(line, p) == 34
    ensures Word(line, p, Quoted, cur) == if Closes(line, p) then Some((p + 1, cur)) else None
  {
  }

  /** What follows a plain `\x` within the quotes are not two hexadecimal digits. */
  lemma NotHex(line: seq<byte>, p: nat, us: seq<Unit>)
    requires Holds(line, p + 2, SpellUnits(us) + [34]) && !TwoHex(SpellUnits(us) + [34])
    ensures !HexDigits(At(line, p + 2), At(line, p + 3))
  {
    var s := SpellUnits(us) + [34];
    HoldsAt(line, p + 2, s, 0);
    if |s| >= 2 {
      HoldsAt(line, p + 2, s, 1);
    } else {
      assert s[0] == 34;
    }
  }

  lemma {:induction false} ReadSingle(line: seq<byte>, p: nat, w: seq<byte>, cur: seq<byte>)
    requires SingleOk(w) && Holds(line, p, SpellSingle(w) + [39])
    ensures Word(line, p, Single, cur)
         == var end := p + |SpellSingle(w)|;
            if Closes(line, end) then Some((end + 1, cur + w)) else None
    decreases |w|
  {
    hide Holds;
    HoldsBoth(line, p, SpellSingle(w), [39]);
    if w == [] {
      HoldsAt(line, p, [39], 0);
      assert cur + [] == cur;
    } else {
      var c: seq<byte> := if w[0] == 39 then [92, 39] else [w[0]];
      var rest := SpellSingle(w[1..]) + [39];
      assert SpellSingle(w) + [39] == c + rest;
      HoldsBoth(line, p, c, rest);
      HoldsAt(line, p, c, 0);
      HoldsAt(line, p + |c|, rest, 0);
      if w[0] == 39 {
        HoldsAt(line, p, c, 1);
      } else if w[0] == 92 {
        SingleNext(w[1..]);
      }
      assert w[0] != 0 && SingleOk(w[1..]);
      ReadSingle(line, p + |c|, w[1..], cur + [w[0]]);
      assert cur + [w[0]] + w[1..] == cur + w;
    }
  }

  lemma SingleNext(w: seq<byte>)
    requires w != []
    ensures (SpellSingle(w) + [39])[0] != 39
  {
  }

  lemma {:induction false} ReadBare(line: seq<byte>, p: nat, text: seq<byte>, cur: seq<byte>)
    requires Holds(line, p, text) && forall i :: 0 <= i < |text| ==> Bare(text[i])
    ensures Word(line, p, Plain, cur) == Word(line, p + |text|, Plain, cur + text)
    decreases |text|
  {
    if text == [] {
      assert cur + [] == cur;
    } else {
      HoldsBoth(line, p, [text[0]], text[1..]);
      assert [text[0]] + text[1..] == text;
      HoldsAt(line, p, [text[0]], 0);
      ReadBare(line, p + 1, text[1..], cur + [text[0]]);
      assert cur + [text[0]] + text[1..] == cur + text;
    }
  }

  /** The tail of a token, once its bare text is read. */
  lemma ReadTail(line: seq<byte>, q: nat, tail: Tail, cur: seq<byte>)
    requires (tail.DoubleQuoted? ==> UnitsOk(tail.units)) && (tail.SingleQuoted? ==> SingleOk(tail.w))
    requires Holds(line, q, SpellTail(tail))
    requires var c := At(line, q); tail.NoQuote? ==> c == 0 || Ends(c)
    ensures Word(line, q, Plain, cur)
         == var end := q + |SpellTail(tail)|;
            if tail.NoQuote? then Some((if At(line, end) == 0 then end else end + 1, cur + TailValue(tail)))
            else if Closes(line, end - 1) then Some((end, cur + TailValue(tail))) else None
  {
    hide Word, Holds, SpellUnits, SpellSingle, UnitsOk, UnitsValue, Closes;
    match tail
    case NoQuote =>
      EndBare(line, q, cur);
      assert cur + [] == cur;
    case DoubleQuoted(us) =>
      var quoted := SpellUnits(us) + [34];
      Grouped([34], SpellUnits(us), [34]);
      HoldsBoth(line, q, [34], quoted);
      HoldsAt(line, q, [34], 0);
      OpenDouble(line, q, cur);
      ReadUnits(line, q + 1, us, cur, q + 1 + |SpellUnits(us)|, cur + UnitsValue(us));
    case SingleQuoted(w) =>
      var quoted := SpellSingle(w) + [39];
      Grouped([39], SpellSingle(w), [39]);
      HoldsBoth(line, q, [39], quoted);
      HoldsAt(line, q, [39], 0);
      OpenSingle(line, q, cur);
      ReadSingle(line, q + 1, w, cur);
  }

  /** Bare text and, perhaps, a quoted part. */
  lemma ReadToken(line: seq<byte>, p: nat, t: Token)
    requires TokenOk(t) && Holds(line, p, SpellToken(t))
    requires var c := At(line, p + |SpellToken(t)|); t.tail.NoQuote? ==> c == 0 || Ends(c)
    ensures Word(line, p, Plain, [])
         == var end := p + |SpellToken(t)|;
            if t.tail.NoQuote? then Some((if At(line, end) == 0 then end else end + 1, TokenValue(t)))
            else if Closes(line, end - 1) then Some((end, TokenValue(t))) else None
  {
    hide Word, Holds, SpellTail, TailValue, UnitsOk, SingleOk, Closes;
    assert t.tail.NoQuote? ==> SpellTail(t.tail) == [] by {
      TailLength(t.tail);
    }
    HoldsBoth(line, p, t.text, SpellTail(t.tail));
    ReadBare(line, p, t.text, []);
    assert [] + t.text == t.text;
    ReadTail(line, p + |t.text|, t.tail, t.text);
  }

  lemma TailLength(t: Tail)
    ensures if t.NoQuote? then SpellTail(t) == [] else |SpellTail(t)| > 0
  {
  }

  lemma EndBare(line: seq<byte>, p: nat, cur: seq<byte>)
    requires At(line, p) == 0 || Ends(At(line, p))
    ensures Word(line, p, Plain, cur) == Some((if At(line, p) == 0 then p else p + 1, cur))
  {
  }

  lemma OpenDouble(line: seq<byte>, p: nat, cur: seq<byte>)
    requires At(line, p) == 34
    ensures Word(line, p, Plain, cur) == Word(line, p + 1, Quoted, cur)
  {
  }

  lemma OpenSingle(line: seq<byte>, p: nat, cur: seq<byte>)
    requires At(line, p) == 39
    ensures Word(line, p, Plain, cur) == Word(line, p + 1, Mode.Single, cur)
  {
  }

  /** A token begins with a byte that is neither zero nor blank. */
  lemma TokenStart(line: seq<byte>, p: nat, t: Token)
    requires TokenOk(t) && Holds(line, p, SpellToken(t))
    ensures |SpellToken(t)| > 0 && At(line, p) != 0 && !IsSpace(At(line, p)) && SkipBlanks(line, p) == p
  {
    hide Holds, SpellUnits, SpellSingle;
    HoldsAt(line, p, SpellToken(t), 0);
    assert t.text != [] ==> SpellToken(t)[0] == t.text[0] && Bare(t.text[0]);
  }

  /** Blanks before a word change nothing. */
  lemma {:induction false} SkipGap(line: seq<byte>, p: nat, gap: seq<byte>)
    requires Holds(line, p, gap) && Blanks(gap)
    ensures SplitFrom(line, p) == SplitFrom(line, p + |gap|)
    decreases |gap|
  {
    hide Word;
    if gap != [] {
      HoldsBoth(line, p, [gap[0]], gap[1..]);
      assert [gap[0]] + gap[1..] == gap;
      HoldsAt(line, p, gap, 0);
      SkipGap(line, p + 1, gap[1..]);
      assert SkipBlanks(line, p) == SkipBlanks(line, p + 1);
    }
  }

  lemma SplitWord(line: seq<byte>, p: nat)
    requires At(line, p) != 0 && SkipBlanks(line, p) == p
    ensures SplitFrom(line, p)
         == if Word(line, p, Plain, []).None? then None
            else var (next, w) := Word(line, p, Plain, []).value; Prepend(w, SplitFrom(line, next))
  {
    hide Word, SkipBlanks;
  }

  /** One word and the gap behind it. */
  lemma ReadPiece(line: seq<byte>, p: nat, t: Token, gap: seq<byte>)
    requires TokenOk(t) && Blanks(gap) && Holds(line, p, SpellToken(t)) && Holds(line, p + |SpellToken(t)|, gap)
    requires gap == [] ==> At(line, p + |SpellToken(t)|) == 0
    requires t.tail.NoQuote? && gap != [] ==> Ends(gap[0])
    ensures SplitFrom(line, p) == Prepend(TokenValue(t), SplitFrom(line, p + |SpellToken(t)| + |gap|))
  {
    hide Word, TokenOk, TokenValue, SpellToken, SkipBlanks, SplitFrom, Prepend;
    var end := p + |SpellToken(t)|;
    TokenStart(line, p, t);
    if gap != [] {
      HoldsAt(line, end, gap, 0);
      HoldsBoth(line, end, [gap[0]], gap[1..]);
      assert [gap[0]] + gap[1..] == gap;
    }
    ReadToken(line, p, t);
    hide Holds;
    SplitWord(line, p);
    SkipGap(line, end, gap);
    if gap != [] {
      SkipGap(line, end + 1, gap[1..]);
    }
  }

  /** Words with their gaps, before whatever follows. */
  lemma {:induction false} ReadPieces(line: seq<byte>, p: nat, ps: seq<Piece>)
    requires PiecesOk(ps) && Holds(line, p, SpellPieces(ps))
    requires ps != [] && ps[|ps| - 1].gap == [] ==> At(line, p + |SpellPieces(ps)|) == 0
    ensures SplitFrom(line, p) == After(Values(ps), SplitFrom(line, p + |SpellPieces(ps)|))
    decreases |ps|
  {
    hide SplitFrom, Holds, TokenOk, TokenValue, SpellToken;
    var all := SplitFrom(line, p + |SpellPieces(ps)|);
    if ps == [] {
      assert all.Some? ==> [] + all.value == all.value;
    } else {
      var t, gap, rest := ps[0].token, ps[0].gap, SpellPieces(ps[1..]);
      assert SpellPieces(ps) == SpellToken(t) + (gap + rest);
      HoldsBoth(line, p, SpellToken(t), gap + rest);
      HoldsBoth(line, p + |SpellToken(t)|, gap, rest);
      ReadPiece(line, p, t, gap);
      ReadPieces(line, p + |SpellToken(t)| + |gap|, ps[1..]);
      assert all.Some? ==> [TokenValue(t)] + (Values(ps[1..]) + all.value) == Values(ps) + all.value;
    }
  }

  lemma SplitSpelled(line: seq<byte>, lead: seq<byte>, ps: seq<Piece>)
    requires Spells(line, lead, ps)
    ensures SplitFrom(line, 0) == Some(Values(ps))
  {
    hide SplitFrom, SpellPieces, PiecesOk, Values;
    var text := lead + SpellPieces(ps);
    assert Holds(line, 0, text);
    HoldsBoth(line, 0, lead, SpellPieces(ps));
    SkipGap(line, 0, lead);
    ReadPieces(line, |lead|, ps);
    AtEnd(line, |text|);
    assert Values(ps) + [] == Values(ps);
  }

  lemma AtEnd(line: seq<byte>, p: nat)
    requires At(line, p) == 0
    ensures SplitFrom(line, p) == Some([])
  {
  }

  // ----- what is read was spelled -----

  lemma HoldsMore(line: seq<byte>, p: nat, a: seq<byte>, b: seq<byte>)
    requires Holds(line, p, a) && Holds(line, p + |a|, b)
    ensures Holds(line, p, a + b)
  {
    HoldsBoth(line, p, a, b);
  }

  lemma HoldsSlice(line: seq<byte>, p: nat, q: nat)
    requires p <= q <= |line|
    ensures Holds(line, p, line[p..q])
  {
  }

  /** A backslash at the end leaves the quotes open. */
  lemma LoneBackslash(line: seq<byte>, p: nat, cur: seq<byte>)
    requires At(line, p) == 92 && At(line, p + 1) == 0
    ensures Word(line, p, Quoted, cur) == None
  {
    assert Word(line, p, Quoted, cur) == Word(line, p + 1, Quoted, cur + [92]);
  }

  /** The next unit of a quoted part that is closed later. */
  lemma NextUnit(line: seq<byte>, p: nat, cur: seq<byte>) returns (u: Unit)
    requires Word(line, p, Quoted, cur).Some? && At(line, p) != 34
    ensures UnitOk(u) && Holds(line, p, SpellUnit(u)) && (u == Esc(120) ==> !HexEscape(line, p))
    ensures Word(line, p, Quoted, cur) == Word(line, p + |SpellUnit(u)|, Quoted, cur + [UnitValue(u)])
  {
    var c := At(line, p);
    if c == 92 && At(line, p + 1) == 0 {
      LoneBackslash(line, p, cur);
    }
    if HexEscape(line, p) {
      u := Hex(At(line, p + 2), At(line, p + 3));
    } else if c == 92 {
      u := Esc(At(line, p + 1));
    } else {
      u := Lit(c);
    }
  }

  lemma {:induction false} FindUnits(line: seq<byte>, p: nat, cur: seq<byte>) returns (us: seq<Unit>)
    requires Word(line, p, Quoted, cur).Some?
    ensures UnitsOk(us) && Holds(line, p, SpellUnits(us) + [34])
    ensures Word(line, p, Quoted, cur).value == (p + |SpellUnits(us)| + 1, cur + UnitsValue(us))
    ensures Closes(line, p + |SpellUnits(us)|)
    decreases |line| - p
  {
    hide Word, UnitOk, UnitValue, Closes, HexEscape;
    if At(line, p) == 34 {
      CloseQuote(line, p, cur);
      us := [];
      assert SpellUnits(us) + [34] == [34] && cur + UnitsValue(us) == cur;
    } else {
      if p >= |line| {
        PastEnd(line, p, cur);
      }
      var u := NextUnit(line, p, cur);
      hide Holds, SpellUnits, UnitsOk, UnitsValue, SpellUnit;
      var more := FindUnits(line, p + |SpellUnit(u)|, cur + [UnitValue(u)]);
      FoundUnit(line, p, u, more, cur);
      us := [u] + more;
    }
  }

  lemma PastEnd(line: seq<byte>, p: nat, cur: seq<byte>)
    requires p >= |line|
    ensures Word(line, p, Quoted, cur) == None && Word(line, p, Mode.Single, cur) == None
  {
  }

  lemma NotTwoHex(line: seq<byte>, p: nat, rest: seq<byte>)
    requires Holds(line, p + 2, rest) && Holds(line, p, [92, 120]) && !HexEscape(line, p)
    ensures !TwoHex(rest)
  {
    HoldsAt(line, p, [92, 120], 0);
    HoldsAt(line, p, [92, 120], 1);
    if |rest| >= 2 {
      HoldsAt(line, p + 2, rest, 0);
      HoldsAt(line, p + 2, rest, 1);
    }
  }

  lemma FoundUnit(line: seq<byte>, p: nat, u: Unit, more: seq<Unit>, cur: seq<byte>)
    requires UnitOk(u) && UnitsOk(more) && Holds(line, p + |SpellUnit(u)|, SpellUnits(more) + [34])
    requires Holds(line, p, SpellUnit(u)) && (u == Esc(120) ==> !HexEscape(line, p))
    ensures UnitsOk([u] + more) && Holds(line, p, SpellUnits([u] + more) + [34])
    ensures |SpellUnits([u] + more)| == |SpellUnit(u)| + |SpellUnits(more)|
    ensures cur + UnitsValue([u] + more) == cur + [UnitValue(u)] + UnitsValue(more)
  {
    hide Holds, HexEscape, UnitOk, UnitValue, TwoHex;
    var us, rest := [u] + more, SpellUnits(more) + [34];
    assert us[0] == u && us[1..] == more;
    if u == Esc(120) {
      NotTwoHex(line, p, rest);
    }
    assert UnitsOk(us);
    FirstUnit(us, cur);
    hide SpellUnits, UnitsOk, UnitsValue, SpellUnit;
    HoldsMore(line, p, SpellUnit(u), rest);
  }

  /** The next character of a part in single quotes that is closed later, and how it was written. */
  lemma NextChar(line: seq<byte>, p: nat, cur: seq<byte>) returns (c: byte, s: seq<byte>)
    requires Word(line, p, Mode.Single, cur).Some? && At(line, p) != 39
    ensures c != 0 && s == (if c == 39 then [92, 39] else [c]) && Holds(line, p, s)
    ensures c == 92 ==> At(line, p + 1) != 39
    ensures Word(line, p, Mode.Single, cur) == Word(line, p + |s|, Mode.Single, cur + [c])
  {
    if At(line, p) == 92 && At(line, p + 1) == 39 {
      c, s := 39, [92, 39];
    } else {
      c, s := At(line, p), [At(line, p)];
    }
  }

  lemma CloseSingle(line: seq<byte>, p: nat, cur: seq<byte>)
    requires At(line, p) == 39
    ensures Word(line, p, Mode.Single, cur) == if Closes(line, p) then Some((p + 1, cur)) else None
  {
  }

  lemma {:induction false} FindSingle(line: seq<byte>, p: nat, cur: seq<byte>) returns (w: seq<byte>)
    requires Word(line, p, Mode.Single, cur).Some?
    ensures SingleOk(w) && Holds(line, p, SpellSingle(w) + [39])
    ensures Word(line, p, Mode.Single, cur).value == (p + |SpellSingle(w)| + 1, cur + w)
    ensures Closes(line, p + |SpellSingle(w)|)
    decreases |line| - p
  {
    hide Word, Closes;
    if At(line, p) == 39 {
      CloseSingle(line, p, cur);
      w := [];
      assert SpellSingle(w) + [39] == [39] && cur + w == cur;
    } else {
      if p >= |line| {
        PastEnd(line, p, cur);
      }
      var c, s := NextChar(line, p, cur);
      hide Holds, SpellSingle, SingleOk;
      var more := FindSingle(line, p + |s|, cur + [c]);
      FoundChar(line, p, c, s, more, cur);
      w := [c] + more;
    }
  }

  lemma FirstChar(c: byte, s: seq<byte>, more: seq<byte>)
    requires s == if c == 39 then [92, 39] else [c]
    ensures SpellSingle([c] + more) + [39] == s + (SpellSingle(more) + [39])
    ensures |SpellSingle([c] + more)| == |s| + |SpellSingle(more)|
  {
    var w := [c] + more;
    assert w[0] == c && w[1..] == more;
    assert SpellSingle(w) == s + SpellSingle(more);
    hide SpellSingle;
    Grouped(s, SpellSingle(more), [39]);
  }

  lemma FoundChar(line: seq<byte>, p: nat, c: byte, s: seq<byte>, more: seq<byte>, cur: seq<byte>)
    requires c != 0 && s == (if c == 39 then [92, 39] else [c])
    requires SingleOk(more) && Holds(line, p + |s|, SpellSingle(more) + [39])
    requires Holds(line, p, s)
    requires c == 92 ==> At(line, p + 1) != 39
    ensures SingleOk([c] + more) && Holds(line, p, SpellSingle([c] + more) + [39])
    ensures |SpellSingle([c] + more)| == |s| + |SpellSingle(more)|
    ensures cur + ([c] + more) == cur + [c] + more
  {
    var rest := SpellSingle(more) + [39];
    if more == [] {
      assert rest == [39];
      HoldsAt(line, p + |s|, rest, 0);
    }
    hide SpellSingle, Holds;
    FirstChar(c, s, more);
    HoldsMore(line, p, s, rest);
    Grouped(cur, [c], more);
  }

  /** What a word was spelled as, once `cur` is read. */
  ghost predicate TokenAt(line: seq<byte>, p: nat, cur: seq<byte>, next: nat, value: seq<byte>, t: Token) {
    var end := p + |SpellToken(t)|;
    && (forall i :: 0 <= i < |t.text| ==> Bare(t.text[i]))
    && (t.tail.DoubleQuoted? ==> UnitsOk(t.tail.units)) && (t.tail.SingleQuoted? ==> SingleOk(t.tail.w))
    && Holds(line, p, SpellToken(t)) && value == cur + (t.text + TailValue(t.tail))
    && if t.tail.NoQuote? then
         if At(line, end) == 0 then next == end else Ends(At(line, end)) && next == end + 1
       else
         next == end && Closes(line, end - 1)
  }

  lemma BareStep(line: seq<byte>, p: nat, cur: seq<byte>)
    requires Bare(At(line, p))
    ensures Word(line, p, Plain, cur) == Word(line, p + 1, Plain, cur + [At(line, p)])
  {
  }

  lemma {:induction false} FindToken(line: seq<byte>, p: nat, cur: seq<byte>) returns (t: Token)
    requires p <= |line| && Word(line, p, Plain, cur).Some?
    ensures var (next, value) := Word(line, p, Plain, cur).value; TokenAt(line, p, cur, next, value, t)
    decreases |line| - p
  {
    hide Closes, Word, UnitsOk, UnitsValue, SpellUnits, SingleOk, SpellSingle, Holds, TokenAt;
    var c := At(line, p);
    if c == 0 || Ends(c) {
      EndBare(line, p, cur);
      t := Token([], NoQuote);
      NoToken(line, p, cur);
    } else if c == 34 {
      OpenDouble(line, p, cur);
      var us := FindUnits(line, p + 1, cur);
      t := Token([], DoubleQuoted(us));
      DoubleToken(line, p, us, cur);
    } else if c == 39 {
      OpenSingle(line, p, cur);
      var w := FindSingle(line, p + 1, cur);
      t := Token([], SingleQuoted(w));
      SingleToken(line, p, w, cur);
    } else {
      BareStep(line, p, cur);
      var more := FindToken(line, p + 1, cur + [c]);
      var (next, value) := Word(line, p, Plain, cur).value;
      t := Token([c] + more.text, more.tail);
      LongerToken(line, p, c, more, cur, next, value);
    }
  }

  lemma NoToken(line: seq<byte>, p: nat, cur: seq<byte>)
    requires p <= |line| && (At(line, p) == 0 || Ends(At(line, p)))
    ensures TokenAt(line, p, cur, if At(line, p) == 0 then p else p + 1, cur, Token([], NoQuote))
  {
    assert cur + ([] + []) == cur;
  }

  lemma DoubleToken(line: seq<byte>, p: nat, us: seq<Unit>, cur: seq<byte>)
    requires p < |line| && line[p] == 34 && UnitsOk(us) && Holds(line, p + 1, SpellUnits(us) + [34])
    requires Closes(line, p + 1 + |SpellUnits(us)|)
    ensures TokenAt(line, p, cur, p + 1 + |SpellUnits(us)| + 1, cur + UnitsValue(us), Token([], DoubleQuoted(us)))
  {
    hide UnitsOk, SpellUnits, UnitsValue, Holds, Closes;
    QuotedPart(line, p, 34, SpellUnits(us), UnitsValue(us));
  }

  lemma SingleToken(line: seq<byte>, p: nat, w: seq<byte>, cur: seq<byte>)
    requires p < |line| && line[p] == 39 && SingleOk(w) && Holds(line, p + 1, SpellSingle(w) + [39])
    requires Closes(line, p + 1 + |SpellSingle(w)|)
    ensures TokenAt(line, p, cur, p + 1 + |SpellSingle(w)| + 1, cur + w, Token([], SingleQuoted(w)))
  {
    hide SingleOk, SpellSingle, Holds, Closes;
    QuotedPart(line, p, 39, SpellSingle(w), w);
  }

  lemma QuotedPart(line: seq<byte>, p: nat, q: byte, s: seq<byte>, value: seq<byte>)
    requires p < |line| && line[p] == q && Holds(line, p + 1, s + [q])
    ensures Holds(line, p, [] + ([q] + s + [q])) && [] + value == value
  {
    HoldsOne(line, p);
    HoldsMore(line, p, [q], s + [q]);
    assert [] + ([q] + s + [q]) == [q] + (s + [q]);
  }

  lemma LongerToken(line: seq<byte>, p: nat, c: byte, t: Token, cur: seq<byte>, next: nat, value: seq<byte>)
    requires p < |line| && line[p] == c && Bare(c) && TokenAt(line, p + 1, cur + [c], next, value, t)
    ensures TokenAt(line, p, cur, next, value, Token([c] + t.text, t.tail))
  {
    hide SpellTail, TailValue, Holds, Closes, UnitsOk, SingleOk;
    var s, v := SpellTail(t.tail), TailValue(t.tail);
    HoldsOne(line, p);
    HoldsMore(line, p, [c], SpellToken(t));
    Grouped([c], t.text, s);
    Grouped(cur, [c], t.text + v);
    Grouped([c], t.text, v);
  }

  /** The blanks that are skipped. */
  lemma {:induction false} FindBlanks(line: seq<byte>, p: nat)
    requires p <= |line|
    ensures SkipBlanks(line, p) <= |line| && Blanks(line[p..SkipBlanks(line, p)])
    ensures At(line, p) != 0 && IsSpace(At(line, p)) ==> p < SkipBlanks(line, p)
    decreases |line| - p
  {
    if At(line, p) != 0 && IsSpace(At(line, p)) {
      FindBlanks(line, p + 1);
      var q := SkipBlanks(line, p);
      assert line[p..q] == [line[p]] + line[p + 1..q];
    }
  }

  /** The words from `p` on were spelled. */
  ghost predicate Found(line: seq<byte>, p: nat, ws: seq<seq<byte>>, lead: seq<byte>, ps: seq<Piece>) {
    && Blanks(lead) && PiecesOk(ps) && Values(ps) == ws
    && Holds(line, p, lead) && Holds(line, p + |lead|, SpellPieces(ps))
    && At(line, p + |lead| + |SpellPieces(ps)|) == 0
    && (At(line, p) == 0 ==> ps == [])
    && (At(line, p) != 0 && IsSpace(At(line, p)) ==> lead != [])
    && (At(line, p) != 0 && !IsSpace(At(line, p)) ==> lead == [])
  }

  lemma {:induction false} FindPieces(line: seq<byte>, p: nat) returns (lead: seq<byte>, ps: seq<Piece>)
    requires p <= |line| && SplitFrom(line, p).Some?
    ensures Found(line, p, SplitFrom(line, p).value, lead, ps)
    decreases |line| - p
  {
    var q := SkipBlanks(line, p);
    FindBlanks(line, p);
    HoldsSlice(line, p, q);
    lead := line[p..q];
    if At(line, q) == 0 {
      ps := [];
      assert Holds(line, q, []);
    } else {
      hide Found, TokenAt, Word, IsSpace, SkipBlanks;
      var (next, value) := Word(line, q, Plain, []).value;
      var t := FindToken(line, q, []);
      TokenEnds(line, q, next, value, t);
      var lead', ps' := FindPieces(line, next);
      ps := FoundPiece(line, p, lead, q, next, value, t, lead', ps', SplitFrom(line, next).value);
    }
  }

  lemma TokenEnds(line: seq<byte>, q: nat, next: nat, value: seq<byte>, t: Token)
    requires TokenAt(line, q, [], next, value, t)
    ensures q + |SpellToken(t)| <= next <= |line|
  {
    hide UnitsOk, SingleOk, SpellUnits, SpellSingle, UnitsValue;
  }

  /** Nothing blank is found at the end, and something blank at a blank. */
  lemma FoundLead(line: seq<byte>, p: nat, ws: seq<seq<byte>>, lead: seq<byte>, ps: seq<Piece>)
    requires Found(line, p, ws, lead, ps)
    ensures At(line, p) == 0 ==> lead == [] && ps == []
    ensures IsSpace(At(line, p)) ==> lead != []
    ensures Blanks(lead) && Holds(line, p, lead)
  {
    hide PiecesOk, Values, SpellPieces, Holds;
    if lead != [] {
      HoldsAt(line, p, lead, 0);
    }
  }

  lemma FoundToken(line: seq<byte>, q: nat, next: nat, value: seq<byte>, t: Token)
    requires At(line, q) != 0 && !IsSpace(At(line, q)) && TokenAt(line, q, [], next, value, t)
    ensures TokenOk(t) && value == TokenValue(t) && Holds(line, q, SpellToken(t))
  {
    hide UnitsOk, SingleOk, UnitsValue, SpellUnits, SpellSingle, Closes, Holds;
    if |SpellToken(t)| > 0 {
      HoldsAt(line, q, SpellToken(t), 0);
    }
    if t.text != [] {
      assert SpellToken(t)[0] == t.text[0];
    }
    assert [] + (t.text + TailValue(t.tail)) == TokenValue(t);
  }

  lemma FoundRest(line: seq<byte>, p: nat, ws: seq<seq<byte>>, lead: seq<byte>, ps: seq<Piece>)
    requires Found(line, p, ws, lead, ps)
    ensures PiecesOk(ps) && Values(ps) == ws && Holds(line, p + |lead|, SpellPieces(ps))
    ensures At(line, p + |lead| + |SpellPieces(ps)|) == 0
  {
    hide PiecesOk, Values, SpellPieces, Holds;
  }

  lemma MakeFound(line: seq<byte>, p: nat, ws: seq<seq<byte>>, lead: seq<byte>, ps: seq<Piece>)
    requires Blanks(lead) && PiecesOk(ps) && Values(ps) == ws
    requires Holds(line, p, lead) && Holds(line, p + |lead|, SpellPieces(ps))
    requires At(line, p + |lead| + |SpellPieces(ps)|) == 0
    requires At(line, p) != 0 && (IsSpace(At(line, p)) <==> lead != [])
    ensures Found(line, p, ws, lead, ps)
  {
    hide PiecesOk, Values, SpellPieces, Holds, Blanks, IsSpace;
  }

  /** The blanks behind a token. */
  lemma FoundGap(line: seq<byte>, end: nat, next: nat, bare: bool, ws: seq<seq<byte>>, lead: seq<byte>,
                 ps: seq<Piece>) returns (gap: seq<byte>)
    requires end <= next <= |line| && Found(line, next, ws, lead, ps)
    requires if bare then (if At(line, end) == 0 then next == end else Ends(At(line, end)) && next == end + 1)
             else next == end && (At(line, end) == 0 || IsSpace(At(line, end)))
    ensures Blanks(gap) && Holds(line, end, gap) && end + |gap| == next + |lead|
    ensures (ps != [] ==> gap != []) && (bare && gap != [] ==> Ends(gap[0]))
  {
    FoundLead(line, next, ws, lead, ps);
    hide Found, Holds;
    HoldsSlice(line, end, next);
    HoldsMore(line, end, line[end..next], lead);
    gap := line[end..next] + lead;
  }

  lemma OnePiece(t: Token, gap: seq<byte>, ps: seq<Piece>)
    requires TokenOk(t) && Blanks(gap) && PiecesOk(ps)
    requires (ps != [] ==> gap != []) && (t.tail.NoQuote? && gap != [] ==> Ends(gap[0]))
    ensures var all := [Piece(t, gap)] + ps;
            && PiecesOk(all) && Values(all) == [TokenValue(t)] + Values(ps)
            && SpellPieces(all) == SpellToken(t) + (gap + SpellPieces(ps))
  {
    hide TokenOk, TokenValue, SpellToken, Blanks, Ends;
    var all := [Piece(t, gap)] + ps;
    assert all[0] == Piece(t, gap) && all[1..] == ps;
    Grouped(SpellToken(t), gap, SpellPieces(ps));
  }

  lemma TokenStops(line: seq<byte>, q: nat, next: nat, value: seq<byte>, t: Token)
    requires TokenAt(line, q, [], next, value, t)
    ensures var end := q + |SpellToken(t)|;
            if t.tail.NoQuote? then (if At(line, end) == 0 then next == end else Ends(At(line, end)) && next == end + 1)
            else next == end && (At(line, end) == 0 || IsSpace(At(line, end)))
  {
    hide UnitsOk, SingleOk, UnitsValue, SpellUnits, SpellSingle, Holds;
    assert !t.tail.NoQuote? ==> |SpellToken(t)| > 0;
  }

  /** A token, the gap behind it, and what was found from there on. */
  lemma Assembled(line: seq<byte>, p: nat, lead: seq<byte>, t: Token, gap: seq<byte>, ps: seq<Piece>,
                  ws: seq<seq<byte>>)
    requires Blanks(lead) && Holds(line, p, lead) && At(line, p) != 0 && (IsSpace(At(line, p)) <==> lead != [])
    requires TokenOk(t) && Blanks(gap) && PiecesOk(ps) && Values(ps) == ws
    requires (ps != [] ==> gap != []) && (t.tail.NoQuote? && gap != [] ==> Ends(gap[0]))
    requires var end := p + |lead| + |SpellToken(t)|;
             && Holds(line, p + |lead|, SpellToken(t)) && Holds(line, end, gap)
             && Holds(line, end + |gap|, SpellPieces(ps)) && At(line, end + |gap| + |SpellPieces(ps)|) == 0
    ensures Found(line, p, [TokenValue(t)] + ws, lead, [Piece(t, gap)] + ps)
  {
    hide Found, Holds, SpellToken, TokenOk, TokenValue, IsSpace, PiecesOk, Values, SpellPieces, Blanks, Ends;
    var rest := SpellPieces(ps);
    OnePiece(t, gap, ps);
    HoldsMore(line, p + |lead| + |SpellToken(t)|, gap, rest);
    HoldsMore(line, p + |lead|, SpellToken(t), gap + rest);
    MakeFound(line, p, [TokenValue(t)] + ws, lead, [Piece(t, gap)] + ps);
  }

  lemma FoundPiece(line: seq<byte>, p: nat, lead: seq<byte>, q: nat, next: nat, value: seq<byte>, t: Token,
                   lead': seq<byte>, ps': seq<Piece>, ws: seq<seq<byte>>) returns (ps: seq<Piece>)
    requires Blanks(lead) && Holds(line, p, lead) && q == p + |lead| && At(line, q) != 0 && !IsSpace(At(line, q))
    requires At(line, p) != 0 && (IsSpace(At(line, p)) <==> p < q)
    requires TokenAt(line, q, [], next, value, t) && Found(line, next, ws, lead', ps')
    ensures Found(line, p, [value] + ws, lead, ps)
  {
    hide TokenAt, Found, Holds, SpellToken, TokenOk, TokenValue, IsSpace, PiecesOk, Values, SpellPieces, Blanks, Ends;
    hide At;
    TokenEnds(line, q, next, value, t);
    FoundToken(line, q, next, value, t);
    TokenStops(line, q, next, value, t);
    var end := q + |SpellToken(t)|;
    var gap := FoundGap(line, end, next, t.tail.NoQuote?, ws, lead', ps');
    FoundRest(line, next, ws, lead', ps');
    Assembled(line, p, lead, t, gap, ps', ws);
    ps := [Piece(t, gap)] + ps';
  }

  // ----- the grammar -----

  /** A line is split into certain words if and only if it consists of forms of these words, with blanks between
      them; so a line that is not of this kind is refused. */
  lemma SplitsTheGrammar(line: seq<byte>, ws: seq<seq<byte>>)
    ensures SplitFrom(line, 0) == Some(ws) <==> exists lead, ps :: Spells(line, lead, ps) && Values(ps) == ws
  {
    if SplitFrom(line, 0) == Some(ws) {
      var lead, ps := FindPieces(line, 0);
      hide SplitFrom, SpellPieces, PiecesOk, Values;
      HoldsMore(line, 0, lead, SpellPieces(ps));
      assert Spells(line, lead, ps);
    }
    if lead, ps :| Spells(line, lead, ps) && Values(ps) == ws {
      SplitSpelled(line, lead, ps);
    }
  }

  // ----- ordinary lines -----

  /** Bare words, each with the blanks behind it. */
  function Joined(ws: seq<seq<byte>>, gaps: seq<seq<byte>>): seq<byte>
    requires |gaps| == |ws|
  {
    if ws == [] then [] else ws[0] + gaps[0] + Joined(ws[1..], gaps[1..])
  }

  predicate PlainWord(w: seq<byte>) {
    w != [] && forall i :: 0 <= i < |w| ==> w[i] != 0 && !Blank(w[i]) && w[i] != 34 && w[i] != 39
  }

  /** Spaces, tabs and line ends. */
  predicate Gap(s: seq<byte>) {
    forall i :: 0 <= i < |s| ==> s[i] == 32 || s[i] == 9 || s[i] == 10 || s[i] == 13
  }

  function BarePieces(ws: seq<seq<byte>>, gaps: seq<seq<byte>>): (ps: seq<Piece>)
    requires |gaps| == |ws|
    ensures |ps| == |ws|
  {
    if ws == [] then [] else [Piece(Token(ws[0], NoQuote), gaps[0])] + BarePieces(ws[1..], gaps[1..])
  }

  /** Words without blanks and quotes are split at the blanks between them, however many these are. */
  lemma PlainWords(lead: seq<byte>, ws: seq<seq<byte>>, gaps: seq<seq<byte>>)
    requires Gap(lead) && |gaps| == |ws|
    requires forall i :: 0 <= i < |ws| ==> PlainWord(ws[i]) && Gap(gaps[i]) && (i + 1 < |ws| ==> gaps[i] != [])
    ensures SplitFrom(lead + Joined(ws, gaps), 0) == Some(ws)
  {
    var ps := BarePieces(ws, gaps);
    BareLine(ws, gaps);
    hide SplitFrom, PiecesOk, Values, SpellPieces, Joined, BarePieces, PlainWord;
    SplitSpelled(lead + Joined(ws, gaps), lead, ps);
  }

  lemma {:induction false} BareLine(ws: seq<seq<byte>>, gaps: seq<seq<byte>>)
    requires |gaps| == |ws|
    requires forall i :: 0 <= i < |ws| ==> PlainWord(ws[i]) && Gap(gaps[i]) && (i + 1 < |ws| ==> gaps[i] != [])
    ensures var ps := BarePieces(ws, gaps);
            PiecesOk(ps) && Values(ps) == ws && SpellPieces(ps) == Joined(ws, gaps)
  {
    if ws != [] {
      BareLine(ws[1..], gaps[1..]);
      var t, gap := Token(ws[0], NoQuote), gaps[0];
      BareToken(ws[0]);
      OnePiece(t, gap, BarePieces(ws[1..], gaps[1..]));
      hide TokenOk, TokenValue, SpellToken, PiecesOk, Values, SpellPieces, PlainWord;
      Grouped(ws[0], gap, Joined(ws[1..], gaps[1..]));
      assert [ws[0]] + ws[1..] == ws;
    }
  }

  lemma BareToken(w: seq<byte>)
    requires PlainWord(w)
    ensures var t := Token(w, NoQuote); TokenOk(t) && TokenValue(t) == w && SpellToken(t) == w
  {
    assert w + [] == w;
  }

  // ----- quoted text -----

  /** A line of one word, and nothing else. */
  lemma OneWord(t: Token)
    requires TokenOk(t)
    ensures SplitFrom(SpellToken(t), 0) == Some([TokenValue(t)])
  {
    var line, ps := SpellToken(t), [Piece(t, [])];
    NoPieces();
    OnePiece(t, [], []);
    hide SplitFrom, PiecesOk, Values, SpellToken, TokenValue, SpellPieces;
    NothingMore(line, ps, [TokenValue(t)]);
    SplitSpelled(line, [], ps);
  }

  lemma NoPieces()
    ensures PiecesOk([]) && SpellPieces([]) == [] && Values([]) == []
  {
  }

  lemma NothingMore(line: seq<byte>, ps: seq<Piece>, ws: seq<seq<byte>>)
    ensures line + ([] + []) == line && [] + line == line && ps + [] == ps && ws + [] == ws
  {
  }

  lemma SingleLine(w: seq<byte>)
    ensures SpellToken(Token([], SingleQuoted(w))) == [39] + SpellSingle(w) + [39] == [39] + (SpellSingle(w) + [39])
  {
    hide SpellSingle;
    var s := SpellSingle(w);
    Grouped([39], s, [39]);
    assert [] + ([39] + s + [39]) == [39] + s + [39];
  }

  /** A text in single quotes reads back as itself, unless it ends with a backslash; then the line is refused. */
  lemma SingleQuotes(w: seq<byte>)
    requires 0 !in w
    ensures SplitFrom([39] + SpellSingle(w) + [39], 0)
         == if w != [] && w[|w| - 1] == 92 then None else Some([w])
  {
    var line, t := [39] + SpellSingle(w) + [39], Token([], SingleQuoted(w));
    SingleLine(w);
    hide SpellToken, SpellSingle, SplitFrom;
    if SingleOk(w) {
      assert TokenValue(t) == [] + w == w;
      OneWord(t);
    } else {
      SingleOpen(line, w);
    }
  }

  lemma SingleOpen(line: seq<byte>, w: seq<byte>)
    requires 0 !in w && w != [] && w[|w| - 1] == 92 && line == [39] + (SpellSingle(w) + [39])
    ensures SplitFrom(line, 0) == None
  {
    hide Word, SpellSingle, Holds;
    HoldsAll(line);
    HoldsBoth(line, 0, [39], SpellSingle(w) + [39]);
    OpenSingle(line, 0, []);
    StaysOpen(line, 1, w, []);
    assert SkipBlanks(line, 0) == 0;
  }

  /** The backslash at the end takes the closing quote for itself. */
  lemma {:induction false} StaysOpen(line: seq<byte>, p: nat, w: seq<byte>, cur: seq<byte>)
    requires 0 !in w && w != [] && w[|w| - 1] == 92
    requires Holds(line, p, SpellSingle(w) + [39]) && p + |SpellSingle(w)| + 1 == |line|
    ensures Word(line, p, Mode.Single, cur) == None
    decreases |w|
  {
    hide Holds;
    var c: seq<byte> := if w[0] == 39 then [92, 39] else [w[0]];
    var rest := SpellSingle(w[1..]) + [39];
    assert SpellSingle(w) + [39] == c + rest;
    HoldsBoth(line, p, c, rest);
    HoldsAt(line, p, c, 0);
    HoldsAt(line, p + |c|, rest, 0);
    if |w| == 1 {
      assert rest == [39];
      PastEnd(line, p + 2, cur + [39]);
    } else {
      if w[0] == 39 {
        HoldsAt(line, p, c, 1);
      }
      SingleNext(w[1..]);
      StaysOpen(line, p + |c|, w[1..], cur + [w[0]]);
    }
  }

  // ----- bad quotes -----

  /** Words before a word that cannot be read do not help. */
  lemma Refused(line: seq<byte>, lead: seq<byte>, ps: seq<Piece>)
    requires Blanks(lead) && PiecesOk(ps) && (ps != [] ==> ps[|ps| - 1].gap != [])
    requires Holds(line, 0, lead + SpellPieces(ps))
    requires var p := |lead| + |SpellPieces(ps)|;
             At(line, p) != 0 && !IsSpace(At(line, p)) && Word(line, p, Plain, []) == None
    ensures SplitFrom(line, 0) == None
  {
    hide SpellPieces, PiecesOk, Values, Word, Holds;
    HoldsBoth(line, 0, lead, SpellPieces(ps));
    var p := |lead| + |SpellPieces(ps)|;
    assert SkipBlanks(line, p) == p && SplitFrom(line, p) == None;
    hide SplitFrom;
    SkipGap(line, 0, lead);
    ReadPieces(line, |lead|, ps);
  }

  /** A closing quote with anything but a blank behind it. */
  lemma TextAfterQuote(line: seq<byte>, lead: seq<byte>, ps: seq<Piece>, t: Token)
    requires Blanks(lead) && PiecesOk(ps) && (ps != [] ==> ps[|ps| - 1].gap != [])
    requires TokenOk(t) && !t.tail.NoQuote? && Holds(line, 0, lead + SpellPieces(ps) + SpellToken(t))
    requires var c := At(line, |lead| + |SpellPieces(ps)| + |SpellToken(t)|); c != 0 && !Blank(c)
    ensures SplitFrom(line, 0) == None
  {
    hide SpellPieces, PiecesOk, Values, Word, Holds, SplitFrom, TokenOk, SpellToken, TokenValue;
    var p := |lead| + |SpellPieces(ps)|;
    HoldsBoth(line, 0, lead + SpellPieces(ps), SpellToken(t));
    TokenStart(line, p, t);
    ReadToken(line, p, t);
    Refused(line, lead, ps);
  }

  /** A quote that is never closed. */
  lemma NeverClosed(line: seq<byte>, lead: seq<byte>, ps: seq<Piece>, text: seq<byte>, us: seq<Unit>)
    requires Blanks(lead) && PiecesOk(ps) && (ps != [] ==> ps[|ps| - 1].gap != [])
    requires (forall i :: 0 <= i < |text| ==> Bare(text[i])) && (text != [] ==> !Blank(text[0])) && UnitsOk(us)
    requires line == lead + SpellPieces(ps) + (text + ([34] + SpellUnits(us)))
    ensures SplitFrom(line, 0) == None
  {
    hide SpellPieces, PiecesOk, Word, SplitFrom, SpellUnits, UnitsOk, Holds, Blanks;
    HoldsAll(line);
    HoldsBoth(line, 0, lead + SpellPieces(ps), text + ([34] + SpellUnits(us)));
    OpenWord(line, |lead| + |SpellPieces(ps)|, text, us);
    Refused(line, lead, ps);
  }

  lemma OpenWord(line: seq<byte>, p: nat, text: seq<byte>, us: seq<Unit>)
    requires (forall i :: 0 <= i < |text| ==> Bare(text[i])) && (text != [] ==> !Blank(text[0])) && UnitsOk(us)
    requires Holds(line, p, text + ([34] + SpellUnits(us))) && p + |text| + 1 + |SpellUnits(us)| == |line|
    ensures At(line, p) != 0 && !IsSpace(At(line, p)) && Word(line, p, Plain, []) == None
  {
    hide Word, SpellUnits, UnitsOk, Holds;
    var q, open := p + |text|, [34] + SpellUnits(us);
    HoldsAt(line, p, text + open, 0);
    HoldsBoth(line, p, text, open);
    HoldsBoth(line, q, [34], SpellUnits(us));
    HoldsAt(line, q, [34], 0);
    ReadBare(line, p, text, []);
    OpenDouble(line, q, [] + text);
    UnitsOpen(line, q + 1, us, [] + text);
  }

  lemma {:induction false} UnitsOpen(line: seq<byte>, p: nat, us: seq<Unit>, cur: seq<byte>)
    requires UnitsOk(us) && Holds(line, p, SpellUnits(us)) && p + |SpellUnits(us)| == |line|
    ensures Word(line, p, Quoted, cur) == None
    decreases |us|
  {
    hide Word, Holds, UnitOk, UnitValue;
    if us == [] {
      PastEnd(line, p, cur);
    } else {
      var u, rest := us[0], SpellUnits(us[1..]);
      HoldsBoth(line, p, SpellUnit(u), rest);
      if u == Esc(120) {
        OpenNotHex(line, p, us[1..]);
      }
      ReadUnit(line, p, u, cur);
      UnitsOpen(line, p + |SpellUnit(u)|, us[1..], cur + [UnitValue(u)]);
    }
  }

  lemma OpenNotHex(line: seq<byte>, p: nat, us: seq<Unit>)
    requires Holds(line, p + 2, SpellUnits(us)) && p + 2 + |SpellUnits(us)| == |line|
    requires !TwoHex(SpellUnits(us) + [34])
    ensures !HexDigits(At(line, p + 2), At(line, p + 3))
  {
    var s := SpellUnits(us);
    if |s| >= 2 {
      HoldsAt(line, p + 2, s, 0);
      HoldsAt(line, p + 2, s, 1);
      assert (s + [34])[0] == s[0] && (s + [34])[1] == s[1];
    }
  }

  // ----- splitting undoes quoting -----

  /** How each byte is quoted. */
  lemma EscapeTable(c: byte)
    ensures 32 <= c <= 126 && c != 34 && c != 92 ==> Escape(c) == [c]
    ensures c == 34 || c == 92 ==> Escape(c) == [92, c]
    ensures Escape(10) == [92, 110] && Escape(13) == [92, 114] && Escape(9) == [92, 116]
    ensures Escape(7) == [92, 97] && Escape(8) == [92, 98]
    ensures (c < 32 || 127 <= c) && c !in {7, 8, 9, 10, 13} ==>
              var digits: seq<byte> := [48, 49, 50, 51, 52, 53, 54, 55, 56, 57, 97, 98, 99, 100, 101, 102];
              Escape(c) == [92, 120, digits[c / 16], digits[c % 16]]
  {
  }

  /** The unit that a byte is quoted as. */
  function UnitOf(c: byte): (u: Unit)
    ensures UnitOk(u) && u != Esc(120) && UnitValue(u) == c && SpellUnit(u) == Escape(c)
  {
    if c == 34 || c == 92 then Esc(c)
    else if c == 10 then Esc(110)
    else if c == 13 then Esc(114)
    else if c == 9 then Esc(116)
    else if c == 7 then Esc(97)
    else if c == 8 then Esc(98)
    else if 32 <= c <= 126 then Lit(c)
    else Hex(HexDigit(c / 16), HexDigit(c % 16))
  }

  function UnitsOf(w: seq<byte>): seq<Unit> {
    if w == [] then [] else [UnitOf(w[0])] + UnitsOf(w[1..])
  }

  lemma {:induction false} QuotedUnits(w: seq<byte>)
    ensures UnitsOk(UnitsOf(w)) && UnitsValue(UnitsOf(w)) == w && SpellUnits(UnitsOf(w)) == EscapeAll(w)
  {
    if w != [] {
      QuotedUnits(w[1..]);
      hide UnitOf, UnitOk, UnitValue, SpellUnit, Escape;
      assert UnitsOf(w)[1..] == UnitsOf(w[1..]);
      assert [w[0]] + w[1..] == w;
    }
  }

  /** Quoted words with a space between them. */
  function Line(ws: seq<seq<byte>>): seq<byte> {
    if ws == [] then []
    else if |ws| == 1 then Repr(ws[0])
    else Repr(ws[0]) + [32] + Line(ws[1..])
  }

  function QuotedPieces(ws: seq<seq<byte>>): (ps: seq<Piece>)
    ensures |ps| == |ws|
  {
    if ws == [] then []
    else
      [Piece(Token([], DoubleQuoted(UnitsOf(ws[0]))), if |ws| == 1 then [] else [32])] + QuotedPieces(ws[1..])
  }

  lemma QuotedToken(w: seq<byte>)
    ensures var t := Token([], DoubleQuoted(UnitsOf(w))); TokenOk(t) && TokenValue(t) == w && SpellToken(t) == Repr(w)
  {
    QuotedUnits(w);
    hide UnitsOf, UnitsOk, UnitsValue, SpellUnits, EscapeAll;
    assert [] + w == w;
  }

  lemma {:induction false} QuotedLine(ws: seq<seq<byte>>)
    ensures var ps := QuotedPieces(ws); PiecesOk(ps) && Values(ps) == ws && SpellPieces(ps) == Line(ws)
  {
    if ws != [] {
      QuotedLine(ws[1..]);
      QuotedToken(ws[0]);
      var t := Token([], DoubleQuoted(UnitsOf(ws[0])));
      var gap: seq<byte> := if |ws| == 1 then [] else [32];
      OnePiece(t, gap, QuotedPieces(ws[1..]));
      hide TokenOk, TokenValue, SpellToken, PiecesOk, Values, SpellPieces, Repr, UnitsOf;
      Grouped(Repr(ws[0]), gap, Line(ws[1..]));
      assert [ws[0]] + ws[1..] == ws;
      if |ws| == 1 {
        assert Line(ws[1..]) == [] && Repr(ws[0]) + ([] + []) == Repr(ws[0]);
      }
    }
  }

  /** Quoting any byte strings, joining them with spaces and splitting the line gives them back. */
  lemma SplitUndoesQuoting(ws: seq<seq<byte>>)
    ensures SplitFrom(Line(ws), 0) == Some(ws)
  {
    QuotedLine(ws);
    hide SplitFrom, PiecesOk, Values, SpellPieces, Line, QuotedPieces;
    assert [] + Line(ws) == Line(ws);
    SplitSpelled(Line(ws), [], QuotedPieces(ws));
  }
}
