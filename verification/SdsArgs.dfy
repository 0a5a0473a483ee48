/** Quoting a byte string into printable form, and splitting a line of words, some of them quoted,
    back into byte strings.  What the lines are that can be split is the subject of module `SdsGrammar`. */
module SdsArgs {
  import opened Options
  import opened Bytes

  const QUOTE: byte := 34
  const APOSTROPHE: byte := 39
  const BACKSLASH: byte := 92
  const SPACE: byte := 32

  // ----- character classes, as in the C locale -----

  predicate IsPrint(c: byte) {
    32 <= c <= 126
  }

  predicate IsSpace(c: byte) {
    9 <= c <= 13 || c == 32
  }

  predicate IsHex(c: byte) {
    IsDigit(c) || 97 <= c <= 102 || 65 <= c <= 70
  }

  function HexValue(c: byte): (d: byte)
    ensures d < 16
  {
    if IsDigit(c) then c - 48
    else if 97 <= c <= 102 then c - 87
    else if 65 <= c <= 70 then c - 55
    else 0
  }

  function HexDigit(d: byte): (c: byte)
    requires d < 16
    ensures IsHex(c) && HexValue(c) == d
  {
    if d < 10 then 48 + d else 87 + d
  }

  // ----- quoting -----

  function Escape(c: byte): (s: seq<byte>)
    ensures |s| > 0
  {
    if c == BACKSLASH || c == QUOTE then [BACKSLASH, c]
    else if c == 10 then [BACKSLASH, 110]
    else if c == 13 then [BACKSLASH, 114]
    else if c == 9 then [BACKSLASH, 116]
    else if c == 7 then [BACKSLASH, 97]
    else if c == 8 then [BACKSLASH, 98]
    else if IsPrint(c) then [c]
    else [BACKSLASH, 120, HexDigit(c / 16), HexDigit(c % 16)]
  }

  function EscapeAll(s: seq<byte>): seq<byte> {
    if s == [] then [] else Escape(s[0]) + EscapeAll(s[1..])
  }

  function Repr(s: seq<byte>): seq<byte> {
    [QUOTE] + EscapeAll(s) + [QUOTE]
  }

  lemma {:induction false} EscapeAllAppend(s: seq<byte>, c: byte)
    ensures EscapeAll(s + [c]) == EscapeAll(s) + Escape(c)
  {
    hide Escape;
    if s == [] {
      assert [c][1..] == [];
      assert EscapeAll([c]) == Escape(c) + [];
      assert s + [c] == [c];
    } else {
      EscapeAllAppend(s[1..], c);
      EscapeFirst(s);
      EscapeFirst(s + [c]);
      hide EscapeAll;
      assert (s + [c])[1..] == s[1..] + [c] && (s + [c])[0] == s[0];
    }
  }

  lemma EscapeFirst(s: seq<byte>)
    requires s != []
    ensures EscapeAll(s) == Escape(s[0]) + EscapeAll(s[1..])
  {
    hide Escape;
  }

  /** Appends the quoted form of `p` to `s`, one character at a time. */
  method SdsCatRepr(s: seq<byte>, p: seq<byte>) returns (r: seq<byte>)
    ensures r == s + Repr(p)
  {
    hide Escape;
    r := s + [QUOTE];
    for i := 0 to |p|
      invariant r == s + [QUOTE] + EscapeAll(p[..i])
    {
      assert p[..i + 1] == p[..i] + [p[i]];
      EscapeAllAppend(p[..i], p[i]);
      r := r + Escape(p[i]);
    }
    assert p[..|p|] == p;
    r := r + [QUOTE];
  }

  // ----- splitting -----

  datatype Mode = Plain | Quoted | Single

  /** The character at `p`; lines end with a zero. */
  function At(line: seq<byte>, p: nat): byte {
    if p < |line| then line[p] else 0
  }

  function Unescape(c: byte): byte {
    if c == 110 then 10
    else if c == 114 then 13
    else if c == 116 then 9
    else if c == 98 then 8
    else if c == 97 then 7
    else c
  }

  predicate HexEscape(line: seq<byte>, p: nat) {
    && At(line, p) == BACKSLASH && At(line, p + 1) == 120
    && IsHex(At(line, p + 2)) && IsHex(At(line, p + 3))
  }

  /** A closing quote must be followed by a space or by nothing. */
  predicate Closes(line: seq<byte>, p: nat) {
    At(line, p + 1) == 0 || IsSpace(At(line, p + 1))
  }

  /** The rest of the word that is being read at `p`, and where reading goes on; none on bad quoting. */
  function Word(line: seq<byte>, p: nat, mode: Mode, cur: seq<byte>): (r: Option<(nat, seq<byte>)>)
    ensures r.Some? ==> p <= r.value.0
    ensures r.Some? && At(line, p) != 0 ==> p < r.value.0
    decreases |line| - p
  {
    var c := At(line, p);
    match mode
    case Quoted =>
      if HexEscape(line, p) then
        Word(line, p + 4, mode, cur + [HexValue(At(line, p + 2)) * 16 + HexValue(At(line, p + 3))])
      else if c == BACKSLASH && At(line, p + 1) != 0 then Word(line, p + 2, mode, cur + [Unescape(At(line, p + 1))])
      else if c == QUOTE then (if Closes(line, p) then Some((p + 1, cur)) else None)
      else if c == 0 then None
      else Word(line, p + 1, mode, cur + [c])
    case Single =>
      if c == BACKSLASH && At(line, p + 1) == APOSTROPHE then Word(line, p + 2, mode, cur + [APOSTROPHE])
      else if c == APOSTROPHE then (if Closes(line, p) then Some((p + 1, cur)) else None)
      else if c == 0 then None
      else Word(line, p + 1, mode, cur + [c])
    case Plain =>
      if c == 0 then Some((p, cur))
      else if c == 32 || c == 10 || c == 13 || c == 9 then Some((p + 1, cur))
      else if c == QUOTE then Word(line, p + 1, Quoted, cur)
      else if c == APOSTROPHE then Word(line, p + 1, Single, cur)
      else Word(line, p + 1, mode, cur + [c])
  }

  function SkipBlanks(line: seq<byte>, p: nat): (q: nat)
    ensures p <= q && !(At(line, q) != 0 && IsSpace(At(line, q)))
    decreases |line| - p
  {
    if At(line, p) != 0 && IsSpace(At(line, p)) then SkipBlanks(line, p + 1) else p
  }

  function Prepend(w: seq<byte>, r: Option<seq<seq<byte>>>): Option<seq<seq<byte>>> {
    if r.Some? then Some([w] + r.value) else None
  }

  /** The words from `p` on, or none if quotes are unbalanced or run into other text. */
  function SplitFrom(line: seq<byte>, p: nat): Option<seq<seq<byte>>>
    decreases |line| - p
  {
    var q := SkipBlanks(line, p);
    if At(line, q) == 0 then Some([])
    else
      match Word(line, q, Plain, [])
      case None => None
      case Some((next, w)) => Prepend(w, SplitFrom(line, next))
  }

  function After(words: seq<seq<byte>>, r: Option<seq<seq<byte>>>): Option<seq<seq<byte>>> {
    if r.Some? then Some(words + r.value) else None
  }

  /** Reads one word, character by character. */
  method ReadWord(line: seq<byte>, start: nat) returns (r: Option<(nat, seq<byte>)>)
    ensures r == Word(line, start, Plain, [])
  {
    var inq, insq, done := false, false, false;
    var p: nat, current: seq<byte> := start, [];
    while !done
      invariant !(inq && insq)
      invariant !done ==>
                  Word(line, start, Plain, [])
                  == Word(line, p, if inq then Quoted else if insq then Single else Plain, current)
      invariant done ==> Word(line, start, Plain, []) == Some((p, current))
      decreases !done, |line| - p
    {
      var c := At(line, p);
      if inq {
        if HexEscape(line, p) {
          current := current + [HexValue(At(line, p + 2)) * 16 + HexValue(At(line, p + 3))];
          p := p + 3;
        } else if c == BACKSLASH && At(line, p + 1) != 0 {
          p := p + 1;
          current := current + [Unescape(At(line, p))];
        } else if c == QUOTE {
          if !Closes(line, p) {
            return None;
          }
          done := true;
        } else if c == 0 {
          return None;
        } else {
          current := current + [c];
        }
      } else if insq {
        if c == BACKSLASH && At(line, p + 1) == APOSTROPHE {
          p := p + 1;
          current := current + [APOSTROPHE];
        } else if c == APOSTROPHE {
          if !Closes(line, p) {
            return None;
          }
          done := true;
        } else if c == 0 {
          return None;
        } else {
          current := current + [c];
        }
      } else if c == 32 || c == 10 || c == 13 || c == 9 || c == 0 {
        done := true;
      } else if c == QUOTE {
        inq := true;
      } else if c == APOSTROPHE {
        insq := true;
      } else {
        current := current + [c];
      }
      if At(line, p) != 0 {
        p := p + 1;
      }
    }
    return Some((p, current));
  }

  /** Splits a line into words. */
  method SdsSplitArgs(line: seq<byte>) returns (r: Option<seq<seq<byte>>>)
    ensures r == SplitFrom(line, 0)
  {
    var p: nat, vector: seq<seq<byte>> := 0, [];
    assert After([], SplitFrom(line, 0)) == SplitFrom(line, 0) by {
      if SplitFrom(line, 0).Some? { assert [] + SplitFrom(line, 0).value == SplitFrom(line, 0).value; }
    }
    while true
      invariant SplitFrom(line, 0) == After(vector, SplitFrom(line, p))
      decreases |line| - p
    {
      ghost var from := p;
      while At(line, p) != 0 && IsSpace(At(line, p))
        invariant from <= p && SkipBlanks(line, p) == SkipBlanks(line, from)
        decreases |line| - p
      {
        p := p + 1;
      }
      if At(line, p) == 0 {
        assert vector + [] == vector;
        return Some(vector);
      }
      var w := ReadWord(line, p);
      if w.None? {
        return None;
      }
      ghost var tail := SplitFrom(line, w.value.0);
      if tail.Some? {
        assert vector + ([w.value.1] + tail.value) == vector + [w.value.1] + tail.value;
      }
      vector := vector + [w.value.1];
      p := w.value.0;
    }
  }
}
