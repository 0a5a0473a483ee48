/** The two scanners of the reply reader: finding the end of a line, and reading an integer. */
module RespScan {
  import opened Options
  import opened Bytes

  // ----- end of line -----

  predicate CrlfAt(s: seq<byte>, k: int) {
    0 <= k && k + 1 < |s| && s[k] == CR && s[k + 1] == LF
  }

  /** The position of the first line end in `s`, or -1. */
  ghost function FindCrlf(s: seq<byte>): (k: int)
    ensures -1 <= k < |s|
    ensures k >= 0 ==> CrlfAt(s, k)
    ensures forall j :: 0 <= j && (j < k || k < 0) ==> !CrlfAt(s, j)
  {
    if |s| < 2 then -1
    else if CrlfAt(s, 0) then 0
    else
      var k := FindCrlf(s[1..]);
      assert forall j {:trigger CrlfAt(s, j)} :: j >= 1 ==> (CrlfAt(s, j) <==> CrlfAt(s[1..], j - 1));
      if k < 0 then -1 else k + 1
  }

  /** A line end, once found, stays the first one when more bytes arrive. */
  lemma FindCrlfStable(s: seq<byte>, t: seq<byte>)
    requires FindCrlf(s) >= 0
    ensures FindCrlf(s + t) == FindCrlf(s)
  {
    var k := FindCrlf(s);
    assert CrlfAt(s + t, k);
    forall j | 0 <= j < k ensures !CrlfAt(s + t, j) {
      assert !CrlfAt(s, j);
    }
    FirstCrlf(s + t, k);
  }

  lemma FirstCrlf(s: seq<byte>, k: int)
    requires k == -1 || CrlfAt(s, k)
    requires forall j :: 0 <= j && (j < k || k < 0) ==> !CrlfAt(s, j)
    ensures FindCrlf(s) == k
  {
    assert FindCrlf(s) >= 0 ==> CrlfAt(s, FindCrlf(s));
    assert k >= 0 ==> CrlfAt(s, k);
  }

  method MemChr(s: seq<byte>, c: byte, from: nat, end: nat) returns (k: int)
    requires from <= end <= |s|
    ensures k == -1 || from <= k < end
    ensures k >= 0 ==> s[k] == c
    ensures forall j :: from <= j < (if k < 0 then end else k) ==> s[j] != c
  {
    k := from;
    while k < end
      invariant from <= k <= end
      invariant forall j :: from <= j < k ==> s[j] != c
    {
      if s[k] == c {
        return k;
      }
      k := k + 1;
    }
    return -1;
  }

  /** Looks for a carriage return that a line feed follows. */
  method SeekNewline(s: seq<byte>) returns (k: int)
    ensures k == FindCrlf(s)
  {
    if |s| < 2 {
      return -1;
    }
    var from, end := 0, |s| - 1;
    k := MemChr(s, CR, from, end);
    while k >= 0 && s[k + 1] != LF
      invariant 0 <= from <= end == |s| - 1
      invariant k == -1 || from <= k < end
      invariant k >= 0 ==> s[k] == CR
      invariant forall j :: 0 <= j < (if k < 0 then end else k) ==> !CrlfAt(s, j)
      decreases end - from
    {
      from := k + 1;
      k := MemChr(s, CR, from, end);
    }
    FirstCrlf(s, k);
  }

  // ----- integers -----

  ghost predicate NoLongLong(s: seq<byte>) {
    forall v :: IsLongLong(v) ==> Decimal(v) != s
  }

  ghost function Abs(v: int): nat {
    if v < 0 then -v else v
  }

  ghost function Start(s: seq<byte>): nat
    requires |s| > 0
  {
    if s[0] == MINUS then 1 else 0
  }

  ghost function Signed(s: seq<byte>, n: int): int
    requires |s| > 0
  {
    if s[0] == MINUS then -n else n
  }

  /** What it takes for `s` to represent `v`: its sign and its digits. */
  lemma DecimalParts(s: seq<byte>, v: int)
    requires |s| > 0 && Decimal(v) == s
    ensures v < 0 <==> s[0] == MINUS
    ensures Start(s) < |s| && s[Start(s)..] == Numeral(Abs(v))
    ensures forall k :: Start(s) <= k < |s| ==> IsDigit(s[k])
    ensures v != 0 ==> s[Start(s)] != 48
  {
    DecimalSign(v);
    NumeralDigits(Abs(v));
    assert s[Start(s)..] == Numeral(Abs(v));
    forall k | Start(s) <= k < |s| ensures IsDigit(s[k]) {
      assert s[k] == Numeral(Abs(v))[k - Start(s)];
      assert s[k] in Numeral(Abs(v));
    }
  }

  lemma RejectSignOnly(s: seq<byte>)
    requires s == [MINUS]
    ensures NoLongLong(s)
  {
    forall v | IsLongLong(v) ensures Decimal(v) != s {
      if Decimal(v) == s {
        DecimalParts(s, v);
      }
    }
  }

  lemma RejectFirst(s: seq<byte>)
    requires |s| > 0 && |s| > Start(s) && !(49 <= s[Start(s)] <= 57) && s != [48]
    ensures NoLongLong(s)
  {
    assert Decimal(0) == [48];
    forall v | IsLongLong(v) ensures Decimal(v) != s {
      if Decimal(v) == s {
        DecimalParts(s, v);
      }
    }
  }

  lemma RejectTail(s: seq<byte>, k: nat)
    requires |s| > 0 && Start(s) <= k < |s| && !IsDigit(s[k])
    ensures NoLongLong(s)
  {
    forall v | IsLongLong(v) ensures Decimal(v) != s {
      if Decimal(v) == s {
        DecimalParts(s, v);
      }
    }
  }

  /** The digits read so far, and the next one, bound the integer from below. */
  lemma DigitsBound(s: seq<byte>, k: nat, n: nat, v: int)
    requires Decimal(v) == s && |s| > 0 && Start(s) < k < |s| && Numeral(n) == s[Start(s)..k] && n > 0
    ensures Abs(v) >= 10 * n
    ensures IsDigit(s[k]) && Abs(v) >= 10 * n + s[k] - 48
  {
    DecimalParts(s, v);
    hide Numeral, Decimal;
    var i, m := Start(s), Abs(v);
    assert Numeral(m)[..k - i] == s[i..k];
    NumeralPrefix(n, m, k - i);
    var d: nat := s[k] - 48;
    NumeralAppend(n, d);
    OneMoreByte(s, i, k);
    assert Numeral(10 * n + d) == s[i..k + 1] == Numeral(m)[..k + 1 - i];
    if k + 1 < |s| {
      NumeralPrefix(10 * n + d, m, k + 1 - i);
    } else {
      assert Numeral(m)[..k + 1 - i] == Numeral(m);
      NumeralInjective(10 * n + d, m);
    }
  }

  /** Digits read so far that already stand for too much. */
  lemma RejectBig(s: seq<byte>, k: nat, n: nat)
    requires |s| > 0 && Start(s) < k < |s| && Numeral(n) == s[Start(s)..k] && n > 0
    requires n > ULLONG_MAX / 10 || 10 * n + s[k] - 48 > ULLONG_MAX
    ensures NoLongLong(s)
  {
    forall v | IsLongLong(v) ensures Decimal(v) != s {
      if Decimal(v) == s {
        DigitsBound(s, k, n, v);
      }
    }
  }

  lemma RejectRange(s: seq<byte>, n: nat)
    requires |s| > 0 && Start(s) < |s| && Numeral(n) == s[Start(s)..]
    requires !IsLongLong(Signed(s, n))
    ensures NoLongLong(s)
  {
    forall v | IsLongLong(v) ensures Decimal(v) != s {
      if Decimal(v) == s {
        DecimalParts(s, v);
        NumeralInjective(n, Abs(v));
      }
    }
  }

  lemma ToTheEnd(s: seq<byte>, i: nat, k: nat)
    requires i <= k == |s|
    ensures s[i..k] == s[i..]
  {
  }

  lemma OneMoreByte(s: seq<byte>, i: nat, k: nat)
    requires i <= k < |s|
    ensures s[i..k + 1] == s[i..k] + [s[k]]
  {
  }

  lemma FirstDigit(s: seq<byte>)
    requires |s| > 0 && Start(s) < |s| && IsDigit(s[Start(s)])
    ensures Numeral(s[Start(s)] - 48) == s[Start(s)..Start(s) + 1]
  {
  }

  lemma Rejected(s: seq<byte>)
    requires NoLongLong(s)
    ensures ParseLL(s) == None
  {
  }

  lemma Accepted(s: seq<byte>, n: nat)
    requires |s| > 0 && Start(s) < |s| && Numeral(n) == s[Start(s)..] && n > 0
    requires IsLongLong(Signed(s, n))
    ensures ParseLL(s) == Some(Signed(s, n))
  {
    var v := Signed(s, n);
    assert Decimal(v) == s;
    ParseDecimal(v);
  }

  /** Accepts exactly the canonical decimal representations of `long long` values; the unsigned
      accumulator never exceeds 64 bits. */
  method String2ll(s: seq<byte>) returns (r: Option<int>)
    ensures r == ParseLL(s)
  {
    if |s| == 0 {
      return None;
    }
    if |s| == 1 && s[0] == 48 {
      ParseDecimal(0);
      return Some(0);
    }
    hide Numeral, Decimal, ParseLL, NoLongLong;
    var plen, negative := 0, false;
    if s[0] == MINUS {
      negative, plen := true, 1;
      if plen == |s| {
        RejectSignOnly(s);
        Rejected(s);
        return None;
      }
    }
    if !(49 <= s[plen] <= 57) {
      RejectFirst(s);
      Rejected(s);
      return None;
    }
    var v: int := s[plen] - 48;
    plen := plen + 1;
    FirstDigit(s);
    while plen < |s| && IsDigit(s[plen])
      invariant Start(s) < plen <= |s|
      invariant 0 < v <= ULLONG_MAX
      invariant Numeral(v) == s[Start(s)..plen]
    {
      var d := s[plen] - 48;
      if v > ULLONG_MAX / 10 {
        RejectBig(s, plen, v);
        Rejected(s);
        return None;
      }
      if 10 * v > ULLONG_MAX - d {
        RejectBig(s, plen, v);
        Rejected(s);
        return None;
      }
      NumeralAppend(v, d);
      OneMoreByte(s, Start(s), plen);
      v := 10 * v + d;
      plen := plen + 1;
    }
    if plen < |s| {
      RejectTail(s, plen);
      Rejected(s);
      return None;
    }
    ToTheEnd(s, Start(s), plen);
    if negative {
      if v > -(LLONG_MIN + 1) + 1 {
        RejectRange(s, v);
        Rejected(s);
        return None;
      }
      Accepted(s, v);
      return Some(-v);
    } else {
      if v > LLONG_MAX {
        RejectRange(s, v);
        Rejected(s);
        return None;
      }
      Accepted(s, v);
      return Some(v);
    }
  }
}
