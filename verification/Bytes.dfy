/** Bytes, and the decimal numerals that the Redis protocol writes lengths in. */
module Bytes {
  import opened Options

  type byte = x: int | 0 <= x < 256

  const CR: byte := 13
  const LF: byte := 10
  const MINUS: byte := 45
  const CRLF: seq<byte> := [13, 10]

  const LLONG_MAX: int := 0x7FFF_FFFF_FFFF_FFFF
  const LLONG_MIN: int := -0x8000_0000_0000_0000
  const ULLONG_MAX: int := 0xFFFF_FFFF_FFFF_FFFF

  predicate IsDigit(c: byte) {
    48 <= c <= 57
  }

  /** The decimal numeral of `n`, without leading zeros. */
  function Numeral(n: nat): (s: seq<byte>)
    ensures |s| >= 1
  {
    if n < 10 then [48 + n] else Numeral(n / 10) + [48 + n % 10]
  }

  /** The canonical decimal representation of an integer. */
  function Decimal(v: int): (s: seq<byte>)
    ensures |s| >= 1
  {
    if v < 0 then [MINUS] + Numeral(-v) else Numeral(v)
  }

  predicate IsLongLong(v: int) {
    LLONG_MIN <= v <= LLONG_MAX
  }

  lemma {:induction false} NumeralDigits(n: nat)
    ensures forall c <- Numeral(n) :: IsDigit(c)
    ensures n > 0 ==> Numeral(n)[0] != 48
  {
    if n >= 10 {
      NumeralDigits(n / 10);
    }
  }

  /** One digit more multiplies by ten. */
  lemma NumeralAppend(n: nat, d: nat)
    requires n > 0 && d < 10
    ensures Numeral(10 * n + d) == Numeral(n) + [48 + d]
  {
    assert (10 * n + d) / 10 == n && (10 * n + d) % 10 == d;
  }

  lemma {:induction false} NumeralInjective(m: nat, n: nat)
    requires Numeral(m) == Numeral(n)
    ensures m == n
  {
    NumeralLength(m);
    NumeralLength(n);
    if m >= 10 && n >= 10 {
      var s, t := Numeral(m / 10), Numeral(n / 10);
      assert Numeral(m)[..|s|] == s && Numeral(n)[..|t|] == t;
      assert Numeral(m)[|s|] == 48 + m % 10 && Numeral(n)[|t|] == 48 + n % 10;
      NumeralInjective(m / 10, n / 10);
    }
  }

  lemma NumeralLength(n: nat)
    ensures |Numeral(n)| == 1 <==> n < 10
  {
  }

  lemma DecimalSign(v: int)
    ensures v < 0 <==> Decimal(v)[0] == MINUS
  {
    if v >= 0 {
      NumeralDigits(v);
      assert Decimal(v)[0] in Numeral(v);
    }
  }

  /** Two integers with the same representation are equal. */
  lemma DecimalInjective(v: int, w: int)
    requires Decimal(v) == Decimal(w)
    ensures v == w
  {
    DecimalSign(v);
    DecimalSign(w);
    if v < 0 {
      assert Decimal(v)[1..] == Numeral(-v) && Decimal(w)[1..] == Numeral(-w);
      NumeralInjective(-v, -w);
    } else {
      NumeralInjective(v, w);
    }
  }

  /** A numeral that properly extends the numeral of `n` stands for at least ten times as much. */
  lemma {:induction false} NumeralPrefix(n: nat, m: nat, k: nat)
    requires k < |Numeral(m)| && Numeral(m)[..k] == Numeral(n)
    ensures m >= 10 * n
  {
    if m >= 10 {
      var s := Numeral(m / 10);
      if k == |s| {
        assert Numeral(m)[..k] == s;
        NumeralInjective(m / 10, n);
      } else {
        assert Numeral(m)[..k] == s[..k];
        NumeralPrefix(n, m / 10, k);
      }
    }
  }

  /** The integer that `s` canonically represents, if it is a `long long`. */
  ghost function ParseLL(s: seq<byte>): (r: Option<int>)
    ensures r.Some? ==> IsLongLong(r.value) && Decimal(r.value) == s
    ensures r.None? ==> forall v :: IsLongLong(v) ==> Decimal(v) != s
  {
    if v: int :| IsLongLong(v) && Decimal(v) == s then Some(v) else None
  }

  lemma ParseDecimal(v: int)
    requires IsLongLong(v)
    ensures ParseLL(Decimal(v)) == Some(v)
  {
    assert ParseLL(Decimal(v)).Some?;
    DecimalInjective(v, ParseLL(Decimal(v)).value);
  }
}
