/** Printing numbers and formatting commands, as the client does it: buffers filled at a cursor,
    digits written backwards and reversed in place, lengths computed ahead of the writing. */
module RespFormat {
  import opened Options
  import opened Bytes
  import opened Resp
  import RespScan
  import opened RespGrammar
  import opened RespEncode

  // ----- lengths of numerals -----

  function Pow10(k: nat): nat {
    if k == 0 then 1 else 10 * Pow10(k - 1)
  }

  lemma {:induction false} NumeralShort(n: nat, k: nat)
    requires k > 0 && n < Pow10(k)
    ensures |Numeral(n)| <= k
  {
    if n >= 10 {
      NumeralShort(n / 10, k - 1);
    }
  }

  lemma UllIsShort(n: nat)
    requires n <= ULLONG_MAX
    ensures |Numeral(n)| <= 20
  {
    assert Pow10(20) == 100_000_000_000_000_000_000 by {
      assert Pow10(4) == 10_000;
      assert Pow10(8) == 10_000 * Pow10(4);
      assert Pow10(12) == 10_000 * Pow10(8);
      assert Pow10(16) == 10_000 * Pow10(12);
      assert Pow10(20) == 10_000 * Pow10(16);
    }
    NumeralShort(n, 20);
  }

  lemma LlIsShort(n: nat)
    requires n <= LLONG_MAX
    ensures |Numeral(n)| <= 19
  {
    assert Pow10(19) == 10_000_000_000_000_000_000 by {
      assert Pow10(3) == 1000;
      assert Pow10(7) == 10_000 * Pow10(3);
      assert Pow10(11) == 10_000 * Pow10(7);
      assert Pow10(15) == 10_000 * Pow10(11);
      assert Pow10(19) == 10_000 * Pow10(15);
    }
    NumeralShort(n, 19);
  }

  lemma NumeralFourDigits(n: nat)
    requires n >= 10000
    ensures |Numeral(n)| == |Numeral(n / 10000)| + 4
  {
    assert n / 10 / 10 / 10 / 10 == n / 10000;
    assert |Numeral(n)| == |Numeral(n / 10)| + 1;
    assert |Numeral(n / 10)| == |Numeral(n / 10 / 10)| + 1;
    assert |Numeral(n / 10 / 10)| == |Numeral(n / 10 / 10 / 10)| + 1;
  }

  lemma SmallNumerals(n: nat)
    requires n < 10000
    ensures |Numeral(n)| == if n < 10 then 1 else if n < 100 then 2 else if n < 1000 then 3 else 4
  {
    assert n >= 10 ==> |Numeral(n)| == |Numeral(n / 10)| + 1;
    assert n >= 100 ==> |Numeral(n / 10)| == |Numeral(n / 10 / 10)| + 1;
    assert n >= 1000 ==> |Numeral(n / 10 / 10)| == |Numeral(n / 10 / 10 / 10)| + 1;
  }

  /** The number of decimal digits, four at a time. */
  method CountDigits(n: nat) returns (result: nat)
    ensures result == |Numeral(n)|
  {
    result := 1;
    var v := n;
    while true
      invariant result >= 1 && result - 1 + |Numeral(v)| == |Numeral(n)|
      decreases v
    {
      if v < 10000 { SmallNumerals(v); }
      if v < 10 { return result; }
      if v < 100 { return result + 1; }
      if v < 1000 { return result + 2; }
      if v < 10000 { return result + 3; }
      NumeralFourDigits(v);
      v := v / 10000;
      result := result + 4;
    }
  }

  method BulkLen(len: nat) returns (r: nat)
    ensures r == 1 + |Numeral(len)| + 2 + len + 2
  {
    var d := CountDigits(len);
    r := 1 + d + 2 + len + 2;
  }

  // ----- numbers -----

  function Reverse(s: seq<byte>): (r: seq<byte>)
    ensures |r| == |s|
    ensures forall k :: 0 <= k < |s| ==> r[k] == s[|s| - 1 - k]
  {
    if s == [] then [] else Reverse(s[1..]) + [s[0]]
  }

  /** The digits still to be written, most significant first; none for zero. */
  function Left(v: nat): seq<byte> {
    if v == 0 then [] else Numeral(v)
  }

  lemma LastDigit(v: nat)
    ensures Numeral(v) == Left(v / 10) + [48 + v % 10]
  {
  }

  lemma ReverseAppend(s: seq<byte>, c: byte)
    ensures Reverse(s + [c]) == [c] + Reverse(s)
  {
  }

  /** Writing the last digit still to be written moves it to the other side. */
  lemma DigitWritten(before: seq<byte>, v: nat)
    requires v != 0
    ensures Left(v) + Reverse(before) == Left(v / 10) + Reverse(before + [48 + v % 10])
  {
    LastDigit(v);
    ReverseAppend(before, 48 + v % 10);
    hide Numeral, Reverse;
    var d: seq<byte> := [48 + v % 10];
    assert Left(v / 10) + d + Reverse(before) == Left(v / 10) + (d + Reverse(before));
  }

  /** Writes the digits of `value` backwards from the start of `s`. */
  method WriteDigits(s: array<byte>, value: nat) returns (p: nat)
    requires |Numeral(value)| <= s.Length
    modifies s
    ensures p == |Numeral(value)| && Reverse(s[..p]) == Numeral(value)
  {
    LastDigit(value);
    var v := value;
    s[0] := 48 + v % 10;
    assert s[..1] == [48 + v % 10] && Reverse([48 + v % 10]) == [48 + v % 10];
    hide Numeral, Reverse;
    v := v / 10;
    p := 1;
    while v != 0
      invariant 0 < p <= |Numeral(value)|
      invariant Numeral(value) == Left(v) + Reverse(s[..p])
      decreases v
    {
      ghost var before := s[..p];
      DigitWritten(before, v);
      assert |Left(v)| > 0 by {
        LastDigit(v);
      }
      s[p] := 48 + v % 10;
      assert s[..p + 1] == before + [48 + v % 10];
      v := v / 10;
      p := p + 1;
    }
    assert Left(0) + Reverse(s[..p]) == Reverse(s[..p]);
  }

  method ReverseInPlace(s: array<byte>, l: nat)
    requires l <= s.Length
    modifies s
    ensures s[..l] == Reverse(old(s[..l]))
    ensures forall k :: l <= k < s.Length ==> s[k] == old(s[k])
  {
    var i, j := 0, l - 1;
    while i < j
      invariant 0 <= i <= l && j == l - 1 - i && i <= j + 2
      invariant forall k :: 0 <= k < l && (k < i || k > j) ==> s[k] == old(s[l - 1 - k])
      invariant forall k :: i <= k <= j ==> s[k] == old(s[k])
      invariant forall k :: l <= k < s.Length ==> s[k] == old(s[k])
    {
      s[i], s[j] := s[j], s[i];
      i, j := i + 1, j - 1;
    }
    assert forall k :: 0 <= k < l ==> s[k] == old(s[l - 1 - k]);
  }

  /** Prints an unsigned number with a terminating zero. */
  method SdsUll2Str(s: array<byte>, v: nat) returns (l: nat)
    requires s.Length >= 21 && v <= ULLONG_MAX
    modifies s
    ensures l <= 20 && s[..l] == Numeral(v) && s[l] == 0
  {
    UllIsShort(v);
    l := WriteDigits(s, v);
    ghost var digits := s[..l];
    s[l] := 0;
    assert s[..l] == digits;
    ReverseInPlace(s, l);
  }

  /** Prints a signed number with a terminating zero; the least `long long` has no negation. */
  method SdsLl2Str(s: array<byte>, value: int) returns (l: nat)
    requires s.Length >= 21 && LLONG_MIN < value <= LLONG_MAX
    modifies s
    ensures l <= 20 && s[..l] == Decimal(value) && s[l] == 0
  {
    var v := if value < 0 then -value else value;
    LlIsShort(v);
    l := WriteDigits(s, v);
    ghost var digits := s[..l];
    if value < 0 {
      s[l] := MINUS;
      assert s[..l + 1] == digits + [MINUS];
      ReverseAppend(digits, MINUS);
      l := l + 1;
    }
    ghost var text := s[..l];
    s[l] := 0;
    assert s[..l] == text;
    ReverseInPlace(s, l);
  }

  /** Reading a printed number gives it back. */
  method PrintThenRead(value: int) returns (r: Option<int>)
    requires LLONG_MIN < value <= LLONG_MAX
    ensures r == Some(value)
  {
    var s := new byte[21];
    var l := SdsLl2Str(s, value);
    r := RespScan.String2ll(s[..l]);
    ParseDecimal(value);
  }

  // ----- commands -----

  function Words(argv: seq<seq<byte>>): (rs: seq<Reply>)
    ensures |rs| == |argv|
    ensures forall i :: 0 <= i < |argv| ==> rs[i] == Text(String, argv[i])
  {
    if argv == [] then [] else [Text(String, argv[0])] + Words(argv[1..])
  }

  /** A command is an array of bulk strings. */
  function Command(argv: seq<seq<byte>>): Reply {
    Aggregate(Array, Words(argv))
  }

  /** One argument on the wire. */
  function Arg(arg: seq<byte>): seq<byte> {
    [36] + Decimal(|arg|) + [13, 10] + arg + [13, 10]
  }

  /** The first `n` arguments on the wire. */
  function Args(argv: seq<seq<byte>>, n: nat): seq<byte>
    requires n <= |argv|
  {
    if n == 0 then [] else Args(argv, n - 1) + Arg(argv[n - 1])
  }

  function Header(argc: nat): seq<byte> {
    [42] + Decimal(argc) + [13, 10]
  }

  /** Byte for byte: each argument adds a dollar sign, its length in decimal, a line end, its bytes, a line end. */
  lemma ArgsByByte(argv: seq<seq<byte>>, n: nat)
    requires n < |argv|
    ensures Args(argv, 0) == []
    ensures Args(argv, n + 1) == Args(argv, n) + [36] + Decimal(|argv[n]|) + [13, 10] + argv[n] + [13, 10]
  {
    hide Decimal;
    assert Args(argv, n + 1) == Args(argv, n) + ([36] + Decimal(|argv[n]|) + [13, 10] + argv[n] + [13, 10]);
  }

  /** `GET`, for one. */
  method FormatGet() returns (cmd: seq<byte>)
    ensures cmd == [42, 49, 13, 10, 36, 51, 13, 10, 71, 69, 84, 13, 10]
  {
    var get: seq<byte> := [71, 69, 84];
    var totlen;
    cmd, totlen := FormatSdsCommandArgv([get]);
    ArgsByByte([get], 0);
    assert Decimal(1) == [49] && Decimal(3) == [51];
  }

  lemma ArgSpelled(arg: seq<byte>)
    ensures Encode(Text(String, arg)) == Arg(arg)
  {
    hide Decimal;
    assert Spell(Blob(36, arg, [13, 10])) == [36] + Decimal(|arg|) + [13, 10] + (arg + [13, 10]);
  }

  lemma EncodeAllAppend(rs: seq<Reply>, r: Reply)
    ensures EncodeAll(rs + [r]) == EncodeAll(rs) + Encode(r)
  {
    hide Encode;
    EncodeSplits(rs, [r]);
    EncodeFirst([r]);
    assert [r][1..] == [];
    assert EncodeAll([]) == [];
  }

  lemma TakeOneMore(rs: seq<Reply>, n: nat)
    requires 0 < n <= |rs|
    ensures rs[..n] == rs[..n - 1] + [rs[n - 1]]
  {
  }

  lemma {:induction false} ArgsEncode(argv: seq<seq<byte>>, n: nat)
    requires n <= |argv|
    ensures Args(argv, n) == EncodeAll(Words(argv)[..n])
  {
    hide Decimal, Encode, Arg;
    if n > 0 {
      assert Args(argv, n) == Args(argv, n - 1) + Arg(argv[n - 1]);
      hide Args, EncodeAll, Words;
      ArgsEncode(argv, n - 1);
      ArgSpelled(argv[n - 1]);
      TakeOneMore(Words(argv), n);
      EncodeAllAppend(Words(argv)[..n - 1], Text(String, argv[n - 1]));
    }
  }

  lemma ArraySpelled(es: seq<Reply>)
    ensures Encode(Aggregate(Array, es)) == [42] + Decimal(|es|) + [13, 10] + EncodeAll(es)
  {
    hide Decimal, SpellAll;
  }

  /** Header and arguments together are the wire form of the command. */
  lemma CommandBytes(argv: seq<seq<byte>>)
    ensures Header(|argv|) + Args(argv, |argv|) == Encode(Command(argv))
  {
    hide Decimal, Args, Encode, EncodeAll;
    ArraySpelled(Words(argv));
    ArgsEncode(argv, |argv|);
    assert Words(argv)[..|argv|] == Words(argv);
  }

  lemma {:induction false} ArgsGrow(argv: seq<seq<byte>>, m: nat, n: nat)
    requires m <= n <= |argv|
    ensures |Args(argv, m)| <= |Args(argv, n)|
  {
    if m < n {
      ArgsGrow(argv, m, n - 1);
    }
  }

  /** The length of a command, computed without writing it. */
  method TotalLength(argv: seq<seq<byte>>) returns (totlen: nat)
    ensures totlen == |Header(|argv|)| + |Args(argv, |argv|)|
  {
    var d := CountDigits(|argv|);
    totlen := 1 + d + 2;
    for j := 0 to |argv|
      invariant totlen == |Header(|argv|)| + |Args(argv, j)|
    {
      var b := BulkLen(|argv[j]|);
      totlen := totlen + b;
    }
  }

  /** Writes `text` at `pos`. */
  method Put(cmd: array<byte>, pos: nat, text: seq<byte>) returns (next: nat)
    requires pos + |text| <= cmd.Length
    modifies cmd
    ensures next == pos + |text|
    ensures cmd[..next] == old(cmd[..pos]) + text
  {
    ghost var before := cmd[..pos];
    for i := 0 to |text|
      invariant cmd[..pos + i] == before + text[..i]
    {
      cmd[pos + i] := text[i];
      assert cmd[..pos + i + 1] == cmd[..pos + i] + [text[i]];
      assert text[..i + 1] == text[..i] + [text[i]];
    }
    assert text[..|text|] == text;
    next := pos + |text|;
  }

  method PutArg(cmd: array<byte>, pos: nat, arg: seq<byte>) returns (next: nat)
    requires pos + |Arg(arg)| <= cmd.Length
    modifies cmd
    ensures next == pos + |Arg(arg)|
    ensures cmd[..next] == old(cmd[..pos]) + Arg(arg)
  {
    hide Decimal;
    var line := [36] + Decimal(|arg|) + [13, 10];
    ghost var before := cmd[..pos];
    next := Put(cmd, pos, line);
    next := Put(cmd, next, arg);
    next := Put(cmd, next, CRLF);
    assert before + line + arg + CRLF == before + Arg(arg);
  }

  /** Formats into a buffer of exactly the computed size. */
  method FormatCommandArgv(argv: seq<seq<byte>>) returns (cmd: array<byte>, totlen: nat)
    ensures cmd.Length == totlen + 1
    ensures cmd[..totlen] == [42] + Decimal(|argv|) + [13, 10] + Args(argv, |argv|) && cmd[totlen] == 0
  {
    hide Arg, Decimal;
    totlen := TotalLength(argv);
    cmd := new byte[totlen + 1];
    ArgsGrow(argv, 0, |argv|);
    var pos: nat := Put(cmd, 0, Header(|argv|));
    ghost var header := Header(|argv|);
    for j := 0 to |argv|
      invariant pos == |header| + |Args(argv, j)| <= totlen
      invariant cmd[..pos] == header + Args(argv, j)
    {
      ArgsGrow(argv, j + 1, |argv|);
      pos := PutArg(cmd, pos, argv[j]);
      assert header + Args(argv, j) + Arg(argv[j]) == header + Args(argv, j + 1);
    }
    assert pos == totlen;
    cmd[pos] := 0;
  }

  lemma NextArg(argv: seq<seq<byte>>, j: nat)
    requires j < |argv|
    ensures Header(|argv|) + Args(argv, j) + Arg(argv[j]) == Header(|argv|) + Args(argv, j + 1)
  {
    hide Arg, Header;
  }

  method AppendArg(cmd: seq<byte>, arg: seq<byte>) returns (cmd': seq<byte>)
    requires |arg| <= ULLONG_MAX
    ensures cmd' == cmd + Arg(arg)
  {
    hide Numeral;
    var buf := new byte[21];
    var l := SdsUll2Str(buf, |arg|);
    cmd' := cmd + ([36] + buf[..l] + CRLF);
    cmd' := cmd' + arg;
    cmd' := cmd' + CRLF;
  }

  /** Formats by appending to a growing string; the length is computed ahead all the same. */
  method FormatSdsCommandArgv(argv: seq<seq<byte>>) returns (cmd: seq<byte>, totlen: nat)
    requires |argv| < 0x8000_0000 && forall a <- argv :: |a| <= ULLONG_MAX
    ensures cmd == [42] + Decimal(|argv|) + [13, 10] + Args(argv, |argv|) && totlen == |cmd|
  {
    assert Args(argv, 0) == [];
    hide Args, Arg, Numeral;
    totlen := TotalLength(argv);
    var buf := new byte[21];
    var l := SdsLl2Str(buf, |argv|);
    cmd := [42] + buf[..l] + CRLF;
    for j := 0 to |argv|
      invariant cmd == Header(|argv|) + Args(argv, j)
    {
      assert argv[j] in argv;
      cmd := AppendArg(cmd, argv[j]);
      NextArg(argv, j);
    }
  }

  lemma {:induction false} WordsEncodable(cfg: Config, argv: seq<seq<byte>>)
    requires forall a <- argv :: |a| <= MAX_BULK
    ensures AllEncodable(cfg, Words(argv))
  {
    if argv != [] {
      assert argv[0] in argv;
      WordsEncodable(cfg, argv[1..]);
      assert Words(argv)[1..] == Words(argv[1..]);
    }
  }

  /** Parsing a formatted command yields one array of exactly the arguments and leaves nothing unread. */
  lemma CommandRoundTrip(cfg: Config, argv: seq<seq<byte>>)
    requires |argv| < 0x8000_0000 && forall a <- argv :: |a| <= MAX_BULK
    ensures Drain(cfg, Waiting(START, [42] + Decimal(|argv|) + [13, 10] + Args(argv, |argv|)))
         == ([Command(argv)], NEW)
  {
    hide Encode, Step, Args;
    CommandBytes(argv);
    WordsEncodable(cfg, argv);
    ReadReply(cfg, [], Command(argv), []);
    assert Encode(Command(argv)) + [] == Encode(Command(argv));
    NothingToDrain(cfg);
    assert [Command(argv)] + [] == [Command(argv)];
  }
}
