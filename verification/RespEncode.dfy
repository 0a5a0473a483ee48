/** The wire form of replies, after the Redis serialization protocol: of the forms that mean a reply, the one that
    is written.  The parser inverts it at every nesting depth. */
module RespEncode {
  import opened Options
  import opened Bytes
  import opened Resp
  import opened RespGrammar

  function StartOf(k: Kind): byte {
    match k
    case Error => 45
    case Status => 43
    case Integer => 58
    case Double => 44
    case Nil => 95
    case String => 36
    case Array => 42
    case Map => 37
    case Attr => 124
    case Set => 126
    case Bool => 35
    case Verb => 61
    case Push => 62
    case Bignum => 40
  }

  /** The form that is written for a reply. */
  function FormOf(r: Reply): Item
    decreases r, 1
  {
    match r
    case Text(k, str) => if k.String? then Blob(36, str, CRLF) else OneLine(StartOf(k), str)
    case Verbatim(vtype, str) => Blob(61, vtype + [58] + str, CRLF)
    case Int(v) => OneLine(58, Decimal(v))
    case Real(str) => OneLine(44, str)
    case NilReply => OneLine(95, [])
    case Flag(on) => OneLine(35, [if on then 116 else 102])
    case Aggregate(k, es) => Many(StartOf(k), FormsOf(es))
  }

  function FormsOf(es: seq<Reply>): (items: seq<Item>)
    ensures |items| == |es|
    decreases es, 0
  {
    if es == [] then [] else [FormOf(es[0])] + FormsOf(es[1..])
  }

  function Encode(r: Reply): seq<byte> {
    Spell(FormOf(r))
  }

  function EncodeAll(es: seq<Reply>): seq<byte> {
    SpellAll(FormsOf(es))
  }

  lemma EncodeFirst(es: seq<Reply>)
    requires es != []
    ensures EncodeAll(es) == Encode(es[0]) + EncodeAll(es[1..])
  {
    hide Spell, FormOf;
    assert FormsOf(es)[1..] == FormsOf(es[1..]);
  }

  /** The replies that have a wire form: the ones the protocol can express within the reader's limits. */
  ghost predicate Encodable(cfg: Config, r: Reply)
    decreases r, 1
  {
    match r
    case Text(k, str) =>
      if k.String? then |str| <= MAX_BULK
      else if k.Bignum? then IsBignum(str)
      else (k.Status? || k.Error?) && CR !in str && LF !in str
    case Verbatim(vtype, str) => |vtype| == 3 && |str| + 4 <= MAX_BULK
    case Int(v) => IsLongLong(v)
    case Real(str) => |str| < DOUBLE_BUFFER && Unbroken(str) && (IsSpecialDouble(str) || cfg.finite(str))
    case NilReply => true
    case Flag(on) => true
    case Aggregate(k, es) =>
      && IsAggregate(k)
      && (IsPaired(k) ==> |es| % 2 == 0)
      && |es| <= MAX_SLOTS
      && AllEncodable(cfg, es)
  }

  ghost predicate AllEncodable(cfg: Config, es: seq<Reply>)
    decreases es, 0
  {
    es == [] || (Encodable(cfg, es[0]) && AllEncodable(cfg, es[1..]))
  }

  /** What is written for a reply means this reply. */
  lemma {:induction false} FormMeans(cfg: Config, r: Reply)
    requires Encodable(cfg, r)
    ensures Means(cfg, FormOf(r), r)
    decreases r, 1
  {
    match r
    case Verbatim(vtype, str) =>
      var body := vtype + [58] + str;
      assert body[..3] == vtype && body[4..] == str;
    case Int(v) => DecimalUnbroken(v);
    case Real(str) => SpecialIff(str);
    case Aggregate(k, es) =>
      assert StartsMany(StartOf(k), k);
      FormsMean(cfg, es);
    case _ =>
  }

  lemma {:induction false} FormsMean(cfg: Config, es: seq<Reply>)
    requires AllEncodable(cfg, es)
    ensures AllMean(cfg, FormsOf(es), es)
    decreases es, 0
  {
    if es != [] {
      FormMeans(cfg, es[0]);
      FormsMean(cfg, es[1..]);
      hide Means, FormOf;
      assert FormsOf(es)[1..] == FormsOf(es[1..]);
    }
  }

  /** From any stack of open aggregates, the wire form of a reply is read as that reply. */
  lemma ReadReply(cfg: Config, frames: seq<Frame>, r: Reply, rest: seq<byte>)
    requires Encodable(cfg, r)
    ensures Drain(cfg, Waiting(State(frames, None), Encode(r) + rest)) == AfterStep(cfg, Deliver(frames, r, rest))
  {
    hide Drain, Deliver, Spell, Means;
    FormMeans(cfg, r);
    DrainItem(cfg, frames, FormOf(r), r, rest);
  }

  /** An aggregate with more slots than an index can reach overflows once 2^31 elements have been read into it. */
  lemma {:induction false} FillUp(cfg: Config, frames: seq<Frame>, f: Frame, es: seq<Reply>, rest: seq<byte>)
    requires AllEncodable(cfg, es) && es != [] && |f.filled| + |es| == 0x8000_0000 < f.count
    ensures Drain(cfg, Waiting(State(frames + [f], None), EncodeAll(es) + rest)) == ([], Dead(IndexOverflow))
    decreases |es|
  {
    hide Drain, Encode, EncodeAll, Encodable, Deliver, Filled;
    var tail := EncodeAll(es[1..]) + rest;
    EncodeFirst(es);
    assert EncodeAll(es) + rest == Encode(es[0]) + tail;
    ReadReply(cfg, frames + [f], es[0], tail);
    NextSlot(frames, f, es[0], tail);
    NotFull(frames, f, es[0], tail);
    if |es| > 1 {
      FillUp(cfg, frames, f.(filled := f.filled + [es[0]]), es[1..], rest);
    }
  }

  lemma NotFull(frames: seq<Frame>, f: Frame, r: Reply, rest: seq<byte>)
    requires |f.filled| + 1 < f.count
    ensures Filled(frames, f, r, rest)
         == if |f.filled| + 1 >= 0x8000_0000 then Failed(IndexOverflow)
            else Moved(State(frames + [f.(filled := f.filled + [r])], None), rest)
  {
  }

  /** So the reader accepts the header of such an aggregate, and dies of any 2^31 replies after it. */
  lemma HugeAggregate(cfg: Config, frames: seq<Frame>, b: byte, k: Kind, n: nat, es: seq<Reply>, rest: seq<byte>)
    requires StartsMany(b, k) && n <= 4294967295 && (if b == 37 || b == 124 then 2 * n else n) > 0x8000_0000
    requires AllEncodable(cfg, es) && |es| == 0x8000_0000
    ensures Drain(cfg, Waiting(State(frames, None), [b] + Decimal(n) + [13, 10] + (EncodeAll(es) + rest)))
         == ([], Dead(IndexOverflow))
  {
    var tail := EncodeAll(es) + rest;
    var f := Frame(k, if b == 37 || b == 124 then 2 * n else n, []);
    StartBytes(b);
    hide Drain, GetReply, Decimal, EncodeAll, AllEncodable;
    ReadCount(cfg, frames, b, k, n, tail);
    assert Open(frames, k, n, tail) == Moved(State(frames + [f], None), tail);
    DrainByReply(cfg, Waiting(State(frames, None), [b] + Decimal(n) + [13, 10] + tail), Open(frames, k, n, tail));
    FillUp(cfg, frames, f, es, rest);
  }

  lemma {:induction false} NilsEncodable(cfg: Config, n: nat)
    ensures AllEncodable(cfg, seq(n, _ => NilReply))
  {
    if n > 0 {
      NilsEncodable(cfg, n - 1);
      assert seq(n, _ => NilReply)[1..] == seq(n - 1, _ => NilReply);
    }
  }

  /** Such a stream: an array of 2^31 + 1 nils. */
  lemma ManyNils(cfg: Config)
    ensures Drain(cfg, Waiting(START, [42] + Decimal(0x8000_0001) + [13, 10]
                                      + EncodeAll(seq(0x8000_0001, _ => NilReply))))
         == ([], Dead(IndexOverflow))
  {
    var nils, all := seq(0x8000_0000, _ => NilReply), seq(0x8000_0001, _ => NilReply);
    NilsEncodable(cfg, 0x8000_0000);
    assert all == nils + [NilReply];
    EncodeSplits(nils, [NilReply]);
    hide Drain, Decimal, EncodeAll, AllEncodable;
    HugeAggregate(cfg, [], 42, Array, 0x8000_0001, nils, EncodeAll([NilReply]));
  }

  lemma {:induction false} EncodeSplits(es: seq<Reply>, fs: seq<Reply>)
    ensures EncodeAll(es + fs) == EncodeAll(es) + EncodeAll(fs)
  {
    if es == [] {
      assert es + fs == fs && EncodeAll(es) == [];
      hide EncodeAll;
      assert [] + EncodeAll(fs) == EncodeAll(fs);
    } else {
      hide EncodeAll, Encode;
      assert (es + fs)[0] == es[0] && (es + fs)[1..] == es[1..] + fs;
      EncodeSplits(es[1..], fs);
      EncodeFirst(es);
      EncodeFirst(es + fs);
      assert Encode(es[0]) + (EncodeAll(es[1..]) + EncodeAll(fs)) == Encode(es[0]) + EncodeAll(es[1..]) + EncodeAll(fs);
    }
  }

  lemma ReadNext(cfg: Config, r: Reply, rest: seq<byte>)
    requires Encodable(cfg, r)
    ensures Drain(cfg, Waiting(START, Encode(r) + rest))
         == ([r] + Drain(cfg, Waiting(START, rest)).0, Drain(cfg, Waiting(START, rest)).1)
  {
    hide Drain, Encode, Encodable;
    ReadReply(cfg, [], r, rest);
  }

  lemma EncodedFirst(rs: seq<Reply>, rest: seq<byte>)
    ensures if rs == [] then EncodeAll(rs) + rest == rest
            else EncodeAll(rs) + rest == Encode(rs[0]) + (EncodeAll(rs[1..]) + rest)
  {
    if rs == [] {
      assert EncodeAll(rs) == [];
    } else {
      hide Encode, EncodeAll;
      EncodeFirst(rs);
      assert Encode(rs[0]) + EncodeAll(rs[1..]) + rest == Encode(rs[0]) + (EncodeAll(rs[1..]) + rest);
    }
  }

  /** Reading undoes writing: a stream of encoded replies is parsed into exactly those replies, and
      every byte is consumed. */
  lemma {:induction false} ReadAll(cfg: Config, rs: seq<Reply>, rest: seq<byte>)
    requires AllEncodable(cfg, rs)
    ensures Drain(cfg, Waiting(START, EncodeAll(rs) + rest))
         == (rs + Drain(cfg, Waiting(START, rest)).0, Drain(cfg, Waiting(START, rest)).1)
    decreases |rs|
  {
    hide Drain, Encode, EncodeAll, Encodable;
    var d := Drain(cfg, Waiting(START, rest)).0;
    EncodedFirst(rs, rest);
    if rs == [] {
      assert [] + d == d;
    } else {
      ReadNext(cfg, rs[0], EncodeAll(rs[1..]) + rest);
      ReadAll(cfg, rs[1..], rest);
      assert [rs[0]] + (rs[1..] + d) == rs + d;
    }
  }
}
