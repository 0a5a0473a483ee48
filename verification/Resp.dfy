/** The reply parser as a machine on values: a stack of open aggregates, and the bytes not yet
    consumed.  One step consumes a type byte, a line, a bulk string or an aggregate header.
    Independence of chunking is proved here. */
module Resp {
  import opened Options
  import opened Bytes
  import opened RespScan

  datatype Kind =
    | Error | Status | Integer | Double | Nil | String | Array | Map | Attr | Set | Bool | Verb | Push | Bignum

  predicate IsAggregate(k: Kind) {
    k.Array? || k.Map? || k.Attr? || k.Set? || k.Push?
  }

  /** Maps and attributes announce pairs, and hold two elements for each. */
  predicate IsPaired(k: Kind) {
    k.Map? || k.Attr?
  }

  function KindOf(b: byte): Option<Kind> {
    match b
    case 45 => Some(Error)
    case 43 => Some(Status)
    case 58 => Some(Integer)
    case 44 => Some(Double)
    case 95 => Some(Nil)
    case 36 => Some(String)
    case 42 => Some(Array)
    case 37 => Some(Map)
    case 124 => Some(Attr)
    case 126 => Some(Set)
    case 35 => Some(Bool)
    case 61 => Some(Verb)
    case 62 => Some(Push)
    case 40 => Some(Bignum)
    case _ => None
  }

  datatype Reply =
    | Text(kind: Kind, str: seq<byte>)
    | Verbatim(vtype: seq<byte>, str: seq<byte>)
    | Int(value: int)
    | Real(str: seq<byte>)
    | NilReply
    | Flag(on: bool)
    | Aggregate(kind: Kind, elements: seq<Reply>)

  datatype Fault =
    | BadType(b: byte) | BadInteger | DoubleTooLarge | BadDouble | BadNil | BadBool | BadBignum | BadSimpleString
    | BadBulkLength | BulkOutOfRange | BadVerbatim | BadCount | CountOutOfRange
    | IndexOverflow | LengthOverflow

  /** What the reader takes from its environment: which lines `strtod` reads to the end as a finite number. */
  datatype Config = Config(finite: seq<byte> -> bool)

  const MAX_ELEMENTS: int := 0xFFFF_FFFF

  /** The slots of an aggregate that a signed 32-bit index can reach. */
  const MAX_SLOTS: int := 0x8000_0000

  /** The longest bulk string whose length plus two is a `long long`. */
  const MAX_BULK: int := LLONG_MAX - 2
  const DOUBLE_BUFFER: int := 326

  datatype Parsed = Good(reply: Reply) | Bad(fault: Fault)

  function Lower(c: byte): byte {
    if 65 <= c <= 90 then c + 32 else c
  }

  predicate SameText(s: seq<byte>, t: seq<byte>) {
    |s| == |t| && forall i :: 0 <= i < |s| ==> Lower(s[i]) == t[i]
  }

  const INF: seq<byte> := [105, 110, 102]
  const NAN: seq<byte> := [110, 97, 110]

  predicate IsSpecialDouble(s: seq<byte>) {
    SameText(s, INF) || SameText(s, [MINUS] + INF) || SameText(s, NAN) || SameText(s, [MINUS] + NAN)
  }

  predicate IsBignum(s: seq<byte>) {
    forall i :: 0 <= i < |s| ==> (i == 0 && s[0] == MINUS) || IsDigit(s[i])
  }

  /** `strchr("tTfF", c)`, which also finds the terminating zero. */
  predicate IsBoolByte(c: byte) {
    c == 116 || c == 84 || c == 102 || c == 70 || c == 0
  }

  /** The reply on a complete line. */
  ghost function ParseLine(cfg: Config, k: Kind, line: seq<byte>): Parsed {
    match k
    case Integer => if ParseLL(line).Some? then Good(Int(ParseLL(line).value)) else Bad(BadInteger)
    case Double =>
      if |line| >= DOUBLE_BUFFER then Bad(DoubleTooLarge)
      else if IsSpecialDouble(line) || cfg.finite(line) then Good(Real(line))
      else Bad(BadDouble)
    case Nil => if line == [] then Good(NilReply) else Bad(BadNil)
    case Bool =>
      if |line| == 1 && IsBoolByte(line[0]) then Good(Flag(line[0] == 116 || line[0] == 84)) else Bad(BadBool)
    case Bignum => if IsBignum(line) then Good(Text(Bignum, line)) else Bad(BadBignum)
    case _ => if CR in line || LF in line then Bad(BadSimpleString) else Good(Text(k, line))
  }

  /** The reply with a complete body. */
  function ParseBody(k: Kind, body: seq<byte>): Parsed {
    if k.Verb? then
      if |body| < 4 || body[3] != 58 then Bad(BadVerbatim) else Good(Verbatim(body[..3], body[4..]))
    else
      Good(Text(k, body))
  }

  /** An aggregate whose elements are still arriving. */
  datatype Frame = Frame(kind: Kind, count: nat, filled: seq<Reply>)

  datatype State = State(frames: seq<Frame>, kind: Option<Kind>)

  const START := State([], None)

  ghost predicate ValidState(st: State) {
    forall f <- st.frames :: IsAggregate(f.kind) && |f.filled| < f.count
  }

  datatype Outcome =
    | Blocked
    | Moved(next: State, rest: seq<byte>)
    | Emitted(reply: Reply, rest: seq<byte>)
    | Failed(fault: Fault)

  /** A finished reply goes into the innermost open aggregate, which may finish that one in turn.  Where the
      index of the next slot would overflow, the behaviour is undefined; the machine stops there. */
  function Deliver(frames: seq<Frame>, r: Reply, rest: seq<byte>): (o: Outcome)
    ensures o.Moved? || o.Emitted? || o == Failed(IndexOverflow)
    ensures o.Moved? || o.Emitted? ==> o.rest == rest
    decreases |frames|
  {
    if frames == [] then Emitted(r, rest)
    else
      var n := |frames| - 1;
      var f := frames[n];
      if |f.filled| + 1 >= f.count then Deliver(frames[..n], Aggregate(f.kind, f.filled + [r]), rest)
      else if |f.filled| + 1 >= MAX_SLOTS then Failed(IndexOverflow)
      else Moved(State(frames[..n] + [f.(filled := f.filled + [r])], None), rest)
  }

  /** The open aggregate that a finished reply ends up in: the innermost one that it does not complete. */
  ghost predicate EndsIn(frames: seq<Frame>, i: int) {
    && 0 <= i < |frames| && |frames[i].filled| + 1 < frames[i].count
    && forall j :: i < j < |frames| ==> |frames[j].filled| + 1 >= frames[j].count
  }

  /** The index overflows exactly when that aggregate has 2^31 - 1 elements or more already. */
  lemma {:induction false} OverflowIff(frames: seq<Frame>, r: Reply, rest: seq<byte>)
    ensures Deliver(frames, r, rest) == Failed(IndexOverflow)
            <==> exists i :: EndsIn(frames, i) && |frames[i].filled| + 1 >= MAX_SLOTS
    decreases |frames|
  {
    if frames != [] {
      var n := |frames| - 1;
      var f := frames[n];
      if |f.filled| + 1 >= f.count {
        var outer := frames[..n];
        OverflowIff(outer, Aggregate(f.kind, f.filled + [r]), rest);
        forall i ensures EndsIn(frames, i) <==> EndsIn(outer, i) {
        }
      } else {
        assert EndsIn(frames, n);
        assert forall i :: EndsIn(frames, i) ==> i == n;
      }
    }
  }

  /** So it never does in aggregates of at most 2^31 elements. */
  lemma NoOverflow(frames: seq<Frame>, r: Reply, rest: seq<byte>)
    requires forall f <- frames :: f.count <= MAX_SLOTS
    ensures Deliver(frames, r, rest) != Failed(IndexOverflow)
  {
    hide Deliver;
    OverflowIff(frames, r, rest);
    assert forall i :: EndsIn(frames, i) ==> frames[i] in frames;
  }

  function Finish(frames: seq<Frame>, p: Parsed, rest: seq<byte>): (o: Outcome)
    ensures o.Moved? || o.Emitted? ==> o.rest == rest
    ensures !o.Blocked?
  {
    match p
    case Good(r) => Deliver(frames, r, rest)
    case Bad(e) => Failed(e)
  }

  /** The outcome of an aggregate header that announces `n` elements. */
  function Open(frames: seq<Frame>, k: Kind, n: int, rest: seq<byte>): (o: Outcome)
    ensures o.Moved? || o.Emitted? ==> o.rest == rest
    ensures !o.Blocked?
  {
    if n < -1 || n > MAX_ELEMENTS then Failed(CountOutOfRange)
    else if n == -1 then Deliver(frames, NilReply, rest)
    else
      var count := if IsPaired(k) then 2 * n else n;
      if count > 0 then Moved(State(frames + [Frame(k, count, [])], None), rest)
      else Deliver(frames, Aggregate(k, []), rest)
  }

  /** A bulk string of `len` bytes that starts at `head`, followed by a line end.  Where the sum of the length and
      the line end would overflow, the behaviour is undefined; the machine stops there. */
  function BulkBody(frames: seq<Frame>, k: Kind, buf: seq<byte>, head: nat, len: int): (o: Outcome)
    requires 0 < head <= |buf|
    ensures o.Moved? || o.Emitted? ==> |o.rest| < |buf|
  {
    if len < -1 then Failed(BulkOutOfRange)
    else if len == -1 then Deliver(frames, NilReply, buf[head..])
    else if len > MAX_BULK then Failed(LengthOverflow)
    else if head + len + 2 > |buf| then Blocked
    else Finish(frames, ParseBody(k, buf[head..head + len]), buf[head + len + 2..])
  }

  ghost function BulkStep(frames: seq<Frame>, k: Kind, buf: seq<byte>): (o: Outcome)
    ensures o.Moved? || o.Emitted? ==> |o.rest| < |buf|
  {
    var e := FindCrlf(buf);
    if e < 0 then Blocked
    else
      var head := e + 2;
      match ParseLL(buf[..e])
      case None => Failed(BadBulkLength)
      case Some(len) => BulkBody(frames, k, buf, head, len)
  }

  ghost function LineStep(cfg: Config, frames: seq<Frame>, k: Kind, buf: seq<byte>): (o: Outcome)
    ensures o.Moved? || o.Emitted? ==> |o.rest| < |buf|
  {
    var e := FindCrlf(buf);
    if e < 0 then Blocked
    else if IsAggregate(k) then
      match ParseLL(buf[..e])
      case None => Failed(BadCount)
      case Some(n) => Open(frames, k, n, buf[e + 2..])
    else
      Finish(frames, ParseLine(cfg, k, buf[..e]), buf[e + 2..])
  }

  ghost function Step(cfg: Config, st: State, buf: seq<byte>): (o: Outcome)
    ensures o.Moved? || o.Emitted? ==> |o.rest| < |buf|
  {
    match st.kind
    case None =>
      if buf == [] then Blocked
      else
        match KindOf(buf[0]) {
          case None => Failed(BadType(buf[0]))
          case Some(k) => Moved(st.(kind := Some(k)), buf[1..])
        }
    case Some(k) =>
      if k.String? || k.Verb? then BulkStep(st.frames, k, buf)
      else LineStep(cfg, st.frames, k, buf)
  }

  /** The length of a bulk string overflows exactly when it is announced as 2^63 - 2 or 2^63 - 1. */
  lemma LengthOverflowIff(cfg: Config, st: State, buf: seq<byte>)
    ensures Step(cfg, st, buf) == Failed(LengthOverflow)
            <==> && (st.kind == Some(String) || st.kind == Some(Verb)) && FindCrlf(buf) >= 0
                 && (buf[..FindCrlf(buf)] == Decimal(LLONG_MAX - 1) || buf[..FindCrlf(buf)] == Decimal(LLONG_MAX))
  {
    hide Deliver, FindCrlf, Decimal;
    ParseDecimal(LLONG_MAX - 1);
    ParseDecimal(LLONG_MAX);
  }

  // ----- steps keep states valid -----

  lemma {:induction false} DeliverValid(frames: seq<Frame>, r: Reply, rest: seq<byte>)
    requires ValidState(State(frames, None))
    ensures Deliver(frames, r, rest).Moved? ==> ValidState(Deliver(frames, r, rest).next)
    decreases |frames|
  {
    if frames != [] {
      var n := |frames| - 1;
      var f := frames[n];
      assert f in frames;
      if |f.filled| + 1 >= f.count {
        DeliverValid(frames[..n], Aggregate(f.kind, f.filled + [r]), rest);
      }
    }
  }

  lemma StepValid(cfg: Config, st: State, buf: seq<byte>)
    requires ValidState(st)
    ensures Step(cfg, st, buf).Moved? ==> ValidState(Step(cfg, st, buf).next)
  {
    forall r, rest ensures Deliver(st.frames, r, rest).Moved? ==> ValidState(Deliver(st.frames, r, rest).next) {
      DeliverValid(st.frames, r, rest);
    }
  }

  // ----- more input never changes what was decided on less -----

  ghost function Extended(o: Outcome, more: seq<byte>): Outcome {
    match o
    case Blocked => Blocked
    case Moved(next, rest) => Moved(next, rest + more)
    case Emitted(r, rest) => Emitted(r, rest + more)
    case Failed(e) => Failed(e)
  }

  lemma {:induction false} DeliverExtended(frames: seq<Frame>, r: Reply, rest: seq<byte>, more: seq<byte>)
    ensures Deliver(frames, r, rest + more) == Extended(Deliver(frames, r, rest), more)
    decreases |frames|
  {
    if frames != [] {
      var n := |frames| - 1;
      var f := frames[n];
      if |f.filled| + 1 >= f.count {
        DeliverExtended(frames[..n], Aggregate(f.kind, f.filled + [r]), rest, more);
      }
    }
  }

  lemma FinishExtended(frames: seq<Frame>, p: Parsed, rest: seq<byte>, more: seq<byte>)
    ensures Finish(frames, p, rest + more) == Extended(Finish(frames, p, rest), more)
  {
    if p.Good? {
      DeliverExtended(frames, p.reply, rest, more);
    }
  }

  lemma OpenExtended(frames: seq<Frame>, k: Kind, n: int, rest: seq<byte>, more: seq<byte>)
    ensures Open(frames, k, n, rest + more) == Extended(Open(frames, k, n, rest), more)
  {
    DeliverExtended(frames, NilReply, rest, more);
    DeliverExtended(frames, Aggregate(k, []), rest, more);
  }

  lemma BulkBodyExtended(frames: seq<Frame>, k: Kind, buf: seq<byte>, head: nat, len: int, more: seq<byte>)
    requires 0 < head <= |buf|
    requires !BulkBody(frames, k, buf, head, len).Blocked?
    ensures BulkBody(frames, k, buf + more, head, len) == Extended(BulkBody(frames, k, buf, head, len), more)
  {
    if len == -1 {
      Slices(buf, more, 0, head);
      DeliverExtended(frames, NilReply, buf[head..], more);
    } else if 0 <= len <= MAX_BULK {
      Slices(buf, more, head, head + len);
      Slices(buf, more, head, head + len + 2);
      FinishExtended(frames, ParseBody(k, buf[head..head + len]), buf[head + len + 2..], more);
    }
  }

  lemma BulkExtended(frames: seq<Frame>, k: Kind, buf: seq<byte>, more: seq<byte>)
    requires !BulkStep(frames, k, buf).Blocked?
    ensures BulkStep(frames, k, buf + more) == Extended(BulkStep(frames, k, buf), more)
  {
    hide BulkBody, FindCrlf;
    var e := FindCrlf(buf);
    FindCrlfStable(buf, more);
    Slices(buf, more, 0, e);
    if ParseLL(buf[..e]).Some? {
      BulkBodyExtended(frames, k, buf, e + 2, ParseLL(buf[..e]).value, more);
    }
  }

  lemma Slices(buf: seq<byte>, more: seq<byte>, a: nat, b: nat)
    requires a <= b <= |buf|
    ensures (buf + more)[a..b] == buf[a..b]
    ensures (buf + more)[..b] == buf[..b]
    ensures (buf + more)[b..] == buf[b..] + more
  {
  }

  lemma LineExtended(cfg: Config, frames: seq<Frame>, k: Kind, buf: seq<byte>, more: seq<byte>)
    requires !LineStep(cfg, frames, k, buf).Blocked?
    ensures LineStep(cfg, frames, k, buf + more) == Extended(LineStep(cfg, frames, k, buf), more)
  {
    var e := FindCrlf(buf);
    FindCrlfStable(buf, more);
    assert (buf + more)[..e] == buf[..e];
    assert (buf + more)[e + 2..] == buf[e + 2..] + more;
    if IsAggregate(k) {
      if ParseLL(buf[..e]).Some? {
        OpenExtended(frames, k, ParseLL(buf[..e]).value, buf[e + 2..], more);
      }
    } else {
      FinishExtended(frames, ParseLine(cfg, k, buf[..e]), buf[e + 2..], more);
    }
  }

  /** A step that does not wait for input does the same when more input is there. */
  lemma StepExtended(cfg: Config, st: State, buf: seq<byte>, more: seq<byte>)
    requires !Step(cfg, st, buf).Blocked?
    ensures Step(cfg, st, buf + more) == Extended(Step(cfg, st, buf), more)
  {
    match st.kind
    case None =>
      assert (buf + more)[1..] == buf[1..] + more;
    case Some(k) =>
      if k.String? || k.Verb? {
        BulkExtended(st.frames, k, buf, more);
      } else {
        LineExtended(cfg, st.frames, k, buf, more);
      }
  }

  // ----- readers -----

  /** A reader between two calls: waiting in some state with unread bytes, or dead with an error. */
  datatype Reader = Waiting(st: State, buf: seq<byte>) | Dead(fault: Fault)

  const NEW := Waiting(START, [])

  function Feed(rd: Reader, chunk: seq<byte>): Reader {
    if rd.Dead? then rd else Waiting(rd.st, rd.buf + chunk)
  }

  /** Steps until a reply is complete, the input runs out or an error occurs. */
  ghost function GetReply(cfg: Config, rd: Reader): (res: (Reader, Option<Reply>))
    decreases if rd.Dead? then 0 else |rd.buf|
  {
    if rd.Dead? then (rd, None)
    else
      match Step(cfg, rd.st, rd.buf)
      case Blocked => (rd, None)
      case Moved(next, rest) => GetReply(cfg, Waiting(next, rest))
      case Emitted(r, rest) => (Waiting(START, rest), Some(r))
      case Failed(e) => (Dead(e), None)
  }

  /** All replies that the unread bytes hold, and the reader after them. */
  ghost function Drain(cfg: Config, rd: Reader): (res: (seq<Reply>, Reader))
    decreases if rd.Dead? then 0 else |rd.buf|
  {
    if rd.Dead? then ([], rd)
    else
      match Step(cfg, rd.st, rd.buf)
      case Blocked => ([], rd)
      case Moved(next, rest) => Drain(cfg, Waiting(next, rest))
      case Emitted(r, rest) =>
        var (rs, last) := Drain(cfg, Waiting(START, rest));
        ([r] + rs, last)
      case Failed(e) => ([], Dead(e))
  }

  datatype Call = FeedCall(chunk: seq<byte>) | GetCall

  /** The replies handed out by a sequence of calls, and the reader after them. */
  ghost function Run(cfg: Config, rd: Reader, calls: seq<Call>): (seq<Reply>, Reader)
    decreases |calls|
  {
    if calls == [] then ([], rd)
    else
      match calls[0]
      case FeedCall(c) => Run(cfg, Feed(rd, c), calls[1..])
      case GetCall =>
        var (rd', out) := GetReply(cfg, rd);
        var (rs, last) := Run(cfg, rd', calls[1..]);
        (if out.Some? then [out.value] + rs else rs, last)
  }

  /** The bytes fed by a sequence of calls. */
  function Fed(calls: seq<Call>): seq<byte>
    decreases |calls|
  {
    if calls == [] then []
    else if calls[0].FeedCall? then calls[0].chunk + Fed(calls[1..])
    else Fed(calls[1..])
  }

  ghost function Prepend(out: Option<Reply>, d: (seq<Reply>, Reader)): (seq<Reply>, Reader) {
    if out.Some? then ([out.value] + d.0, d.1) else d
  }

  /** Asking for a reply early takes it off what the rest of the stream would yield, and nothing else. */
  lemma {:induction false} GetReplyIsDrainStep(cfg: Config, rd: Reader, more: seq<byte>)
    ensures var (rd', out) := GetReply(cfg, rd);
            Drain(cfg, Feed(rd, more)) == Prepend(out, Drain(cfg, Feed(rd', more)))
    decreases if rd.Dead? then 0 else |rd.buf|
  {
    if rd.Waiting? && !Step(cfg, rd.st, rd.buf).Blocked? {
      StepExtended(cfg, rd.st, rd.buf, more);
      match Step(cfg, rd.st, rd.buf)
      case Moved(next, rest) => GetReplyIsDrainStep(cfg, Waiting(next, rest), more);
      case Emitted(r, rest) =>
      case Failed(e) =>
    }
  }

  ghost function Append(rs: seq<Reply>, d: (seq<Reply>, Reader)): (seq<Reply>, Reader) {
    (rs + d.0, d.1)
  }

  lemma AppendNothing(d: (seq<Reply>, Reader))
    ensures Append([], d) == d
  {
    assert [] + d.0 == d.0;
  }

  lemma FeedTwice(rd: Reader, c: seq<byte>, d: seq<byte>)
    ensures Feed(Feed(rd, c), d) == Feed(rd, c + d)
    ensures Feed(rd, []) == rd
  {
    if rd.Waiting? {
      assert rd.buf + c + d == rd.buf + (c + d);
      assert rd.buf + [] == rd.buf;
    }
  }

  lemma {:induction false} RunIsDrain(cfg: Config, rd: Reader, calls: seq<Call>)
    ensures Drain(cfg, Feed(rd, Fed(calls))) == Append(Run(cfg, rd, calls).0, Drain(cfg, Run(cfg, rd, calls).1))
    decreases |calls|
  {
    hide Drain, GetReply, Step;
    if calls == [] {
      FeedTwice(rd, [], []);
      assert [] + Drain(cfg, rd).0 == Drain(cfg, rd).0;
    } else if calls[0].FeedCall? {
      var c := calls[0].chunk;
      RunIsDrain(cfg, Feed(rd, c), calls[1..]);
      FeedTwice(rd, c, Fed(calls[1..]));
    } else {
      var (rd', out) := GetReply(cfg, rd);
      GetReplyIsDrainStep(cfg, rd, Fed(calls[1..]));
      RunIsDrain(cfg, rd', calls[1..]);
      if out.Some? {
        var (rs, last) := Run(cfg, rd', calls[1..]);
        assert [out.value] + (rs + Drain(cfg, last).0) == [out.value] + rs + Drain(cfg, last).0;
      }
    }
  }

  /** Parsing is independent of chunking: two sequences of calls that feed the same bytes and end by
      taking every reply hand out the same replies and end in the same error or the same wait. */
  lemma ChunkingIndependent(cfg: Config, calls: seq<Call>, calls': seq<Call>)
    requires Fed(calls) == Fed(calls')
    ensures var (rs, last) := Run(cfg, NEW, calls);
            var (rs', last') := Run(cfg, NEW, calls');
            Append(rs, Drain(cfg, last)) == Append(rs', Drain(cfg, last')) == Drain(cfg, Waiting(START, Fed(calls)))
  {
    RunIsDrain(cfg, NEW, calls);
    RunIsDrain(cfg, NEW, calls');
    assert [] + Fed(calls) == Fed(calls);
  }

  /** A reader that has no reply to give has none left at all. */
  lemma {:induction false} NoReplyMeansDrained(cfg: Config, rd: Reader)
    requires GetReply(cfg, rd).1.None?
    ensures Drain(cfg, rd) == ([], GetReply(cfg, rd).0)
    decreases if rd.Dead? then 0 else |rd.buf|
  {
    if rd.Waiting? && Step(cfg, rd.st, rd.buf).Moved? {
      var o := Step(cfg, rd.st, rd.buf);
      NoReplyMeansDrained(cfg, Waiting(o.next, o.rest));
    }
  }

  /** Each reply uses up input. */
  lemma {:induction false} ReplyUsesInput(cfg: Config, rd: Reader)
    requires GetReply(cfg, rd).1.Some?
    ensures rd.Waiting? && GetReply(cfg, rd).0.Waiting? && |GetReply(cfg, rd).0.buf| < |rd.buf|
    decreases if rd.Dead? then 0 else |rd.buf|
  {
    var o := Step(cfg, rd.st, rd.buf);
    if o.Moved? {
      ReplyUsesInput(cfg, Waiting(o.next, o.rest));
    }
  }

  lemma NothingToDrain(cfg: Config)
    ensures Drain(cfg, NEW) == ([], NEW)
  {
  }

  function Flatten(chunks: seq<seq<byte>>): seq<byte> {
    if chunks == [] then [] else chunks[0] + Flatten(chunks[1..])
  }
}
