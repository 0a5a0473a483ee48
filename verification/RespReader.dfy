/** The reply reader: a buffer with a cursor, a stack of tasks, and reply objects filled in place.
    Each operation is proved to do what the machine of module `Resp` does. */
module RespReader {
  import opened Options
  import opened Bytes
  import opened RespScan
  import opened Resp
  import opened RespHeap

  const STACK_SIZE: nat := 9
  const COMPACT_AT: nat := 1024

  const BLANK := Task(None, -1, 0, NULL, NULL)

  /** Checks the payload of a line, character by character where the type asks for it. */
  method ParseLineItem(cfg: Config, k: Kind, line: seq<byte>) returns (p: Parsed)
    ensures p == ParseLine(cfg, k, line)
  {
    hide ParseLL;
    match k
    case Integer =>
      var v := String2ll(line);
      p := if v.Some? then Good(Int(v.value)) else Bad(BadInteger);
    case Double =>
      if |line| >= DOUBLE_BUFFER {
        p := Bad(DoubleTooLarge);
      } else if IsSpecialDouble(line) || cfg.finite(line) {
        p := Good(Real(line));
      } else {
        p := Bad(BadDouble);
      }
    case Nil =>
      p := if |line| != 0 then Bad(BadNil) else Good(NilReply);
    case Bool =>
      if |line| != 1 || !IsBoolByte(line[0]) {
        p := Bad(BadBool);
      } else {
        p := Good(Flag(line[0] == 116 || line[0] == 84));
      }
    case Bignum =>
      var ok := AllDigits(line);
      p := if ok then Good(Text(Bignum, line)) else Bad(BadBignum);
    case _ =>
      var ok := NoNewline(line);
      p := if ok then Good(Text(k, line)) else Bad(BadSimpleString);
  }

  /** Looks at every character of a big number. */
  method AllDigits(line: seq<byte>) returns (ok: bool)
    ensures ok <==> forall j :: 0 <= j < |line| ==> (j == 0 && line[0] == MINUS) || IsDigit(line[j])
  {
    for i := 0 to |line|
      invariant forall j :: 0 <= j < i ==> (j == 0 && line[0] == MINUS) || IsDigit(line[j])
    {
      if i == 0 && line[0] == MINUS {
        continue;
      }
      if !IsDigit(line[i]) {
        return false;
      }
    }
    return true;
  }

  /** Looks at every character of a simple string. */
  method NoNewline(line: seq<byte>) returns (ok: bool)
    ensures ok <==> CR !in line && LF !in line
  {
    for i := 0 to |line|
      invariant CR !in line[..i] && LF !in line[..i]
    {
      if line[i] == CR || line[i] == LF {
        return false;
      }
    }
    assert line[..|line|] == line;
    return true;
  }

  class RedisReader {
    const cfg: Config
    var buf: seq<byte>
    var pos: nat
    var err: Option<Fault>
    var task: seq<Task>
    var ridx: int
    var heap: seq<Obj>
    var reply: int

    ghost predicate Valid()
      reads this
    {
      && pos <= |buf| && |task| >= STACK_SIZE && -1 <= ridx < |task|
      && (err.Some? ==> ridx == -1 && buf == [])
      && (ridx >= 0 ==> Stack(heap, task, ridx, NULL))
      && reply == if ridx > 0 then task[0].obj else NULL
    }

    /** The reader of module `Resp` that this one stands for. */
    ghost function Value(): Reader
      requires Valid()
      reads this
    {
      if err.Some? then Dead(err.value) else Waiting(Current(), buf[pos..])
    }

    ghost function Current(): State
      requires Valid()
      reads this
    {
      if ridx < 0 then START else State(Frames(heap, task, ridx, NULL), task[ridx].kind)
    }

    ghost predicate Running()
      reads this
    {
      Valid() && err.None? && ridx >= 0
    }

    /** The fields show that the step had outcome `o`. */
    ghost predicate Shows(o: Outcome, ok: bool)
      reads this
    {
      match o
      case Blocked => !ok && Running()
      case Moved(next, rest) => ok && Running() && Value() == Waiting(next, rest)
      case Emitted(r, rest) =>
        && ok && err.None? && ridx == -1 && |task| >= STACK_SIZE
        && pos <= |buf| && buf[pos..] == rest
        && Whole(heap, reply, |heap|) && Denote(heap, reply, |heap|) == r
      case Failed(e) => !ok && Valid() && err == Some(e)
    }

    constructor (cfg: Config)
      ensures this.cfg == cfg && Valid() && Value() == NEW
    {
      this.cfg := cfg;
      buf, pos, err, ridx, heap, reply := [], 0, None, -1, [], NULL;
      task := seq(STACK_SIZE, _ => BLANK);
    }

    method SetError(e: Fault)
      requires |task| >= STACK_SIZE
      modifies this
      ensures Valid() && err == Some(e) && heap == old(heap)
    {
      reply := NULL;
      buf, pos := [], 0;
      ridx := -1;
      err := Some(e);
    }

    /** Allocates an object for the current task and links it into the parent's slot. */
    method Create(obj: Obj) returns (id: int)
      requires 0 <= ridx && Stack(heap, task, ridx, NULL)
      modifies this`heap
      ensures id == |old(heap)| && heap == Linked(old(heap), task, ridx, obj)
    {
      id := |heap|;
      heap := heap + [obj];
      var cur := task[ridx];
      if cur.parent != NULL {
        var p := task[cur.parent].obj;
        heap := heap[p := Node(heap[p].kind, heap[p].element[cur.idx := id])];
      }
    }

    /** Pops finished aggregates and turns to the next slot to fill, or empties the stack.  The answer is no
        where the index of that slot does not fit. */
    method MoveToNextTask(ghost id: int, ghost rest: seq<byte>) returns (fits: bool, ghost root: int)
      requires 0 <= ridx < |task| && id != NULL && Stack(heap, task, ridx, id) && Whole(heap, id, |heap|)
      modifies this`task, this`ridx
      ensures |task| == old(|task|)
      ensures root == if old(ridx) == 0 then id else old(task[0].obj)
      ensures match Deliver(old(Frames(heap, task, ridx, id)), Denote(heap, id, |heap|), rest)
              case Moved(next, _) =>
                && fits && 0 < ridx <= old(ridx) && task[0] == old(task[0])
                && Stack(heap, task, ridx, NULL) && State(Frames(heap, task, ridx, NULL), task[ridx].kind) == next
              case Emitted(r, _) => fits && ridx == -1 && Whole(heap, root, |heap|) && Denote(heap, root, |heap|) == r
              case Failed(e) => !fits && e == IndexOverflow
    {
      hide Deliver, Frames, Whole, Denote, Stack;
      ghost var cur := id;
      ghost var target := Deliver(Frames(heap, task, ridx, id), Denote(heap, id, |heap|), rest);
      while true
        invariant 0 <= ridx <= old(ridx) < |task| && task == old(task)
        invariant cur != NULL && Stack(heap, task, ridx, cur) && Whole(heap, cur, |heap|)
        invariant cur == if ridx == old(ridx) then id else task[ridx].obj
        invariant target == Deliver(Frames(heap, task, ridx, cur), Denote(heap, cur, |heap|), rest)
        decreases ridx
      {
        if ridx == 0 {
          DeliverRoot(heap, task, cur, rest);
          ridx := -1;
          return true, cur;
        }
        StackTop(heap, task, ridx, cur);
        if task[ridx].idx == task[ridx - 1].elements - 1 {
          DeliverPop(heap, task, ridx, cur, rest);
          cur := task[ridx - 1].obj;
          ridx := ridx - 1;
        } else {
          root := if old(ridx) == 0 then id else old(task[0].obj);
          if task[ridx].idx + 1 >= MAX_SLOTS {
            DeliverOverflow(heap, task, ridx, cur, rest);
            return false, root;
          }
          ghost var before := task;
          task := task[ridx := task[ridx].(kind := None, elements := -1, idx := task[ridx].idx + 1)];
          DeliverAdvance(heap, before, ridx, cur, task, rest);
          return true, root;
        }
      }
    }

    /** Creates the object of the current task, which is then finished, and moves on. */
    method Finish(obj: Obj, ghost r: Reply) returns (ok: bool)
      requires Running()
      requires obj == Leaf(r) || (obj.Node? && obj.element == [] && r == Aggregate(obj.kind, []))
      modifies this
      ensures Shows(Deliver(old(Current()).frames, r, old(buf[pos..])), ok)
      ensures !ok ==> err.Some?
      ensures Kept(old(heap), heap)
    {
      hide Deliver, Frames, Stack, Kept;
      CreateKeepsStack(heap, task, ridx, obj);
      CreateKeeps(heap, task, ridx, obj);
      var id := Create(obj);
      if ridx == 0 {
        reply := id;
      }
      ghost var root;
      ok, root := MoveToNextTask(id, buf[pos..]);
      if !ok {
        SetError(IndexOverflow);
      }
    }

    /** Replies that fit on one line. */
    method ProcessLineItem(k: Kind) returns (ok: bool)
      requires Running() && task[ridx].kind == Some(k) && !IsAggregate(k) && !k.String? && !k.Verb?
      modifies this
      ensures Shows(LineStep(cfg, old(Current()).frames, k, old(buf[pos..])), ok)
      ensures !ok && err.None? ==> Value() == old(Value()) && ridx == old(ridx)
      ensures Kept(old(heap), heap)
    {
      hide Deliver, Frames, Stack, Whole, Denote, ParseLine, FindCrlf, Kept;
      KeptReflexive(heap);
      ghost var frames, rest := Current().frames, buf[pos..];
      var e := SeekNewline(buf[pos..]);
      if e < 0 {
        return false;
      }
      CutLine(buf, pos, e);
      var line := buf[pos..pos + e];
      pos := pos + e + 2;
      var p := ParseLineItem(cfg, k, line);
      assert LineStep(cfg, frames, k, rest) == Resp.Finish(frames, p, buf[pos..]);
      hide LineStep;
      if p.Bad? {
        SetError(p.fault);
        return false;
      }
      ok := Finish(Leaf(p.reply), p.reply);
    }

    /** The body of a bulk string, once its length is known; `e` is where the length line ends. */
    method ProcessBulkBody(k: Kind, e: nat, len: int) returns (ok: bool)
      requires Running() && task[ridx].kind == Some(k) && pos + e + 2 <= |buf|
      modifies this
      ensures Shows(BulkBody(old(Current()).frames, k, old(buf[pos..]), e + 2, len), ok)
      ensures !ok && err.None? ==> Value() == old(Value()) && ridx == old(ridx)
      ensures Kept(old(heap), heap)
    {
      hide Deliver, Frames, Stack, Whole, Denote, Kept;
      KeptReflexive(heap);
      ghost var frames := Current().frames;
      var head := pos + e + 2;
      BulkBodyAt(frames, k, buf, pos, e, len);
      hide BulkBody, ParseBody;
      if len < -1 {
        SetError(BulkOutOfRange);
        return false;
      }
      if len == -1 {
        pos := head;
        ok := Finish(Leaf(NilReply), NilReply);
        return;
      }
      if len > MAX_BULK {
        SetError(LengthOverflow);
        return false;
      }
      var end := head + len;
      if end + 2 > |buf| {
        return false;
      }
      var p := ParseBody(k, buf[head..end]);
      if p.Bad? {
        SetError(p.fault);
        return false;
      }
      pos := end + 2;
      ok := Finish(Leaf(p.reply), p.reply);
    }

    /** Strings announced by their length. */
    method ProcessBulkItem(k: Kind) returns (ok: bool)
      requires Running() && task[ridx].kind == Some(k) && (k.String? || k.Verb?)
      modifies this
      ensures Shows(BulkStep(old(Current()).frames, k, old(buf[pos..])), ok)
      ensures !ok && err.None? ==> Value() == old(Value()) && ridx == old(ridx)
      ensures Kept(old(heap), heap)
    {
      hide Deliver, Frames, Stack, Whole, Denote, FindCrlf, BulkBody, Kept;
      KeptReflexive(heap);
      ghost var rest := buf[pos..];
      var e := SeekNewline(buf[pos..]);
      if e < 0 {
        return false;
      }
      CutLine(buf, pos, e);
      var len := String2ll(buf[pos..pos + e]);
      if len.None? {
        SetError(BadBulkLength);
        return false;
      }
      ok := ProcessBulkBody(k, e, len.value);
    }

    /** More room for tasks; the stack itself does not change. */
    method Grow()
      requires Running()
      modifies this`task
      ensures Running() && Value() == old(Value()) && |task| == old(|task|) + STACK_SIZE
      ensures task[ridx] == old(task[ridx]) && task[0] == old(task[0])
    {
      ghost var before := task;
      task := task + seq(STACK_SIZE, _ => BLANK);
      StackTasks(heap, before, task, ridx, NULL);
    }

    /** Opens an aggregate of `count` empty slots as the new innermost one. */
    method OpenAggregate(k: Kind, count: nat)
      requires Running() && task[ridx].kind == Some(k) && IsAggregate(k) && count > 0 && ridx + 1 < |task|
      modifies this`heap, this`task, this`ridx, this`reply
      ensures Running() && ridx == old(ridx) + 1
      ensures Value() == Waiting(State(old(Current()).frames + [Frame(k, count, [])], None), buf[pos..])
      ensures Kept(old(heap), heap)
    {
      hide Frames, Stack, Kept;
      KeptReflexive(heap);
      var obj := Node(k, seq(count, _ => NULL));
      CreateKeepsStack(heap, task, ridx, obj);
      CreateKeeps(heap, task, ridx, obj);
      var id := Create(obj);
      ghost var before := task;
      if ridx == 0 {
        reply := id;
      }
      task := task[ridx := task[ridx].(elements := count, obj := id)];
      task := task[ridx + 1 := Task(None, -1, 0, NULL, ridx)];
      OpenKeepsStack(heap, before, ridx, id, task);
      ridx := ridx + 1;
    }

    /** The effect of an aggregate header that announces `n` elements. */
    method ProcessCount(k: Kind, n: int) returns (ok: bool)
      requires Running() && task[ridx].kind == Some(k) && IsAggregate(k) && ridx + 1 < |task|
      modifies this
      ensures Shows(Open(old(Current()).frames, k, n, old(buf[pos..])), ok)
      ensures Kept(old(heap), heap)
      ensures !ok ==> err.Some?
    {
      hide Deliver, Frames, Stack, Whole, Denote, Kept;
      KeptReflexive(heap);
      if n < -1 || n > MAX_ELEMENTS {
        SetError(CountOutOfRange);
        return false;
      }
      if n == -1 {
        ok := Finish(Leaf(NilReply), NilReply);
        return;
      }
      var count := if IsPaired(k) then 2 * n else n;
      if count > 0 {
        OpenAggregate(k, count);
        return true;
      }
      ok := Finish(Node(k, []), Aggregate(k, []));
    }

    /** Makes room for one more task, if there is none. */
    method MakeRoom()
      requires Running()
      modifies this`task
      ensures Running() && Value() == old(Value()) && ridx + 1 < |task| && task[ridx] == old(task[ridx])
    {
      if ridx == |task| - 1 {
        Grow();
      }
    }

    /** The header line of an aggregate. */
    method ProcessHeader(k: Kind) returns (ok: bool)
      requires Running() && task[ridx].kind == Some(k) && IsAggregate(k) && ridx + 1 < |task|
      modifies this
      ensures Shows(LineStep(cfg, old(Current()).frames, k, old(buf[pos..])), ok)
      ensures !ok && err.None? ==> Value() == old(Value()) && ridx == old(ridx)
      ensures Kept(old(heap), heap)
    {
      hide Deliver, Frames, Stack, Whole, Denote, FindCrlf, Open, Kept, ParseLL, Decimal;
      KeptReflexive(heap);
      ghost var frames, rest := Current().frames, buf[pos..];
      var e := SeekNewline(buf[pos..]);
      if e < 0 {
        return false;
      }
      CutLine(buf, pos, e);
      var n := String2ll(buf[pos..pos + e]);
      pos := pos + e + 2;
      assert LineStep(cfg, frames, k, rest)
          == if n.None? then Failed(BadCount) else Open(frames, k, n.value, buf[pos..]);
      hide LineStep;
      if n.None? {
        SetError(BadCount);
        return false;
      }
      ok := ProcessCount(k, n.value);
    }

    /** Arrays, maps, sets, attributes and pushes. */
    method ProcessAggregateItem(k: Kind) returns (ok: bool)
      requires Running() && task[ridx].kind == Some(k) && IsAggregate(k)
      modifies this
      ensures Shows(LineStep(cfg, old(Current()).frames, k, old(buf[pos..])), ok)
      ensures !ok && err.None? ==> Value() == old(Value()) && ridx == old(ridx)
      ensures Kept(old(heap), heap)
    {
      hide Frames, Stack, LineStep, Kept, Whole, Denote;
      MakeRoom();
      ok := ProcessHeader(k);
    }

    /** The type byte of an item. */
    method ReadType() returns (ok: bool)
      requires Running() && task[ridx].kind.None?
      modifies this
      ensures Shows(Step(cfg, old(Current()), old(buf[pos..])), ok) && heap == old(heap)
      ensures ok ==> ridx == old(ridx) && task[ridx].kind.Some? && |buf| - pos < old(|buf| - pos)
      ensures !ok && err.None? ==> Value() == old(Value())
    {
      hide Frames, Stack;
      if pos >= |buf| {
        return false;
      }
      var b := buf[pos];
      var k := KindOf(b);
      if k.None? {
        SetError(BadType(b));
        return false;
      }
      ghost var before := task;
      task := task[ridx := task[ridx].(kind := k)];
      StackTasks(heap, before, task, ridx, NULL);
      assert buf[pos..][1..] == buf[pos + 1..];
      pos := pos + 1;
      return true;
    }

    /** The payload of an item whose type is known. */
    method ProcessPayload() returns (ok: bool)
      requires Running() && task[ridx].kind.Some?
      modifies this
      ensures Shows(Step(cfg, old(Current()), old(buf[pos..])), ok)
      ensures !ok && err.None? ==> Value() == old(Value())
      ensures Kept(old(heap), heap)
    {
      hide Frames, Stack, LineStep, BulkStep, Whole, Denote, Kept;
      var k := task[ridx].kind.value;
      if k.String? || k.Verb? {
        ok := ProcessBulkItem(k);
      } else if IsAggregate(k) {
        ok := ProcessAggregateItem(k);
      } else {
        ok := ProcessLineItem(k);
      }
    }

    /** One item: its type byte, unless it was read before, and then its payload. */
    method ProcessItem() returns (ok: bool)
      requires Running()
      modifies this
      ensures ok && ridx >= 0 ==> Running() && GetReply(cfg, Value()) == old(GetReply(cfg, Value()))
      ensures ok && ridx >= 0 ==> |buf| - pos < old(|buf| - pos)
      ensures ok && ridx < 0 ==>
                && err.None? && ridx == -1 && |task| >= STACK_SIZE && pos <= |buf| && Whole(heap, reply, |heap|)
                && old(GetReply(cfg, Value())) == (Waiting(START, buf[pos..]), Some(Denote(heap, reply, |heap|)))
      ensures !ok && err.None? ==> Running() && old(GetReply(cfg, Value())) == (Value(), None)
      ensures !ok && err.Some? ==> Valid() && old(GetReply(cfg, Value())) == (Value(), None)
      ensures Kept(old(heap), heap)
    {
      hide Frames, Stack, Step, Whole, Denote, Kept;
      KeptReflexive(heap);
      if task[ridx].kind.None? {
        ok := ReadType();
        if !ok {
          return;
        }
      }
      ok := ProcessPayload();
    }

    /** Appends a chunk, unless the reader is dead. */
    method FeedChunk(chunk: seq<byte>)
      requires Valid()
      modifies this`buf, this`pos
      ensures Valid() && Value() == Feed(old(Value()), chunk)
    {
      if err.Some? {
        return;
      }
      assert (buf + chunk)[pos..] == buf[pos..] + chunk;
      buf := buf + chunk;
    }

    /** The next complete reply, if there is one; objects once handed out stay as they are. */
    method GetNextReply() returns (out: int)
      requires Valid()
      modifies this
      ensures Valid()
      ensures out != NULL ==> Whole(heap, out, |heap|)
      ensures old(GetReply(cfg, Value()))
           == (Value(), if out == NULL then None else Some(Denote(heap, out, |heap|)))
      ensures Kept(old(heap), heap)
    {
      hide Deliver, Frames, Denote, Step, Kept;
      KeptReflexive(heap);
      out := NULL;
      if err.Some? {
        return;
      }
      if |buf| == 0 {
        EmptyGivesNothing(cfg, Value());
        return;
      }
      ghost var start := Value();
      if ridx == -1 {
        task := task[0 := Task(None, -1, -1, NULL, NULL)];
        ridx := 0;
      }
      assert Value() == start;
      var ok := true;
      while ok && ridx >= 0
        invariant ok && ridx >= 0 ==> Running() && GetReply(cfg, Value()) == GetReply(cfg, start)
        invariant ok && ridx < 0 ==>
                    && err.None? && ridx == -1 && |task| >= STACK_SIZE && pos <= |buf| && Whole(heap, reply, |heap|)
                    && GetReply(cfg, start) == (Waiting(START, buf[pos..]), Some(Denote(heap, reply, |heap|)))
        invariant !ok && err.None? ==> Running() && GetReply(cfg, start) == (Value(), None)
        invariant !ok && err.Some? ==> Valid() && GetReply(cfg, start) == (Value(), None)
        invariant Kept(old(heap), heap)
        decreases if ok && ridx >= 0 then |buf| - pos + 1 else 0
      {
        ghost var before := heap;
        ok := ProcessItem();
        KeptTransitive(old(heap), before, heap);
      }
      if err.Some? {
        return;
      }
      if pos >= COMPACT_AT {
        assert buf[pos..][0..] == buf[pos..];
        buf := buf[pos..];
        pos := 0;
      }
      if ridx == -1 {
        out := reply;
        reply := NULL;
      }
    }
  }

  lemma CutLine(buf: seq<byte>, pos: nat, e: nat)
    requires pos + e + 2 <= |buf|
    ensures buf[pos..][..e] == buf[pos..pos + e] && buf[pos..][e + 2..] == buf[pos + e + 2..]
  {
  }

  lemma BodySlices(buf: seq<byte>, pos: nat, head: nat, len: nat)
    requires pos + head + len + 2 <= |buf|
    ensures buf[pos..][head..head + len] == buf[pos + head..pos + head + len]
    ensures buf[pos..][head + len + 2..] == buf[pos + head + len + 2..]
  {
  }

  lemma BulkBodyAt(frames: seq<Frame>, k: Kind, buf: seq<byte>, pos: nat, e: nat, len: int)
    requires pos + e + 2 <= |buf|
    ensures BulkBody(frames, k, buf[pos..], e + 2, len)
         == var head := pos + e + 2;
            if len < -1 then Failed(BulkOutOfRange)
            else if len == -1 then Deliver(frames, NilReply, buf[head..])
            else if len > MAX_BULK then Failed(LengthOverflow)
            else if head + len + 2 > |buf| then Blocked
            else Resp.Finish(frames, ParseBody(k, buf[head..head + len]), buf[head + len + 2..])
  {
    hide Deliver, Resp.Finish;
    CutLine(buf, pos, e);
    if len >= 0 && pos + e + 2 + len + 2 <= |buf| {
      BodySlices(buf, pos, e + 2, len);
    }
  }

  lemma EmptyGivesNothing(cfg: Config, rd: Reader)
    requires rd.Waiting? && rd.buf == []
    ensures GetReply(cfg, rd) == (rd, None)
  {
  }

  /** All replies in the reader, as values. */
  method TakeAll(rd: RedisReader, ghost more: seq<byte>) returns (replies: seq<Reply>)
    requires rd.Valid()
    modifies rd
    ensures rd.Valid()
    ensures Drain(rd.cfg, rd.Value()) == ([], rd.Value())
    ensures Drain(rd.cfg, Feed(old(rd.Value()), more)) == Append(replies, Drain(rd.cfg, Feed(rd.Value(), more)))
  {
    hide Drain, GetReply, Denote;
    ghost var start := rd.Value();
    replies := [];
    AppendNothing(Drain(rd.cfg, Feed(start, more)));
    while true
      invariant rd.Valid()
      invariant Drain(rd.cfg, Feed(start, more)) == Append(replies, Drain(rd.cfg, Feed(rd.Value(), more)))
      decreases if rd.Value().Dead? then 0 else |rd.Value().buf|
    {
      ghost var v := rd.Value();
      GetReplyIsDrainStep(rd.cfg, v, more);
      var out := rd.GetNextReply();
      if out == NULL {
        NoReplyMeansDrained(rd.cfg, v);
        StuckStays(rd.cfg, v);
        return;
      }
      ReplyUsesInput(rd.cfg, v);
      var r := Denote(rd.heap, out, |rd.heap|);
      ghost var tail := Drain(rd.cfg, Feed(rd.Value(), more));
      assert replies + ([r] + tail.0) == replies + [r] + tail.0;
      replies := replies + [r];
    }
  }

  lemma {:induction false} StuckStays(cfg: Config, rd: Reader)
    requires GetReply(cfg, rd).1.None?
    ensures var last := GetReply(cfg, rd).0;
            Drain(cfg, last) == ([], last)
    decreases if rd.Dead? then 0 else |rd.buf|
  {
    if rd.Waiting? && Step(cfg, rd.st, rd.buf).Moved? {
      var o := Step(cfg, rd.st, rd.buf);
      StuckStays(cfg, Waiting(o.next, o.rest));
    }
  }

  /** Reads a stream that arrives in chunks: the replies and the final error are those of the
      whole stream, however it was cut. */
  method ReadStream(cfg: Config, chunks: seq<seq<byte>>) returns (replies: seq<Reply>, err: Option<Fault>)
    ensures var whole := Drain(cfg, Waiting(START, Flatten(chunks)));
            && replies == whole.0
            && err == if whole.1.Dead? then Some(whole.1.fault) else None
  {
    hide Drain, GetReply;
    var rd := new RedisReader(cfg);
    replies := [];
    assert chunks[0..] == chunks;
    AppendNothing(Drain(cfg, Feed(NEW, Flatten(chunks))));
    assert Feed(NEW, Flatten(chunks)) == Waiting(START, Flatten(chunks)) by {
      assert [] + Flatten(chunks) == Flatten(chunks);
    }
    NothingToDrain(cfg);
    for i := 0 to |chunks|
      invariant rd.Valid() && rd.cfg == cfg && fresh(rd)
      invariant Drain(cfg, rd.Value()) == ([], rd.Value())
      invariant Drain(cfg, Feed(NEW, Flatten(chunks)))
             == Append(replies, Drain(cfg, Feed(rd.Value(), Flatten(chunks[i..]))))
    {
      ghost var more := Flatten(chunks[i + 1..]);
      assert chunks[i..][1..] == chunks[i + 1..];
      FeedTwice(rd.Value(), chunks[i], more);
      rd.FeedChunk(chunks[i]);
      var rs := TakeAll(rd, more);
      ghost var tail := Drain(cfg, Feed(rd.Value(), more));
      assert replies + (rs + tail.0) == replies + rs + tail.0;
      replies := replies + rs;
    }
    assert chunks[|chunks|..] == [];
    FeedTwice(rd.Value(), [], []);
    assert replies + [] == replies;
    err := rd.err;
  }
}
