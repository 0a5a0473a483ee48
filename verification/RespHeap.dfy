/** The reader's task stack and the reply objects it fills in place.  Objects live in a heap that
    only grows; an aggregate object holds one slot per element, empty (-1) until the element's own
    object is linked into it.  The stack of tasks is related to the frames of module `Resp`. */
module RespHeap {
  import opened Options
  import opened Bytes
  import opened Resp

  datatype Obj = Leaf(reply: Reply) | Node(kind: Kind, element: seq<int>)

  const NULL := -1

  /** `kind` is absent until the type byte is read; `idx` is the slot in the parent's object. */
  datatype Task = Task(kind: Option<Kind>, elements: int, idx: int, obj: int, parent: int)

  // ----- finished objects -----

  /** Object `id` and everything below it is filled in, and lies before `hi`. */
  ghost predicate Whole(heap: seq<Obj>, id: int, hi: int)
    decreases hi - id
  {
    && 0 <= id < hi <= |heap|
    && (heap[id].Node? ==> forall e <- heap[id].element :: id < e && Whole(heap, e, hi))
  }

  /** The reply that a finished object stands for. */
  function Denote(heap: seq<Obj>, id: int, ghost hi: int): Reply
    requires Whole(heap, id, hi)
    decreases hi - id, 1, 0
  {
    match heap[id]
    case Leaf(r) => r
    case Node(k, es) => Aggregate(k, DenoteAll(heap, es, id, hi))
  }

  function DenoteAll(heap: seq<Obj>, es: seq<int>, ghost id: int, ghost hi: int): (rs: seq<Reply>)
    requires forall e <- es :: id < e && Whole(heap, e, hi)
    ensures |rs| == |es|
    decreases hi - id, 0, |es|
  {
    if es == [] then []
    else
      assert forall e <- es[..|es| - 1] :: e in es;
      assert es[|es| - 1] in es;
      DenoteAll(heap, es[..|es| - 1], id, hi) + [Denote(heap, es[|es| - 1], hi)]
  }

  /** The heaps agree on the range where an object lives. */
  ghost predicate Agree(heap: seq<Obj>, heap': seq<Obj>, lo: int, hi: int) {
    && hi <= |heap| && hi <= |heap'|
    && forall k :: 0 <= lo <= k < hi ==> heap'[k] == heap[k]
  }

  lemma {:induction false} WholeFrame(heap: seq<Obj>, heap': seq<Obj>, id: int, hi: int)
    requires Whole(heap, id, hi) && Agree(heap, heap', id, hi)
    ensures Whole(heap', id, hi) && Denote(heap', id, hi) == Denote(heap, id, hi)
    decreases hi - id, 1, 0
  {
    if heap[id].Node? {
      AllFrame(heap, heap', heap[id].element, id, hi);
    }
  }

  lemma {:induction false} AllFrame(heap: seq<Obj>, heap': seq<Obj>, es: seq<int>, id: int, hi: int)
    requires id >= 0 && forall e <- es :: id < e && Whole(heap, e, hi)
    requires Agree(heap, heap', id + 1, hi)
    ensures forall e <- es :: id < e && Whole(heap', e, hi)
    ensures DenoteAll(heap', es, id, hi) == DenoteAll(heap, es, id, hi)
    decreases hi - id, 0, |es|
  {
    if es != [] {
      var n := |es| - 1;
      assert forall e <- es[..n] :: e in es;
      assert es[n] in es;
      AllFrame(heap, heap', es[..n], id, hi);
      WholeFrame(heap, heap', es[n], hi);
      assert forall e <- es :: e in es[..n] || e == es[n];
    }
  }

  /** A finished object stays finished, and the same, in a larger range. */
  lemma {:induction false} WholeLater(heap: seq<Obj>, id: int, hi: int, hi': int)
    requires Whole(heap, id, hi) && hi <= hi' <= |heap|
    ensures Whole(heap, id, hi') && Denote(heap, id, hi') == Denote(heap, id, hi)
    decreases hi - id, 1, 0
  {
    if heap[id].Node? {
      AllLater(heap, heap[id].element, id, hi, hi');
    }
  }

  lemma {:induction false} AllLater(heap: seq<Obj>, es: seq<int>, id: int, hi: int, hi': int)
    requires forall e <- es :: id < e && Whole(heap, e, hi)
    requires hi <= hi' <= |heap|
    ensures forall e <- es :: id < e && Whole(heap, e, hi')
    ensures DenoteAll(heap, es, id, hi') == DenoteAll(heap, es, id, hi)
    decreases hi - id, 0, |es|
  {
    if es != [] {
      var n := |es| - 1;
      assert forall e <- es[..n] :: e in es;
      assert es[n] in es;
      AllLater(heap, es[..n], id, hi, hi');
      WholeLater(heap, es[n], hi, hi');
      assert forall e <- es :: e in es[..n] || e == es[n];
    }
  }

  /** Finished objects stay as they are. */
  ghost predicate Kept(heap: seq<Obj>, heap': seq<Obj>) {
    forall id :: Whole(heap, id, |heap|) ==>
      Whole(heap', id, |heap'|) && Denote(heap', id, |heap'|) == Denote(heap, id, |heap|)
  }

  /** Filling a slot of an unfinished aggregate does not touch finished objects. */
  lemma {:induction false} WholeKept(heap: seq<Obj>, heap': seq<Obj>, p: int, id: int, hi: int)
    requires Whole(heap, id, hi) && hi <= |heap'|
    requires 0 <= p < |heap| ==> heap[p].Node? && NULL in heap[p].element
    requires forall k :: 0 <= k < hi && k != p ==> heap'[k] == heap[k]
    ensures Whole(heap', id, hi) && Denote(heap', id, hi) == Denote(heap, id, hi)
    decreases hi - id, 1, 0
  {
    assert id != p;
    if heap[id].Node? {
      AllKept(heap, heap', p, heap[id].element, id, hi);
    }
  }

  lemma {:induction false} AllKept(heap: seq<Obj>, heap': seq<Obj>, p: int, es: seq<int>, id: int, hi: int)
    requires id >= 0 && hi <= |heap| && hi <= |heap'| && forall e <- es :: id < e && Whole(heap, e, hi)
    requires 0 <= p < |heap| ==> heap[p].Node? && NULL in heap[p].element
    requires forall k :: 0 <= k < hi && k != p ==> heap'[k] == heap[k]
    ensures forall e <- es :: id < e && Whole(heap', e, hi)
    ensures DenoteAll(heap', es, id, hi) == DenoteAll(heap, es, id, hi)
    decreases hi - id, 0, |es|
  {
    if es != [] {
      var n := |es| - 1;
      assert forall e <- es[..n] :: e in es;
      assert es[n] in es;
      AllKept(heap, heap', p, es[..n], id, hi);
      WholeKept(heap, heap', p, es[n], hi);
      assert forall e <- es :: e in es[..n] || e == es[n];
    }
  }

  lemma KeptReflexive(heap: seq<Obj>)
    ensures Kept(heap, heap)
  {
  }

  lemma KeptTransitive(heap: seq<Obj>, heap': seq<Obj>, heap'': seq<Obj>)
    requires Kept(heap, heap') && Kept(heap', heap'')
    ensures Kept(heap, heap'')
  {
    hide Whole, Denote;
  }

  // ----- the stack -----

  ghost function Bound(heap: seq<Obj>, last: int): int {
    if last == NULL then |heap| else last
  }

  /** Task `t` is an open aggregate: the slots before `idx` are filled, slot `idx` holds `child`,
      and the slots after it are empty. */
  ghost predicate Level(heap: seq<Obj>, t: Task, idx: int, child: int) {
    var hi := Bound(heap, child);
    && t.kind.Some? && IsAggregate(t.kind.value)
    && 0 <= t.obj < hi <= |heap|
    && heap[t.obj].Node? && heap[t.obj].kind == t.kind.value
    && |heap[t.obj].element| == t.elements && 0 <= idx < t.elements
    && (forall e <- heap[t.obj].element[..idx] :: t.obj < e && Whole(heap, e, hi))
    && heap[t.obj].element[idx] == child
    && (forall j :: idx < j < t.elements ==> heap[t.obj].element[j] == NULL)
  }

  /** Tasks 0 to `i`: each parent is the previous entry and an open aggregate, and each index lies
      within its parent.  `last` is the object of task `i`, if it has one already. */
  ghost predicate Stack(heap: seq<Obj>, task: seq<Task>, i: nat, last: int)
    decreases i
  {
    && i < |task|
    && (last == NULL || 0 <= last < |heap|)
    && if i == 0 then task[0].idx == -1 && task[0].parent == NULL
       else
         && task[i].parent == i - 1
         && Level(heap, task[i - 1], task[i].idx, last)
         && Stack(heap, task, i - 1, task[i - 1].obj)
  }

  ghost function FrameOf(heap: seq<Obj>, t: Task, idx: int, child: int): Frame
    requires Level(heap, t, idx, child)
  {
    Frame(t.kind.value, t.elements, DenoteAll(heap, heap[t.obj].element[..idx], t.obj, Bound(heap, child)))
  }

  /** The frames that a stack stands for. */
  ghost function Frames(heap: seq<Obj>, task: seq<Task>, i: nat, last: int): (fs: seq<Frame>)
    requires Stack(heap, task, i, last)
    ensures |fs| == i
    decreases i
  {
    if i == 0 then []
    else Frames(heap, task, i - 1, task[i - 1].obj) + [FrameOf(heap, task[i - 1], task[i].idx, last)]
  }

  /** Only the tasks below `i`, and the index and parent of task `i`, matter. */
  lemma {:induction false} StackTasks(heap: seq<Obj>, task: seq<Task>, task': seq<Task>, i: nat, last: int)
    requires Stack(heap, task, i, last) && |task'| > i
    requires forall k :: 0 <= k < i ==> task'[k] == task[k]
    requires task'[i].idx == task[i].idx && task'[i].parent == task[i].parent
    ensures Stack(heap, task', i, last) && Frames(heap, task', i, last) == Frames(heap, task, i, last)
    decreases i
  {
    if i > 0 {
      StackTasks(heap, task, task', i - 1, task[i - 1].obj);
    }
  }

  lemma LevelFrame(heap: seq<Obj>, heap': seq<Obj>, t: Task, idx: int, child: int)
    requires Level(heap, t, idx, child) && child != NULL && Agree(heap, heap', 0, child)
    ensures Level(heap', t, idx, child) && FrameOf(heap', t, idx, child) == FrameOf(heap, t, idx, child)
  {
    AllFrame(heap, heap', heap[t.obj].element[..idx], t.obj, child);
  }

  /** Only the objects before `last` matter. */
  lemma {:induction false} StackFrame(heap: seq<Obj>, heap': seq<Obj>, task: seq<Task>, i: nat, last: int)
    requires Stack(heap, task, i, last) && last != NULL && last < |heap'| && Agree(heap, heap', 0, last)
    ensures Stack(heap', task, i, last) && Frames(heap', task, i, last) == Frames(heap, task, i, last)
    decreases i
  {
    if i > 0 {
      LevelFrame(heap, heap', task[i - 1], task[i].idx, last);
      StackFrame(heap, heap', task, i - 1, task[i - 1].obj);
    }
  }

  /** Allocates `obj` for task `i` and links it into its parent's slot. */
  ghost function Linked(heap: seq<Obj>, task: seq<Task>, i: nat, obj: Obj): seq<Obj>
    requires Stack(heap, task, i, NULL)
  {
    if i == 0 then heap + [obj]
    else
      var p := task[i - 1].obj;
      (heap + [obj])[p := Node(heap[p].kind, heap[p].element[task[i].idx := |heap|])]
  }

  /** Creating the object of task `i` fills an empty slot and keeps the stack. */
  lemma CreateKeepsStack(heap: seq<Obj>, task: seq<Task>, i: nat, obj: Obj)
    requires Stack(heap, task, i, NULL)
    ensures var heap' := Linked(heap, task, i, obj);
            && Stack(heap', task, i, |heap|)
            && Frames(heap', task, i, |heap|) == Frames(heap, task, i, NULL)
            && |heap'| == |heap| + 1 && heap'[|heap|] == obj
  {
    if i > 0 {
      var heap' := Linked(heap, task, i, obj);
      var p, idx := task[i - 1].obj, task[i].idx;
      assert heap'[p].element[..idx] == heap[p].element[..idx];
      AllFrame(heap, heap', heap[p].element[..idx], p, |heap|);
      StackFrame(heap, heap', task, i - 1, p);
    }
  }

  /** Creating an object keeps the finished ones. */
  lemma CreateKeeps(heap: seq<Obj>, task: seq<Task>, i: nat, obj: Obj)
    requires Stack(heap, task, i, NULL)
    ensures Kept(heap, Linked(heap, task, i, obj))
  {
    var heap' := Linked(heap, task, i, obj);
    var p := if i == 0 then NULL else task[i - 1].obj;
    if i > 0 {
      assert heap[p].element[task[i].idx] == NULL;
    }
    forall id | Whole(heap, id, |heap|)
      ensures Whole(heap', id, |heap'|) && Denote(heap', id, |heap'|) == Denote(heap, id, |heap|)
    {
      WholeKept(heap, heap', p, id, |heap|);
      WholeLater(heap', id, |heap|, |heap'|);
    }
  }

  /** When the last slot of the parent is filled, the parent's object is finished too. */
  lemma PopFinishes(heap: seq<Obj>, task: seq<Task>, i: nat, id: int)
    requires i > 0 && Stack(heap, task, i, id) && id != NULL && Whole(heap, id, |heap|)
    requires task[i].idx == task[i - 1].elements - 1
    ensures var p := task[i - 1].obj;
            var f := FrameOf(heap, task[i - 1], task[i].idx, id);
            && Whole(heap, p, |heap|)
            && Denote(heap, p, |heap|) == Aggregate(f.kind, f.filled + [Denote(heap, id, |heap|)])
  {
    var p, idx := task[i - 1].obj, task[i].idx;
    var es := heap[p].element;
    assert es[..|es| - 1] == es[..idx];
    AllLater(heap, es[..idx], p, id, |heap|);
    assert forall e <- es :: e in es[..idx] || e == id;
  }

  /** Otherwise the next slot of the parent is the one to fill. */
  lemma AdvanceKeepsStack(heap: seq<Obj>, task: seq<Task>, i: nat, id: int, task': seq<Task>)
    requires i > 0 && Stack(heap, task, i, id) && id != NULL && Whole(heap, id, |heap|)
    requires task[i].idx < task[i - 1].elements - 1
    requires |task'| > i && (forall k :: 0 <= k < i ==> task'[k] == task[k])
    requires task'[i].idx == task[i].idx + 1 && task'[i].parent == task[i].parent
    ensures var f := FrameOf(heap, task[i - 1], task[i].idx, id);
            && Stack(heap, task', i, NULL)
            && Frames(heap, task', i, NULL)
            == Frames(heap, task, i - 1, task[i - 1].obj) + [f.(filled := f.filled + [Denote(heap, id, |heap|)])]
  {
    var p, idx := task[i - 1].obj, task[i].idx;
    var es := heap[p].element;
    assert es[..idx + 1][..idx] == es[..idx];
    AllLater(heap, es[..idx], p, id, |heap|);
    forall e <- heap[p].element[..idx + 1] ensures p < e && Whole(heap, e, |heap|) {
      assert e in es[..idx] || e == id;
    }
    assert forall j :: idx < j < |es| ==> heap[p].element[j] == NULL;
    assert heap[p].element[idx + 1] == NULL;
    assert forall j :: idx + 1 < j < task[i - 1].elements ==> heap[p].element[j] == NULL;
    assert Bound(heap, NULL) == |heap|;
    assert Level(heap, task[i - 1], idx + 1, NULL);
    StackTasks(heap, task, task', i - 1, p);
  }

  /** A new aggregate with empty slots becomes the innermost one. */
  lemma OpenKeepsStack(heap: seq<Obj>, task: seq<Task>, i: nat, id: int, task': seq<Task>)
    requires Stack(heap, task, i, id) && id != NULL && |task'| > i + 1
    requires task[i].kind.Some? && IsAggregate(task[i].kind.value)
    requires heap[id].Node? && heap[id].kind == task[i].kind.value && |heap[id].element| > 0
    requires forall e <- heap[id].element :: e == NULL
    requires forall k :: 0 <= k < i ==> task'[k] == task[k]
    requires task'[i] == task[i].(elements := |heap[id].element|, obj := id)
    requires task'[i + 1].idx == 0 && task'[i + 1].parent == i
    ensures Stack(heap, task', i + 1, NULL)
    ensures Frames(heap, task', i + 1, NULL)
         == Frames(heap, task, i, id) + [Frame(task[i].kind.value, |heap[id].element|, [])]
  {
    StackTasks(heap, task, task', i, id);
    assert heap[id].element[..0] == [];
    forall j | 0 <= j < |heap[id].element| ensures heap[id].element[j] == NULL {
      assert heap[id].element[j] in heap[id].element;
    }
  }

  /** Popping a finished aggregate is one level of delivery. */
  lemma DeliverPop(heap: seq<Obj>, task: seq<Task>, i: nat, id: int, rest: seq<byte>)
    requires i > 0 && Stack(heap, task, i, id) && id != NULL && Whole(heap, id, |heap|)
    requires task[i].idx == task[i - 1].elements - 1
    ensures var p := task[i - 1].obj;
            && p != NULL && Stack(heap, task, i - 1, p) && Whole(heap, p, |heap|)
            && Deliver(Frames(heap, task, i, id), Denote(heap, id, |heap|), rest)
            == Deliver(Frames(heap, task, i - 1, p), Denote(heap, p, |heap|), rest)
  {
    PopFinishes(heap, task, i, id);
    var fs := Frames(heap, task, i, id);
    assert fs[..i - 1] == Frames(heap, task, i - 1, task[i - 1].obj);
  }

  lemma DeliverRoot(heap: seq<Obj>, task: seq<Task>, id: int, rest: seq<byte>)
    requires Stack(heap, task, 0, id) && Whole(heap, id, |heap|)
    ensures Deliver(Frames(heap, task, 0, id), Denote(heap, id, |heap|), rest)
         == Emitted(Denote(heap, id, |heap|), rest)
  {
  }

  /** Turning to the next slot is where delivery ends. */
  lemma DeliverAdvance(heap: seq<Obj>, task: seq<Task>, i: nat, id: int, task': seq<Task>, rest: seq<byte>)
    requires i > 0 && Stack(heap, task, i, id) && id != NULL && Whole(heap, id, |heap|)
    requires task[i].idx < task[i - 1].elements - 1
    requires task[i].idx + 1 < MAX_SLOTS
    requires |task'| > i && (forall k :: 0 <= k < i ==> task'[k] == task[k])
    requires task'[i].idx == task[i].idx + 1 && task'[i].parent == task[i].parent && task'[i].kind == None
    ensures Stack(heap, task', i, NULL)
    ensures Deliver(Frames(heap, task, i, id), Denote(heap, id, |heap|), rest)
         == Moved(State(Frames(heap, task', i, NULL), None), rest)
  {
    AdvanceKeepsStack(heap, task, i, id, task');
    var fs := Frames(heap, task, i, id);
    assert fs[..i - 1] == Frames(heap, task, i - 1, task[i - 1].obj);
  }

  /** Where the index would overflow, delivery stops. */
  lemma DeliverOverflow(heap: seq<Obj>, task: seq<Task>, i: nat, id: int, rest: seq<byte>)
    requires i > 0 && Stack(heap, task, i, id) && id != NULL && Whole(heap, id, |heap|)
    requires task[i].idx < task[i - 1].elements - 1 && task[i].idx + 1 >= MAX_SLOTS
    ensures Deliver(Frames(heap, task, i, id), Denote(heap, id, |heap|), rest) == Failed(IndexOverflow)
  {
  }

  lemma StackTop(heap: seq<Obj>, task: seq<Task>, i: nat, last: int)
    requires i > 0 && Stack(heap, task, i, last)
    ensures task[i].parent == i - 1
    ensures 0 <= task[i].idx < task[i - 1].elements
    ensures 0 <= task[i - 1].obj < |heap| && heap[task[i - 1].obj].Node?
    ensures |heap[task[i - 1].obj].element| == task[i - 1].elements
    ensures heap[task[i - 1].obj].element[task[i].idx] == last
  {
  }
}
