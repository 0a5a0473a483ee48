/** Debt clearing as the program does it: nodes on the heap, each with its cash and a sheet that
    records what it owes (positive) or is owed (negative) by other nodes.  Every operation is
    tied to its counterpart on plain values in module `DebtBook`. */
module DebtClearing {
  import opened Sets
  import opened Sums
  import opened DebtBook

  class DebtNode {
    const id: int
    var capital: real
    var sheet: map<DebtNode, real>

    constructor (id: int, capital: real)
      ensures this.id == id && this.capital == capital && sheet == map[]
    {
      this.id, this.capital, this.sheet := id, capital, map[];
    }

    /** The entry about `node`; no entry means no debt. */
    ghost function Owed(node: DebtNode): real
      reads this
    {
      if node in sheet then sheet[node] else 0.0
    }

    /** The creditors this node can repay: it owes them and they have it down as a debtor. */
    ghost function Payable(): set<DebtNode>
      reads this, sheet.Keys
    {
      set n | n in sheet && sheet[n] > 0.0 && this in n.sheet && n.sheet[this] <= 0.0
    }

    method Tally(node: DebtNode?, amount: real)
      modifies this`sheet
      ensures node == null ==> sheet == old(sheet)
      ensures node != null ==> sheet == old(sheet)[node := old(Owed(node)) + amount]
    {
      if node == null {
        return;
      }
      if node in sheet {
        sheet := sheet[node := sheet[node] + amount];
      } else {
        sheet := sheet[node := amount];
      }
    }

    method Receipt(node: DebtNode?) returns (ok: bool)
      modifies this
      ensures ok <==> node != null && node in old(sheet) && old(sheet)[node] <= 0.0
      ensures ok ==> capital == old(capital) - old(sheet)[node] && sheet == old(sheet) - {node}
      ensures !ok ==> unchanged(this)
    {
      if node == null || node !in sheet || sheet[node] > 0.0 {
        return false;
      }
      capital := capital - sheet[node];
      sheet := sheet - {node};
      return true;
    }

    /** One turn of the loop of `RepayAll`. */
    method RepayEntry(n: DebtNode) returns (ok: bool)
      requires n in sheet
      modifies this, n
      ensures ok <==> old(sheet)[n] > 0.0 && this in old(n.sheet) && old(n.sheet)[this] <= 0.0
      ensures ok ==> n != this
      ensures ok ==> capital == old(capital) - old(sheet)[n] && sheet == old(sheet) - {n}
      ensures ok ==> n.capital == old(n.capital) - old(n.sheet)[this] && n.sheet == old(n.sheet) - {this}
      ensures !ok ==> capital == old(capital) && sheet == old(sheet)
      ensures !ok ==> n.capital == old(n.capital) && n.sheet == old(n.sheet)
    {
      ok := false;
      if sheet[n] > 0.0 {
        ok := n.Receipt(this);
        if ok {
          capital := capital - sheet[n];
          sheet := sheet - {n};
        }
      }
    }

    method RepayAll()
      modifies this, sheet.Keys
      ensures sheet == old(sheet) - old(Payable())
      ensures capital == old(capital) - SheetSum(Restrict(old(sheet), old(Payable())))
      ensures forall n <- old(Payable()) ::
                n.capital == old(n.capital) - old(n.sheet)[this] && n.sheet == old(n.sheet) - {this}
      ensures forall n <- old(sheet.Keys) - old(Payable()) - {this} ::
                n.capital == old(n.capital) && n.sheet == old(n.sheet)
    {
      hide SheetSum;
      ghost var all, payable := sheet, Payable();
      ghost var paid: set<DebtNode> := {};
      var todo := sheet.Keys;
      NothingRestricted(all);
      while todo != {}
        invariant todo <= all.Keys
        invariant paid == payable - todo
        invariant sheet == all - paid
        invariant capital == old(capital) - SheetSum(Restrict(all, paid))
        invariant forall n <- paid ::
                    n.capital == old(n.capital) - old(n.sheet)[this] && n.sheet == old(n.sheet) - {this}
        invariant forall n <- all.Keys - paid - {this} :: n.capital == old(n.capital) && n.sheet == old(n.sheet)
      {
        var n :| n in todo;
        todo := todo - {n};
        var ok := RepayEntry(n);
        if ok {
          SheetSumAdd(all, paid, n);
          paid := paid + {n};
        }
      }
      assert paid == payable;
    }

    method Erase(node: DebtNode)
      modifies this`sheet
      ensures sheet == old(sheet) - {node}
    {
      if node in sheet {
        sheet := sheet - {node};
      }
    }

    /** One turn of the loop of `EraseNet`. */
    method EraseEntry(n: DebtNode)
      modifies this`sheet, n`sheet
      ensures n != this ==> sheet == old(sheet) - {n} && n.sheet == old(n.sheet) - {this}
      ensures n == this ==> sheet == old(sheet) - {this}
    {
      sheet := sheet - {n};
      n.Erase(this);
    }

    /** Drops the relations with every node whose id is in `net`, on both sides. */
    method EraseNet(net: map<int, DebtNode>)
      modifies this, sheet.Keys
      ensures capital == old(capital)
      ensures sheet == map n | n in old(sheet) && n.id !in net :: old(sheet)[n]
      ensures forall n <- old(sheet.Keys) - {this} ::
                && n.capital == old(n.capital)
                && n.sheet == if n.id in net then old(n.sheet) - {this} else old(n.sheet)
    {
      var todo := sheet.Keys;
      while todo != {}
        invariant todo <= old(sheet.Keys)
        invariant capital == old(capital)
        invariant sheet == map n | n in old(sheet) && (n in todo || n.id !in net) :: old(sheet)[n]
        invariant forall n <- old(sheet.Keys) - {this} ::
                    && n.capital == old(n.capital)
                    && n.sheet == if n.id in net && n !in todo then old(n.sheet) - {this} else old(n.sheet)
      {
        var n :| n in todo;
        todo := todo - {n};
        if n.id in net {
          EraseEntry(n);
        }
      }
    }

    /** Pays every creditor its part of `cap`, and drops all relations. */
    method PayProRata(cap: real, debt: real)
      requires this !in sheet
      modifies this, sheet.Keys
      ensures capital == 0.0 && sheet == map[]
      ensures forall n <- old(sheet.Keys) ::
                && n.capital == old(n.capital) + (if debt > 0.0 then Part(cap, old(sheet)[n], debt) else 0.0)
                && n.sheet == old(n.sheet) - {this}
    {
      var todo := sheet.Keys;
      while todo != {}
        invariant todo <= sheet.Keys
        invariant sheet == old(sheet)
        invariant forall n <- sheet.Keys - todo ::
                    && n.capital == old(n.capital) + (if debt > 0.0 then Part(cap, sheet[n], debt) else 0.0)
                    && n.sheet == old(n.sheet) - {this}
        invariant forall n <- todo :: n.capital == old(n.capital) && n.sheet == old(n.sheet)
      {
        var n :| n in todo;
        todo := todo - {n};
        if debt > 0.0 {
          n.capital := n.capital + cap * sheet[n] / debt;
        }
        n.Erase(this);
      }
      capital := 0.0;
      sheet := map[];
    }

    /** The net debt: the sum of all entries. */
    method GetDebt() returns (profit: real)
      ensures profit == SheetSum(sheet)
    {
      profit := 0.0;
      var todo := sheet.Keys;
      NothingRestricted(sheet);
      while todo != {}
        invariant todo <= sheet.Keys
        invariant profit == SheetSum(Restrict(sheet, sheet.Keys - todo))
      {
        var n :| n in todo;
        SheetSumAdd(sheet, sheet.Keys - todo, n);
        OneMoreDone(sheet.Keys, todo, n);
        todo := todo - {n};
        profit := profit + sheet[n];
      }
      assert Restrict(sheet, sheet.Keys - todo) == sheet;
    }
  }

  // ----- sums over sheets -----

  ghost function Restrict(m: map<DebtNode, real>, s: set<DebtNode>): map<DebtNode, real> {
    map n | n in m && n in s :: m[n]
  }

  ghost function SheetSum(m: map<DebtNode, real>): real {
    MapSum(m)
  }

  lemma SheetSumTake(m: map<DebtNode, real>, n: DebtNode)
    requires n in m
    ensures SheetSum(m) == m[n] + SheetSum(m - {n})
  {
    MapSumTake(m, n);
  }

  lemma NothingRestricted(m: map<DebtNode, real>)
    ensures SheetSum(Restrict(m, {})) == 0.0
  {
    assert Restrict(m, {}) == map[];
  }

  lemma SheetSumAdd(m: map<DebtNode, real>, s: set<DebtNode>, n: DebtNode)
    requires n in m && n !in s
    ensures SheetSum(Restrict(m, s + {n})) == SheetSum(Restrict(m, s)) + m[n]
  {
    SheetSumTake(Restrict(m, s + {n}), n);
    assert Restrict(m, s + {n}) - {n} == Restrict(m, s);
  }

  /** A sum over a sheet is a sum over the ids of the nodes in it. */
  lemma {:induction false} SheetSumById(m: map<DebtNode, real>, f: int -> real, ids: set<int>)
    requires forall n <- m :: n.id in ids && f(n.id) == m[n]
    requires forall n <- m, k <- m :: n.id == k.id ==> n == k
    requires forall i <- ids :: f(i) == 0.0 || exists n :: n in m && n.id == i
    ensures SheetSum(m) == Sum(ids, f)
    decreases |m|
  {
    if m == map[] {
      SumZero(ids, f);
    } else {
      var n :| n in m;
      SheetSumTake(m, n);
      SumTake(ids, f, n.id);
      assert |m - {n}| < |m|;
      forall i <- ids - {n.id}
        ensures f(i) == 0.0 || exists k :: k in m - {n} && k.id == i
      {
        if f(i) != 0.0 {
          var k :| k in m && k.id == i;
          assert k in m - {n};
        }
      }
      SheetSumById(m - {n}, f, ids - {n.id});
    }
  }

  // ----- nets -----

  /** The net is closed, its keys are the ids of its nodes, and both sides of each debt are there. */
  ghost predicate Linked(net: map<int, DebtNode>)
    reads net.Values
  {
    LinkedSheets(net, Sheets(net))
  }

  /** The sheets of a net, as a value. */
  ghost function Sheets(net: map<int, DebtNode>): map<int, map<DebtNode, real>>
    reads net.Values
  {
    map i | i in net :: net[i].sheet
  }

  ghost predicate LinkedSheets(net: map<int, DebtNode>, sheets: map<int, map<DebtNode, real>>) {
    && sheets.Keys == net.Keys
    && (forall i <- net :: net[i].id == i)
    && (forall i <- net, n <- sheets[i] {:trigger n in sheets[i]} ::
          n.id in net && net[n.id] == n && net[i] in sheets[n.id])
  }

  lemma SheetIds(net: map<int, DebtNode>, sheets: map<int, map<DebtNode, real>>, i: int)
    requires LinkedSheets(net, sheets) && i in net
    ensures net[i].id == i
    ensures forall n <- sheets[i] :: n.id in net && net[n.id] == n
  {
  }

  ghost function Entry(sheet: map<DebtNode, real>, n: DebtNode): real {
    if n in sheet then sheet[n] else 0.0
  }

  /** `b` says about each pair of nodes what the sheets say. */
  ghost predicate ModelsSheets(net: map<int, DebtNode>, sheets: map<int, map<DebtNode, real>>, b: Book) {
    && b.cap.Keys == net.Keys == sheets.Keys
    && (forall i <- net, j <- net :: b.Owe(i, j) == Entry(sheets[i], net[j]))
  }

  /** `b` is the book of the net: the cash of each node, and what the sheets say about each pair. */
  ghost predicate Models(net: map<int, DebtNode>, b: Book)
    reads net.Values
  {
    && b.Valid() && b.cap.Keys == net.Keys
    && ModelsSheets(net, Sheets(net), b)
    && (forall i <- net :: b.cap[i] == net[i].capital)
  }

  /** The sheet of node `i` without the entries about the nodes `j` for which `gone(i, j)`. */
  ghost function Without(sheet: map<DebtNode, real>, i: int, gone: (int, int) -> bool): map<DebtNode, real> {
    map n | n in sheet && !gone(i, n.id) :: sheet[n]
  }

  /** Dropping entries on both sides keeps the links, and in the book they become zero. */
  lemma DropEntries(net: map<int, DebtNode>, sheets: map<int, map<DebtNode, real>>, b: Book,
                    sheets': map<int, map<DebtNode, real>>, b': Book, gone: (int, int) -> bool)
    requires LinkedSheets(net, sheets) && ModelsSheets(net, sheets, b)
    requires sheets'.Keys == net.Keys && forall i <- net :: sheets'[i] == Without(sheets[i], i, gone)
    requires forall i, j :: gone(i, j) == gone(j, i)
    requires b'.cap.Keys == b.cap.Keys
    requires forall i, j :: b'.Owe(i, j) == if gone(i, j) then 0.0 else b.Owe(i, j)
    ensures LinkedSheets(net, sheets') && ModelsSheets(net, sheets', b')
  {
    forall i <- net, n <- sheets'[i]
      ensures n.id in net && net[n.id] == n && net[i] in sheets'[n.id]
    {
      assert n in sheets[i];
    }
    forall i <- net, j <- net ensures b'.Owe(i, j) == Entry(sheets'[i], net[j]) {
      assert net[j].id == j;
      assert b.Owe(i, j) == Entry(sheets[i], net[j]);
    }
  }

  /** Adding up the entries of a sheet adds up a row of the book. */
  lemma SheetIsRow(net: map<int, DebtNode>, i: int, m: map<DebtNode, real>, f: int -> real)
    requires Linked(net) && i in net && m.Keys <= net[i].sheet.Keys
    requires forall n <- m :: f(n.id) == m[n]
    requires forall j <- net :: net[j] !in m ==> f(j) == 0.0
    ensures SheetSum(m) == Sum(net.Keys, f)
  {
    hide SheetSum;
    forall n <- m ensures n.id in net && net[n.id] == n {
      assert n in net[i].sheet;
    }
    forall j <- net.Keys
      ensures f(j) == 0.0 || exists n :: n in m && n.id == j
    {
      if net[j] in m {
        assert net[j].id == j;
      }
    }
    SheetSumById(m, f, net.Keys);
  }

  lemma SheetIsNetDebt(net: map<int, DebtNode>, b: Book, i: int)
    requires Linked(net) && Models(net, b) && i in net
    ensures SheetSum(net[i].sheet) == b.NetDebt(i)
  {
    hide SheetSum;
    var m := net[i].sheet;
    forall n <- m ensures b.OweRow(i)(n.id) == m[n] {
      assert b.Owe(i, n.id) == net[i].Owed(net[n.id]);
    }
    forall j <- net | net[j] !in m ensures b.OweRow(i)(j) == 0.0 {
      assert b.Owe(i, j) == net[i].Owed(net[j]);
    }
    SheetIsRow(net, i, m, b.OweRow(i));
  }

  // ----- one node repays -----

  /** In a linked net a node can repay exactly those it owes, and they are all in the net. */
  lemma PayableInNet(net: map<int, DebtNode>, b: Book, p: int)
    requires Linked(net) && Models(net, b) && p in net
    ensures forall n <- net[p].sheet :: n in net.Values && n.id in net && net[n.id] == n
    ensures forall i <- net :: net[i] in net[p].Payable() <==> b.Owe(p, i) > 0.0
    ensures forall i <- net :: b.Owe(p, i) > 0.0 ==> net[p] in net[i].sheet && net[i].sheet[net[p]] == -b.Owe(p, i)
    ensures SheetSum(Restrict(net[p].sheet, net[p].Payable())) == Sum(b.cap.Keys, b.DebtRow(p))
  {
    hide SheetSum;
    var sheets := Sheets(net);
    forall n <- net[p].sheet ensures n in net.Values && n.id in net && net[n.id] == n {
      assert n in sheets[p];
    }
    forall i <- net
      ensures net[i] in net[p].Payable() <==> b.Owe(p, i) > 0.0
      ensures b.Owe(p, i) > 0.0 ==> net[p] in net[i].sheet && net[i].sheet[net[p]] == -b.Owe(p, i)
    {
      assert b.Owe(p, i) == Entry(sheets[p], net[i]);
      assert b.Owe(i, p) == Entry(sheets[i], net[p]);
      assert b.Owe(p, i) == -b.Owe(i, p);
    }
    var m := Restrict(net[p].sheet, net[p].Payable());
    forall n <- m ensures b.DebtRow(p)(n.id) == m[n] {
      assert b.Owe(p, n.id) == Entry(sheets[p], net[n.id]);
    }
    SheetIsRow(net, p, m, b.DebtRow(p));
  }

  ghost function RepaidBy(b: Book, p: int): (int, int) -> bool {
    (i, j) => b.Repaid({p}, i, j)
  }

  lemma WithoutRepaid(sheet: map<DebtNode, real>, b: Book, i: int, node: DebtNode, paid: set<DebtNode>)
    requires forall n <- sheet :: n.id == node.id ==> n == node
    requires i == node.id ==> forall n <- sheet :: n in paid <==> b.Owe(i, n.id) > 0.0
    ensures Without(sheet, i, RepaidBy(b, node.id))
         == if i == node.id then sheet - paid else if b.Owe(node.id, i) > 0.0 then sheet - {node} else sheet
  {
    var p := node.id;
    forall n <- sheet
      ensures RepaidBy(b, p)(i, n.id) <==> if i == p then n in paid else b.Owe(p, i) > 0.0 && n == node
    {
    }
  }

  /** `RepayAll` on one node of a linked net, node by node. */
  method RepayNode(net: map<int, DebtNode>, node: DebtNode, ghost b: Book)
    requires Linked(net) && Models(net, b) && node.id in net && net[node.id] == node
    modifies net.Values
    ensures forall i <- net :: net[i].sheet == Without(old(net[i].sheet), i, RepaidBy(b, node.id))
    ensures forall i <- net :: net[i].capital
                            == old(net[i].capital) + Positive(b.Owe(node.id, i))
                             - (if i == node.id then Sum(b.cap.Keys, b.DebtRow(i)) else 0.0)
  {
    hide SheetSum, Book.Valid, Book.Owe, Linked, Models, Without;
    PayableInNet(net, b, node.id);
    RepayPlan(net, node, b);
    node.RepayAll();
  }

  /** The sheet of `a` once `node` has repaid everything it owes. */
  ghost function Repaying(a: DebtNode, node: DebtNode, b: Book): map<DebtNode, real>
    reads a, node, node.sheet.Keys
  {
    if a.id == node.id then a.sheet - node.Payable()
    else if b.Owe(node.id, a.id) > 0.0 then a.sheet - {node}
    else a.sheet
  }

  lemma RepayPlan(net: map<int, DebtNode>, node: DebtNode, b: Book)
    requires Linked(net) && Models(net, b) && node.id in net && net[node.id] == node
    ensures forall i <- net :: net[i].id == i
    ensures forall i <- net :: Without(net[i].sheet, i, RepaidBy(b, node.id)) == Repaying(net[i], node, b)
  {
    hide SheetSum, Book.Valid, Book.Owe, ModelsSheets, RepaidBy, Without, LinkedSheets;
    PayableInNet(net, b, node.id);
    forall i <- net
      ensures Without(net[i].sheet, i, RepaidBy(b, node.id)) == Repaying(net[i], node, b)
      ensures net[i].id == i
    {
      SheetIds(net, Sheets(net), i);
      WithoutRepaid(net[i].sheet, b, i, node, node.Payable());
    }
  }

  method RepayIn(net: map<int, DebtNode>, node: DebtNode, ghost b: Book)
    requires Linked(net) && Models(net, b) && node.id in net && net[node.id] == node
    modifies net.Values
    ensures Linked(net) && Models(net, b.AfterRepay({node.id}))
    ensures forall i <- net :: net[i].sheet == Without(old(net[i].sheet), i, RepaidBy(b, node.id))
  {
    hide Book.AfterRepay, Book.Valid, LinkedSheets, Without;
    ghost var p, sheets := node.id, Sheets(net);
    RepayNode(net, node, b);
    forall i <- net
      ensures net[i].capital == b.AfterRepay({p}).cap[i]
    {
      RepayCash(b, {p}, i);
      SumSingle(b.CreditRow(i), p);
    }
    DropEntries(net, sheets, b, Sheets(net), b.AfterRepay({p}), RepaidBy(b, p));
  }

  // ----- winners and losers -----

  method Classify(net: map<int, DebtNode>, ghost b: Book) returns (pos: map<int, DebtNode>, neg: map<int, DebtNode>)
    requires Linked(net) && Models(net, b)
    ensures pos.Keys == b.Winners() && neg.Keys == b.Losers()
    ensures forall i <- pos :: i in net && pos[i] == net[i]
    ensures forall i <- neg :: i in net && neg[i] == net[i]
  {
    hide SheetSum, Book.NetDebt, Book.Valid;
    pos, neg := map[], map[];
    var todo := net.Keys;
    while todo != {}
      invariant todo <= net.Keys
      invariant pos.Keys == b.Winners() - todo
      invariant neg.Keys == b.Losers() - todo
      invariant forall i <- pos :: i in net && pos[i] == net[i]
      invariant forall i <- neg :: i in net && neg[i] == net[i]
    {
      NonEmpty(todo);
      var i :| i in todo;
      todo := todo - {i};
      var node := net[i];
      var debt := node.GetDebt();
      SheetIsNetDebt(net, b, i);
      if debt < 0.0 {
        pos := pos[node.id := node];
      } else {
        neg := neg[node.id := node];
      }
    }
  }

  // ----- the copy of the losers -----

  /** `copy` has the entries of `sheet` about nodes of `sub`, redirected to `sub`. */
  ghost predicate IsCopy(copy: map<DebtNode, real>, sheet: map<DebtNode, real>, sub: map<int, DebtNode>) {
    && (forall m <- copy :: exists n :: n in sheet && n.id in sub && m == sub[n.id])
    && (forall n <- sheet :: n.id in sub ==> sub[n.id] in copy && copy[sub[n.id]] == sheet[n])
  }

  ghost predicate DistinctIds(sheet: map<DebtNode, real>) {
    forall n <- sheet, k <- sheet :: n.id == k.id ==> n == k
  }

  /** Some entry of `sheet` is about a node in `ids`. */
  ghost predicate Inside(sheet: map<DebtNode, real>, ids: set<int>) {
    exists n :: n in sheet && n.id in ids
  }

  /** Copies the entries of `node` about nodes of `sub` to `tmp`. */
  method CopySheet(node: DebtNode, tmp: DebtNode, sub: map<int, DebtNode>, before: bool) returns (test: bool)
    requires tmp.sheet == map[] && tmp != node
    requires forall j <- sub :: sub[j].id == j
    requires DistinctIds(node.sheet)
    modifies tmp`sheet
    ensures IsCopy(tmp.sheet, node.sheet, sub)
    ensures test <==> before || Inside(node.sheet, sub.Keys)
  {
    test := before;
    var todo := node.sheet.Keys;
    while todo != {}
      invariant todo <= node.sheet.Keys
      invariant forall m <- tmp.sheet :: exists n :: n in node.sheet && n !in todo && n.id in sub && m == sub[n.id]
      invariant forall n <- node.sheet :: n !in todo && n.id in sub ==>
                  sub[n.id] in tmp.sheet && tmp.sheet[sub[n.id]] == node.sheet[n]
      invariant test <==> before || exists n :: n in node.sheet && n !in todo && n.id in sub
    {
      var n :| n in todo;
      if n.id in sub {
        test := true;
        assert sub[n.id] !in tmp.sheet;
        tmp.Tally(sub[n.id], node.sheet[n]);
      }
      todo := todo - {n};
    }
  }

  /** Fresh nodes with the ids and the cash of the nodes of `neg`, and no debts yet. */
  method CopyNodes(neg: map<int, DebtNode>) returns (sub: map<int, DebtNode>)
    requires forall i <- neg :: neg[i].id == i
    ensures sub.Keys == neg.Keys && fresh(sub.Values)
    ensures forall i <- sub :: sub[i].id == i && sub[i].capital == neg[i].capital && sub[i].sheet == map[]
  {
    sub := map[];
    var todo := neg.Keys;
    while todo != {}
      invariant todo <= neg.Keys && sub.Keys == neg.Keys - todo
      invariant fresh(sub.Values)
      invariant forall i <- sub :: sub[i].id == i && sub[i].capital == neg[i].capital && sub[i].sheet == map[]
    {
      NonEmpty(todo);
      var i :| i in todo;
      todo := todo - {i};
      var tmp := new DebtNode(neg[i].id, neg[i].capital);
      assert sub[i := tmp].Values <= sub.Values + {tmp};
      sub := sub[i := tmp];
    }
  }

  /** All sheets but those of `todo` are copied, and `test` tells whether any had something to copy. */
  ghost predicate Copied(copies: map<int, map<DebtNode, real>>, sheets: map<int, map<DebtNode, real>>,
                         sub: map<int, DebtNode>, todo: set<int>, test: bool)
  {
    && copies.Keys == sheets.Keys == sub.Keys && todo <= sub.Keys
    && (forall i <- todo :: copies[i] == map[])
    && (forall i <- sub :: i !in todo ==> IsCopy(copies[i], sheets[i], sub))
    && (test <==> exists i :: i in sheets && i !in todo && Inside(sheets[i], sub.Keys))
  }

  lemma CopiedOne(copies: map<int, map<DebtNode, real>>, sheets: map<int, map<DebtNode, real>>,
                  sub: map<int, DebtNode>, todo: set<int>, test: bool, i: int, copy: map<DebtNode, real>)
    requires Copied(copies, sheets, sub, todo, test) && i in todo && IsCopy(copy, sheets[i], sub)
    ensures Copied(copies[i := copy], sheets, sub, todo - {i}, test || Inside(sheets[i], sub.Keys))
  {
    hide IsCopy, Inside;
  }

  /** `CopySheet` on one node touches no other. */
  method CopyOne(neg: map<int, DebtNode>, sub: map<int, DebtNode>, i: int, before: bool) returns (test: bool)
    requires sub.Keys == neg.Keys && sub.Values !! neg.Values && i in neg
    requires forall j <- sub :: sub[j].id == j
    requires DistinctIds(neg[i].sheet) && sub[i].sheet == map[]
    modifies sub.Values
    ensures forall j <- sub :: sub[j].capital == old(sub[j].capital)
    ensures Sheets(sub) == old(Sheets(sub))[i := sub[i].sheet] && Sheets(neg) == old(Sheets(neg))
    ensures IsCopy(sub[i].sheet, neg[i].sheet, sub)
    ensures test <==> before || Inside(neg[i].sheet, neg.Keys)
  {
    hide IsCopy, Inside, DistinctIds;
    assert i in sub && neg[i] in neg.Values && sub[i] in sub.Values;
    ghost var copies, sheets := Sheets(sub), Sheets(neg);
    test := CopySheet(neg[i], sub[i], sub, before);
    SheetsAre(sub, copies[i := sub[i].sheet]);
    SheetsAre(neg, sheets);
  }

  lemma SheetsAre(net: map<int, DebtNode>, sheets: map<int, map<DebtNode, real>>)
    requires sheets.Keys == net.Keys && forall j <- net :: net[j].sheet == sheets[j]
    ensures Sheets(net) == sheets
  {
    SameMap(Sheets(net), sheets);
  }

  method CopySheets(neg: map<int, DebtNode>, sub: map<int, DebtNode>) returns (test: bool)
    requires sub.Keys == neg.Keys && sub.Values !! neg.Values
    requires forall i <- neg :: DistinctIds(neg[i].sheet)
    requires forall i <- sub :: sub[i].id == i && sub[i].sheet == map[]
    modifies sub.Values
    ensures forall i <- sub :: sub[i].capital == old(sub[i].capital)
    ensures Copied(Sheets(sub), old(Sheets(neg)), sub, {}, test) && Sheets(neg) == old(Sheets(neg))
  {
    hide IsCopy, Inside, DistinctIds;
    ghost var sheets := Sheets(neg);
    test := false;
    var todo := neg.Keys;
    while todo != {}
      invariant forall i <- sub :: sub[i].capital == old(sub[i].capital)
      invariant Sheets(neg) == sheets && Copied(Sheets(sub), sheets, sub, todo, test)
    {
      NonEmpty(todo);
      var i :| i in todo;
      ghost var copies, was := Sheets(sub), test;
      assert i in sub && i in neg && copies[i] == map[] && neg[i].sheet == sheets[i];
      hide Copied;
      test := CopyOne(neg, sub, i, test);
      CopiedOne(copies, sheets, sub, todo, was, i, sub[i].sheet);
      todo := todo - {i};
    }
  }

  /** In a linked net the ids tell the nodes of a sheet apart. */
  lemma LosersById(net: map<int, DebtNode>, neg: map<int, DebtNode>)
    requires Linked(net) && neg.Keys <= net.Keys
    requires forall i <- neg :: neg[i] == net[i]
    ensures forall i <- neg :: neg[i].id == i && DistinctIds(neg[i].sheet)
  {
    hide LinkedSheets;
    forall i <- neg ensures neg[i].id == i && DistinctIds(neg[i].sheet) {
      SheetIds(net, Sheets(net), i);
    }
  }

  method CopyLosers(net: map<int, DebtNode>, neg: map<int, DebtNode>, ghost b: Book)
    returns (sub: map<int, DebtNode>, test: bool)
    requires Linked(net) && Models(net, b) && neg.Keys <= net.Keys
    requires forall i <- neg :: neg[i] == net[i]
    ensures sub.Keys == neg.Keys && fresh(sub.Values)
    ensures Linked(sub) && Models(sub, b.Sub(neg.Keys))
    ensures test <==> exists i :: i in neg && Inside(neg[i].sheet, neg.Keys)
  {
    hide Book.Sub, Models, Linked, IsCopy, DistinctIds, Inside;
    LosersById(net, neg);
    sub := CopyNodes(neg);
    test := CopySheets(neg, sub);
    CopyIsSub(net, sub, b);
  }

  lemma CopyIsSub(net: map<int, DebtNode>, sub: map<int, DebtNode>, b: Book)
    requires Linked(net) && Models(net, b) && sub.Keys <= net.Keys
    requires forall i <- sub :: sub[i].id == i && sub[i].capital == net[i].capital
    requires forall i <- sub :: IsCopy(sub[i].sheet, net[i].sheet, sub)
    ensures Linked(sub) && Models(sub, b.Sub(sub.Keys))
  {
    var sheets, copies := Sheets(net), Sheets(sub);
    forall i: int, m: DebtNode | i in sub && m in copies[i]
      ensures m.id in sub && sub[m.id] == m && sub[i] in copies[m.id]
    {
      var n: DebtNode :| n in sheets[i] && n.id in sub && m == sub[n.id];
      assert net[i] in sheets[n.id];
    }
    forall i <- sub, j <- sub ensures b.Sub(sub.Keys).Owe(i, j) == Entry(copies[i], sub[j]) {
      assert b.Owe(i, j) == Entry(sheets[i], net[j]);
      assert net[j].id == j;
    }
  }

  // ----- the outcome of the sub-net is written back -----

  lemma WithoutErased(sheet: map<DebtNode, real>, i: int, node: DebtNode, n: set<int>)
    requires forall k <- sheet :: k.id == node.id ==> k == node
    requires node.id in n
    ensures Without(sheet, i, BackGone(n, {node.id}))
         == if i == node.id then map k | k in sheet && k.id !in n :: sheet[k]
            else if i in n then sheet - {node} else sheet
  {
  }

  /** `EraseNet` on one node of a linked net, node by node. */
  method EraseNode(net: map<int, DebtNode>, node: DebtNode, sub: map<int, DebtNode>)
    requires Linked(net) && node.id in net && net[node.id] == node && node.id in sub
    modifies net.Values
    ensures forall i <- net :: net[i].capital == old(net[i].capital)
    ensures forall i <- net :: net[i].sheet == Without(old(net[i].sheet), i, BackGone(sub.Keys, {node.id}))
  {
    hide Without, BackGone, Linked;
    ErasePlan(net, node, sub.Keys);
    node.EraseNet(sub);
  }

  ghost function Erasing(a: DebtNode, node: DebtNode, n: set<int>): map<DebtNode, real>
    reads a
  {
    if a.id == node.id then map k | k in a.sheet && k.id !in n :: a.sheet[k]
    else if a.id in n then a.sheet - {node}
    else a.sheet
  }

  lemma ErasePlan(net: map<int, DebtNode>, node: DebtNode, n: set<int>)
    requires Linked(net) && node.id in net && net[node.id] == node && node.id in n
    ensures forall k <- node.sheet :: k.id in net && k in net.Values
    ensures forall i <- net :: net[i].id == i
    ensures forall i <- net :: node in net[i].sheet ==> net[i] in node.sheet
    ensures forall i <- net :: Without(net[i].sheet, i, BackGone(n, {node.id})) == Erasing(net[i], node, n)
  {
    hide Without, BackGone;
    var sheets := Sheets(net);
    forall i <- net
      ensures net[i].id == i
      ensures node in net[i].sheet ==> net[i] in node.sheet
      ensures Without(net[i].sheet, i, BackGone(n, {node.id})) == Erasing(net[i], node, n)
    {
      SheetIds(net, sheets, i);
      WithoutErased(sheets[i], i, node, n);
      if node in sheets[i] {
        assert net[i] in sheets[node.id];
      }
    }
    forall k <- node.sheet ensures k.id in net && k in net.Values {
      assert k in sheets[node.id];
      assert net[k.id] == k;
    }
  }

  lemma WithoutInside(sheet: map<DebtNode, real>, i: int, n: set<int>, d: set<int>)
    ensures !Inside(sheet, n) ==> !Inside(Without(sheet, i, BackGone(n, d)), n)
    ensures i in n && i in d ==> !Inside(Without(sheet, i, BackGone(n, d)), n)
  {
  }

  lemma PartBackStep(net: map<int, DebtNode>, sheets: map<int, map<DebtNode, real>>, b: Book, n: set<int>,
                     c: map<int, real>, d: set<int>, i: int, sheets': map<int, map<DebtNode, real>>)
    requires b.Valid() && n <= b.cap.Keys && c.Keys == n && d <= n && i in n
    requires LinkedSheets(net, sheets) && ModelsSheets(net, sheets, PartBack(b, n, c, d))
    requires sheets'.Keys == net.Keys && forall j <- net :: sheets'[j] == Without(sheets[j], j, BackGone(n, {i}))
    ensures LinkedSheets(net, sheets') && ModelsSheets(net, sheets', PartBack(b, n, c, d + {i}))
  {
    hide PartBack;
    DropEntries(net, sheets, PartBack(b, n, c, d), sheets', PartBack(b, n, c, d + {i}), BackGone(n, {i}));
  }

  method WriteBackNode(net: map<int, DebtNode>, node: DebtNode, cash: real, sub: map<int, DebtNode>,
                       ghost b: Book, ghost c: map<int, real>, ghost d: set<int>)
    requires b.Valid() && b.cap.Keys == net.Keys && c.Keys == sub.Keys <= net.Keys && d <= sub.Keys
    requires Linked(net) && Models(net, PartBack(b, sub.Keys, c, d))
    requires node.id in sub && net[node.id] == node && cash == c[node.id]
    modifies net.Values
    ensures Linked(net) && Models(net, PartBack(b, sub.Keys, c, d + {node.id}))
    ensures forall j <- sub :: j == node.id || !old(Inside(net[j].sheet, sub.Keys)) ==> !Inside(net[j].sheet, sub.Keys)
  {
    hide PartBack, BackGone, Without, Inside, LinkedSheets, ModelsSheets, Book.Valid;
    ghost var sheets := Sheets(net);
    forall i <- net ensures net[i] == node ==> i == node.id {
      SheetIds(net, sheets, i);
    }
    assert node in net.Values;
    node.capital := cash;
    assert Sheets(net) == sheets;
    EraseNode(net, node, sub);
    PartBackStep(net, sheets, b, sub.Keys, c, d, node.id, Sheets(net));
    forall j <- sub ensures j == node.id || !Inside(sheets[j], sub.Keys) ==> !Inside(net[j].sheet, sub.Keys) {
      WithoutInside(sheets[j], j, sub.Keys, {node.id});
    }
  }

  /** Gives each loser its cash from the sub-net and drops the losers' debts to one another. */
  method WriteBackNet(net: map<int, DebtNode>, neg: map<int, DebtNode>, sub: map<int, DebtNode>, ghost b: Book)
    requires Linked(net) && Models(net, b) && sub.Keys == neg.Keys <= net.Keys
    requires forall i <- neg :: neg[i] == net[i]
    modifies net.Values
    ensures Linked(net) && Models(net, b.WriteBack(neg.Keys, old(CashOf(sub))))
    ensures forall i <- neg :: !Inside(net[i].sheet, neg.Keys)
  {
    hide PartBack, BackGone, Without, Inside, LinkedSheets, ModelsSheets, Book.Valid;
    var cash := map i | i in sub :: sub[i].capital;
    ghost var n := neg.Keys;
    PartBackAll(b, n, cash);
    forall i <- net ensures net[i].id == i {
      SheetIds(net, Sheets(net), i);
    }
    var todo := neg.Keys;
    assert n - todo == {};
    while todo != {}
      invariant todo <= n
      invariant Linked(net) && Models(net, PartBack(b, n, cash, n - todo))
      invariant forall i <- neg :: i !in todo ==> !Inside(net[i].sheet, n)
    {
      NonEmpty(todo);
      var i :| i in todo;
      assert i in sub;
      WriteBackNode(net, neg[i], cash[i], sub, b, cash, n - todo);
      OneMoreDone(n, todo, i);
      todo := todo - {i};
    }
    assert n - todo == n;
  }

  ghost function CashOf(net: map<int, DebtNode>): map<int, real>
    reads net.Values
  {
    map i | i in net :: net[i].capital
  }

  // ----- the losers pay -----

  ghost function Touches(p: int): (int, int) -> bool {
    (i, j) => i == p || j == p
  }

  lemma WithoutTouched(sheet: map<DebtNode, real>, i: int, node: DebtNode)
    requires forall k <- sheet :: k.id == node.id ==> k == node
    ensures Without(sheet, i, Touches(node.id)) == if i == node.id then map[] else sheet - {node}
  {
  }

  lemma ProRataPlan(net: map<int, DebtNode>, node: DebtNode)
    requires Linked(net) && node.id in net && net[node.id] == node
    ensures forall k <- node.sheet :: k.id in net && k in net.Values
    ensures forall i <- net :: net[i].id == i
    ensures forall i <- net :: node in net[i].sheet ==> net[i] in node.sheet
    ensures forall i <- net ::
              Without(net[i].sheet, i, Touches(node.id)) == if i == node.id then map[] else net[i].sheet - {node}
  {
    hide Without, Touches;
    var sheets := Sheets(net);
    forall i <- net
      ensures net[i].id == i
      ensures node in net[i].sheet ==> net[i] in node.sheet
      ensures Without(net[i].sheet, i, Touches(node.id)) == if i == node.id then map[] else net[i].sheet - {node}
    {
      SheetIds(net, sheets, i);
      WithoutTouched(sheets[i], i, node);
      if node in sheets[i] {
        assert net[i] in sheets[node.id];
      }
    }
    forall k <- node.sheet ensures k.id in net && k in net.Values {
      assert k in sheets[node.id];
      assert net[k.id] == k;
    }
  }

  ghost function Received(cap: real, owe: real, debt: real): real {
    if debt > 0.0 then Part(cap, owe, debt) else 0.0
  }

  /** `PayProRata` on one node of a linked net, node by node. */
  method ProRataNode(net: map<int, DebtNode>, node: DebtNode, cap: real, debt: real)
    requires Linked(net) && node.id in net && net[node.id] == node && node !in node.sheet
    modifies net.Values
    ensures forall i <- net :: net[i].sheet == Without(old(net[i].sheet), i, Touches(node.id))
    ensures forall i <- net :: net[i].capital
                            == if i == node.id then 0.0
                               else old(net[i].capital) + Received(cap, old(node.Owed(net[i])), debt)
  {
    hide Without, Touches, Linked;
    ProRataPlan(net, node);
    forall i <- net | net[i] !in node.sheet ensures Received(cap, node.Owed(net[i]), debt) == 0.0 {
      if debt > 0.0 {
        ProRata(cap, 0.0, debt);
      }
    }
    hide Part;
    node.PayProRata(cap, debt);
  }

  lemma ProRataCash(b: Book, p: int, i: int)
    requires b.Valid() && b.OneWay({p}) && b.Insolvent(p) && i in b.cap
    ensures b.AfterSettle({p}).cap[i]
         == if i == p then 0.0 else b.cap[i] + Received(b.cap[p], b.Owe(p, i), b.NetDebt(p))
  {
    hide Book.AfterSettle, Part, Book.NetDebt;
    SettleCash(b, {p}, i);
    SumSingle(Column(b.Shares(), i), p);
  }

  method SettleProRata(net: map<int, DebtNode>, node: DebtNode, cap: real, debt: real, ghost b: Book)
    requires Linked(net) && Models(net, b) && node.id in net && net[node.id] == node && node !in node.sheet
    requires b.OneWay({node.id}) && debt == b.NetDebt(node.id) && cap == node.capital && debt > cap
    modifies net.Values
    ensures Linked(net) && Models(net, b.AfterSettle({node.id}))
    ensures forall i <- net :: net[i].sheet.Keys <= old(net[i].sheet.Keys)
  {
    hide Book.AfterSettle, Book.Valid, Book.NetDebt, LinkedSheets, Part;
    ghost var p, sheets := node.id, Sheets(net);
    ProRataNode(net, node, cap, debt);
    forall i <- net ensures net[i].capital == b.AfterSettle({p}).cap[i] {
      ProRataCash(b, p, i);
      assert b.Owe(p, i) == Entry(sheets[p], net[i]);
    }
    DropEntries(net, sheets, b, Sheets(net), b.AfterSettle({p}), Touches(p));
  }

  method SettleNode(net: map<int, DebtNode>, node: DebtNode, ghost b: Book, ghost n: set<int>)
    requires Linked(net) && Models(net, b) && node.id in n && n <= net.Keys && net[node.id] == node
    requires b.OneWay(n) && forall i <- n :: !Inside(net[i].sheet, n)
    modifies net.Values
    ensures Linked(net) && Models(net, b.AfterSettle({node.id}))
    ensures forall i <- n :: !Inside(net[i].sheet, n)
  {
    hide Book.AfterSettle, Book.AfterRepay, Book.Valid, Book.NetDebt, LinkedSheets, ModelsSheets, SheetSum;
    var debt := node.GetDebt();
    var cap := node.capital;
    SheetIsNetDebt(net, b, node.id);
    if debt > cap {
      SettleProRata(net, node, cap, debt, b);
    } else {
      SolventSettleIsRepay(b, node.id);
      RepayIn(net, node, b);
    }
  }

  // ----- the whole of clearing -----

  method RepayWinners(net: map<int, DebtNode>, pos: map<int, DebtNode>, ghost b: Book)
    requires Linked(net) && Models(net, b) && pos.Keys <= net.Keys
    requires forall i <- pos :: pos[i] == net[i]
    modifies net.Values
    ensures Linked(net) && Models(net, b.AfterRepay(pos.Keys))
  {
    hide Book.AfterRepay, Book.Valid, LinkedSheets, ModelsSheets;
    forall i <- net ensures net[i].id == i {
      SheetIds(net, Sheets(net), i);
    }
    NothingRepaid(b);
    var todo := pos.Keys;
    assert pos.Keys - todo == {};
    while todo != {}
      invariant todo <= pos.Keys
      invariant Linked(net) && Models(net, b.AfterRepay(pos.Keys - todo))
    {
      NonEmpty(todo);
      var i :| i in todo;
      RepayIn(net, pos[i], b.AfterRepay(pos.Keys - todo));
      RepayMore(b, pos.Keys - todo, i);
      OneMoreDone(pos.Keys, todo, i);
      todo := todo - {i};
    }
    assert pos.Keys - todo == pos.Keys;
  }

  method SettleLosers(net: map<int, DebtNode>, neg: map<int, DebtNode>, ghost b: Book)
    requires Linked(net) && Models(net, b) && neg.Keys <= net.Keys && b.OneWay(neg.Keys)
    requires forall i <- neg :: neg[i] == net[i]
    requires forall i <- neg :: !Inside(net[i].sheet, neg.Keys)
    modifies net.Values
    ensures Linked(net) && Models(net, b.AfterSettle(neg.Keys))
  {
    hide Book.AfterSettle, Book.Valid, Book.OneWay, LinkedSheets, ModelsSheets, Inside;
    forall i <- net ensures net[i].id == i {
      SheetIds(net, Sheets(net), i);
    }
    NothingSettled(b);
    ghost var n := neg.Keys;
    var todo := neg.Keys;
    assert n - todo == {};
    while todo != {}
      invariant todo <= n
      invariant Linked(net) && Models(net, b.AfterSettle(n - todo))
      invariant forall i <- neg :: !Inside(net[i].sheet, n)
    {
      NonEmpty(todo);
      var i :| i in todo;
      SettleKeepsOneWay(b, n, n - todo);
      SettleNode(net, neg[i], b.AfterSettle(n - todo), n);
      SettleMore(b, n, n - todo, i);
      OneMoreDone(n, todo, i);
      todo := todo - {i};
    }
    assert n - todo == n;
  }

  lemma NothingInside(net: map<int, DebtNode>, neg: map<int, DebtNode>, b: Book)
    requires Linked(net) && Models(net, b) && neg.Keys <= net.Keys
    requires forall i <- neg :: neg[i] == net[i]
    requires forall i <- neg :: !Inside(neg[i].sheet, neg.Keys)
    ensures b.WriteBack(neg.Keys, Clear(b.Sub(neg.Keys))) == b
  {
    var sheets := Sheets(net);
    forall i, j | i in neg && j in neg ensures b.Owe(i, j) == 0.0 {
      assert b.Owe(i, j) == Entry(sheets[i], net[j]);
      assert net[j].id == j;
    }
    IdleSubNet(b, neg.Keys);
  }

  /** Clears a net whose book is `b`. */
  method Liquidate(net: map<int, DebtNode>, ghost b: Book) returns (ok: bool)
    requires Linked(net) && Models(net, b)
    modifies net.Values
    ensures ok && Linked(net) && Models(net, Cleared(b))
    ensures forall i <- net :: net[i].capital == Clear(b)[i]
    ensures forall i <- net :: SheetSum(net[i].sheet) == 0.0
    decreases |net.Keys|, 0
  {
    hide SheetSum, Book.AfterSettle, Book.AfterRepay, Book.WriteBack, Book.Sub, Book.Valid, Book.NetDebt;
    hide LinkedSheets, ModelsSheets, Inside;
    if net == map[] {
      return true;
    }
    var pos, neg := Classify(net, b);
    if pos == map[] {
      assert b.Winners() == {};
      forall i <- net ensures SheetSum(net[i].sheet) == 0.0 {
        NoWinnerNoDebt(b, i);
        SheetIsNetDebt(net, b, i);
      }
      return true;
    }
    RepayWinners(net, pos, b);
    ghost var b1 := b.AfterRepay(b.Winners());
    var sub, test := CopyLosers(net, neg, b1);
    ghost var c := Clear(b1.Sub(neg.Keys));
    if test {
      LosersAreFewer(b);
      ok := ClearSubNet(net, neg, sub, b1);
    } else {
      NothingInside(net, neg, b1);
    }
    PeeledIsOneWay(b, c);
    SettleLosers(net, neg, b.Peeled(c));
    forall i <- net ensures SheetSum(net[i].sheet) == 0.0 {
      RoundClearsDebts(b, c, i);
      SheetIsNetDebt(net, b.Peeled(c).AfterSettle(neg.Keys), i);
    }
    return true;
  }

  /** Clears the copy of the losers, which never fails, and writes its outcome back. */
  method ClearSubNet(net: map<int, DebtNode>, neg: map<int, DebtNode>, sub: map<int, DebtNode>, ghost b: Book)
    returns (ok: bool)
    requires b.Valid() && b.cap.Keys == net.Keys
    requires Linked(net) && Models(net, b) && sub.Keys == neg.Keys <= net.Keys
    requires Linked(sub) && Models(sub, b.Sub(neg.Keys))
    requires forall i <- neg :: neg[i] == net[i]
    requires sub.Values !! net.Values
    modifies net.Values, sub.Values
    ensures ok && Linked(net) && Models(net, b.WriteBack(neg.Keys, Clear(b.Sub(neg.Keys))))
    ensures forall i <- neg :: !Inside(net[i].sheet, neg.Keys)
    decreases |sub.Keys|, 1
  {
    hide Linked, Models, SheetSum, Book.WriteBack, Book.Sub, Book.Valid, Inside, Clear;
    ok := Liquidate(sub, b.Sub(neg.Keys));
    SameMap(CashOf(sub), Clear(b.Sub(neg.Keys)));
    WriteBackNet(net, neg, sub, b);
  }

  // ----- clearing in terms of the nodes alone -----

  /** Keys are ids, every counterparty is in the net, and the two sides of each debt agree. */
  ghost predicate WellFormed(net: map<int, DebtNode>)
    reads net.Values
  {
    && Linked(net)
    && forall i <- net, j <- net :: net[i].Owed(net[j]) == -net[j].Owed(net[i])
  }

  ghost function OwesIn(net: map<int, DebtNode>, sheets: map<int, map<DebtNode, real>>): (int, int) -> real
    requires sheets.Keys == net.Keys
  {
    (i, j) => if i in net && j in net then Entry(sheets[i], net[j]) else 0.0
  }

  lemma OwesInAgree(net: map<int, DebtNode>)
    requires WellFormed(net)
    ensures forall i <- net, j <- net :: OwesIn(net, Sheets(net))(i, j) == -OwesIn(net, Sheets(net))(j, i)
  {
    var sheets := Sheets(net);
    forall i <- net, j <- net ensures OwesIn(net, sheets)(i, j) == -OwesIn(net, sheets)(j, i) {
      assert Entry(sheets[i], net[j]) == net[i].Owed(net[j]);
      assert Entry(sheets[j], net[i]) == net[j].Owed(net[i]);
    }
  }

  /** The book of a well-formed net. */
  ghost function BookOf(net: map<int, DebtNode>): Book
    requires WellFormed(net)
    reads net.Values
  {
    OwesInAgree(net);
    Tabulate(CashOf(net), OwesIn(net, Sheets(net)))
  }

  lemma BookOfModels(net: map<int, DebtNode>)
    requires WellFormed(net)
    ensures Models(net, BookOf(net))
    ensures forall i <- net :: BookOf(net).NetDebt(i) == SheetSum(net[i].sheet)
  {
    hide SheetSum, Tabulate;
    assert Models(net, BookOf(net));
    forall i <- net ensures BookOf(net).NetDebt(i) == SheetSum(net[i].sheet) {
      SheetIsNetDebt(net, BookOf(net), i);
    }
  }

  /** Every debtor by sheet total holds enough cash to pay. */
  ghost predicate AllCanPay(net: map<int, DebtNode>)
    reads net.Values
  {
    forall i <- net :: SheetSum(net[i].sheet) >= 0.0 ==> net[i].capital >= SheetSum(net[i].sheet)
  }

  lemma WinnersByNode(net: map<int, DebtNode>, b: Book)
    requires b.cap.Keys == net.Keys && forall i <- net :: b.NetDebt(i) == SheetSum(net[i].sheet)
    ensures b.Winners() != {} <==> exists i :: i in net && SheetSum(net[i].sheet) < 0.0
  {
    hide SheetSum, Book.NetDebt;
    if i :| i in net && SheetSum(net[i].sheet) < 0.0 {
      assert i in b.Winners();
    }
    if b.Winners() != {} {
      NonEmpty(b.Winners());
    }
  }

  ghost predicate NoDebts(net: map<int, DebtNode>)
    reads net.Values
  {
    forall i <- net, j <- net :: net[i].Owed(net[j]) == 0.0
  }

  lemma OwedIsOwe(net: map<int, DebtNode>, b: Book, i: int, j: int)
    requires Linked(net) && Models(net, b)
    ensures b.Owe(i, j) == if i in net && j in net then net[i].Owed(net[j]) else 0.0
  {
    var sheets := Sheets(net);
    if i in net && j in net {
      assert b.Owe(i, j) == Entry(sheets[i], net[j]);
    } else {
      assert (i, j) !in b.owe by {
        assert forall p :: p in b.owe <==> p.0 in b.cap && p.1 in b.cap;
      }
    }
  }

  lemma NoDebtsIsNoRelations(net: map<int, DebtNode>, b: Book)
    requires Linked(net) && Models(net, b)
    ensures NoDebts(net) <==> NoRelations(b)
  {
    hide Linked, Models, Book.Owe;
    forall i, j ensures b.Owe(i, j) == if i in net && j in net then net[i].Owed(net[j]) else 0.0 {
      OwedIsOwe(net, b, i, j);
    }
  }

  /** What clearing the book of a net comes to, in terms of its nodes. */
  lemma ClearingOf(net: map<int, DebtNode>)
    requires WellFormed(net)
    ensures var b := BookOf(net);
            && b.Valid() && Linked(net) && Models(net, b) && Clear(b).Keys == net.Keys
            && ((forall i <- net :: net[i].capital >= 0.0) ==> TotalOf(Clear(b)) == TotalOf(CashOf(net)))
            && (AllCanPay(net) ==> forall i <- net :: Clear(b)[i] == net[i].capital - SheetSum(net[i].sheet))
            && (NoRelations(Cleared(b)) <==> (exists i :: i in net && SheetSum(net[i].sheet) < 0.0) || NoDebts(net))
  {
    hide SheetSum, Clear, Tabulate, Linked, Models, NoRelations, Cleared;
    var b := BookOf(net);
    BookOfModels(net);
    NoDebtsIsNoRelations(net, b);
    RelationsGo(b);
    WinnersByNode(net, b);
    ClearConserves(b);
    if b.Solvent() {
      SolventClearing(b);
    }
  }

  /** Clears the net.  Whatever the order in which nodes and entries are visited, the outcome is
      `Clear` of the book; cash is conserved; no net debt remains; all debts are gone exactly when some node
      had a net claim or there were none; and if all debtors can pay, each node ends with its cash minus its
      net debt. */
  method ClearNet(net: map<int, DebtNode>) returns (ok: bool)
    requires WellFormed(net)
    modifies net.Values
    ensures ok && Linked(net)
    ensures CashOf(net) == Clear(old(BookOf(net)))
    ensures forall i <- net :: SheetSum(net[i].sheet) == 0.0
    ensures NoDebts(net) <==> old((exists i :: i in net && SheetSum(net[i].sheet) < 0.0) || NoDebts(net))
    ensures (forall i <- net :: old(net[i].capital) >= 0.0) ==> TotalOf(CashOf(net)) == old(TotalOf(CashOf(net)))
    ensures old(AllCanPay(net)) ==>
              forall i <- net :: net[i].capital == old(net[i].capital) - SheetSum(old(net[i].sheet))
  {
    hide SheetSum, Clear, Linked, Models, NoRelations, Cleared, WellFormed, BookOf, AllCanPay, NoDebts, TotalOf;
    ghost var b := BookOf(net);
    ClearingOf(net);
    ok := Liquidate(net, b);
    NoDebtsIsNoRelations(net, Cleared(b));
    SameMap(CashOf(net), Clear(b));
  }
}
