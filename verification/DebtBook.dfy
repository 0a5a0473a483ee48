/** Debt clearing on plain values.

    A book records the cash of every node and, for every ordered pair of nodes, what the
    first owes the second (negative when it is the creditor).  The three steps of one
    clearing round are given in closed form, free of any visiting order, and `Clear`
    composes them.  What clearing promises is proved here about `Clear`; the program on
    the heap is proved equal to it in module `DebtClearing`. */
module DebtBook {
  import opened Sets
  import opened Sums

  ghost function Positive(x: real): real {
    if x > 0.0 then x else 0.0
  }

  ghost function Cash(c: map<int, real>): int -> real {
    i => if i in c then c[i] else 0.0
  }

  ghost function TotalOf(c: map<int, real>): real {
    Sum(c.Keys, Cash(c))
  }

  /** The part of `cap` that goes to a claim of `owe` out of claims of `debt`. */
  ghost function Part(cap: real, owe: real, debt: real): real
    requires debt > 0.0
  {
    cap * owe / debt
  }

  datatype Book = Book(cap: map<int, real>, owe: map<(int, int), real>) {

    /** Every pair of nodes has an entry and the two sides of each debt agree. */
    ghost predicate Valid() {
      && (forall p :: p in owe <==> p.0 in cap && p.1 in cap)
      && (forall i, j :: Owe(i, j) == -Owe(j, i))
    }

    ghost function Owe(i: int, j: int): real {
      if (i, j) in owe then owe[(i, j)] else 0.0
    }

    ghost function OweRow(i: int): int -> real {
      j => Owe(i, j)
    }

    ghost function Owes(): (int, int) -> real {
      (i, j) => Owe(i, j)
    }

    /** Net debt: what `i` owes minus what it is owed. */
    ghost function NetDebt(i: int): real {
      Sum(cap.Keys, OweRow(i))
    }

    ghost function NetDebts(): int -> real {
      i => NetDebt(i)
    }

    /** The sum of all cash in the book. */
    ghost function Total(): real {
      TotalOf(cap)
    }

    ghost function Cap(i: int): real {
      if i in cap then cap[i] else 0.0
    }

    ghost function Winners(): set<int> {
      set i | i in cap && NetDebt(i) < 0.0
    }

    ghost function Losers(): set<int> {
      cap.Keys - Winners()
    }

    // ----- first step: the nodes of `a` repay everything they owe -----

    ghost function DebtRow(i: int): int -> real {
      j => Positive(Owe(i, j))
    }

    ghost function CreditRow(i: int): int -> real {
      j => Positive(Owe(j, i))
    }

    ghost predicate Repaid(a: set<int>, i: int, j: int) {
      (i in a && Owe(i, j) > 0.0) || (j in a && Owe(j, i) > 0.0)
    }

    ghost function AfterRepay(a: set<int>): (b: Book)
      requires Valid() && a <= cap.Keys
      ensures b.Valid() && b.cap.Keys == cap.Keys
      ensures forall i, j :: b.Owe(i, j) == if Repaid(a, i, j) then 0.0 else Owe(i, j)
    {
      var b := Book(
        map i | i in cap :: cap[i] + Sum(a, CreditRow(i)) - (if i in a then Sum(cap.Keys, DebtRow(i)) else 0.0),
        map p | p in owe :: if Repaid(a, p.0, p.1) then 0.0 else owe[p]);
      assert forall i, j :: b.Owe(i, j) == if Repaid(a, i, j) then 0.0 else Owe(i, j);
      b
    }

    // ----- second step: the debts among the nodes of `n` are cleared apart -----

    ghost function Sub(n: set<int>): (b: Book)
      requires Valid() && n <= cap.Keys
      ensures b.Valid() && b.cap.Keys == n
      ensures forall i, j :: b.Owe(i, j) == if i in n && j in n then Owe(i, j) else 0.0
    {
      var b := Book(map i | i in n :: cap[i],
                    map p | p in owe && p.0 in n && p.1 in n :: owe[p]);
      assert forall i, j :: b.Owe(i, j) == if i in n && j in n then Owe(i, j) else 0.0;
      b
    }

    ghost function WriteBack(n: set<int>, c: map<int, real>): (b: Book)
      requires Valid() && n <= cap.Keys && c.Keys == n
      ensures b.Valid() && b.cap.Keys == cap.Keys
      ensures forall i, j :: b.Owe(i, j) == if i in n && j in n then 0.0 else Owe(i, j)
    {
      var b := Book(map i | i in cap :: if i in n then c[i] else cap[i],
                    map p | p in owe :: if p.0 in n && p.1 in n then 0.0 else owe[p]);
      assert forall i, j :: b.Owe(i, j) == if i in n && j in n then 0.0 else Owe(i, j);
      b
    }

    // ----- third step: the nodes of `n` pay what they can -----

    /** Debts exceed cash, so the node pays pro rata. */
    ghost predicate Insolvent(i: int) {
      NetDebt(i) > Cap(i)
    }

    /** What `j` receives from `i` when `i` pays. */
    ghost function Share(i: int, j: int): real {
      if Insolvent(i) then
        if NetDebt(i) > 0.0 then Part(Cap(i), Owe(i, j), NetDebt(i)) else 0.0
      else
        Positive(Owe(i, j))
    }

    ghost function Shares(): (int, int) -> real {
      (i, j) => Share(i, j)
    }

    ghost function Remainder(i: int): real {
      if Insolvent(i) then 0.0 else Cap(i) - Sum(cap.Keys, DebtRow(i))
    }

    ghost function AfterSettle(n: set<int>): (b: Book)
      requires Valid() && n <= cap.Keys
      ensures b.Valid() && b.cap.Keys == cap.Keys
      ensures forall i, j :: b.Owe(i, j) == if i in n || j in n then 0.0 else Owe(i, j)
    {
      var b := Book(map i | i in cap :: if i in n then Remainder(i) else cap[i] + Sum(n, Column(Shares(), i)),
                    map p | p in owe :: if p.0 in n || p.1 in n then 0.0 else owe[p]);
      assert forall i, j :: b.Owe(i, j) == if i in n || j in n then 0.0 else Owe(i, j);
      b
    }

    /** The book just before the losers pay, given the outcome of their sub-net. */
    ghost function Peeled(c: map<int, real>): (b: Book)
      requires Valid() && c.Keys == Losers()
      ensures b.Valid() && b.cap.Keys == cap.Keys
    {
      AfterRepay(Winners()).WriteBack(Losers(), c)
    }

    /** The sub-net of the losers after the winners have repaid. */
    ghost function SubNet(): (b: Book)
      requires Valid()
      ensures b.Valid() && b.cap.Keys == Losers()
    {
      AfterRepay(Winners()).Sub(Losers())
    }

    /** The nodes of `n` only owe, and nothing to one another. */
    ghost predicate OneWay(n: set<int>) {
      && n <= cap.Keys
      && (forall i, j :: i in n ==> Owe(i, j) >= 0.0)
      && (forall i, j :: i in n && j in n ==> Owe(i, j) == 0.0)
    }

    // ----- hypotheses of the theorems -----

    ghost predicate NonNegativeCash() {
      forall i <- cap :: cap[i] >= 0.0
    }

    /** Every node with net debt at least zero holds enough cash to cover it. */
    ghost predicate Solvent() {
      forall i <- cap :: NetDebt(i) >= 0.0 ==> cap[i] >= NetDebt(i)
    }
  }

  /** The book with the given cash in which `i` owes `owe(i, j)` to `j`. */
  ghost function Tabulate(cap: map<int, real>, owe: (int, int) -> real): (b: Book)
    requires forall i <- cap, j <- cap :: owe(i, j) == -owe(j, i)
    ensures b.Valid() && b.cap == cap
    ensures forall i, j :: b.Owe(i, j) == if i in cap && j in cap then owe(i, j) else 0.0
  {
    var b := Book(cap, map p | p in Pairs(cap.Keys) :: owe(p.0, p.1));
    assert forall i, j :: b.Owe(i, j) == if i in cap && j in cap then owe(i, j) else 0.0 by {
      forall i, j ensures b.Owe(i, j) == if i in cap && j in cap then owe(i, j) else 0.0 {
        var p := (i, j);
        assert p in b.owe <==> p in Pairs(cap.Keys);
      }
    }
    b
  }

  /** The cash of every node after the whole net has been cleared. */
  ghost function Clear(b: Book): (c: map<int, real>)
    requires b.Valid()
    ensures c.Keys == b.cap.Keys
    decreases |b.cap|
  {
    if b.Winners() == {} then b.cap
    else
      LosersAreFewer(b);
      b.Peeled(Clear(b.SubNet())).AfterSettle(b.Losers()).cap
  }

  lemma LosersAreFewer(b: Book)
    requires b.Valid() && b.Winners() != {}
    ensures |b.SubNet().cap| < |b.cap|
  {
    NonEmpty(b.Winners());
    assert b.Losers() < b.cap.Keys;
    SubsetIsSmaller(b.Losers(), b.cap.Keys);
    assert |b.SubNet().cap.Keys| < |b.cap.Keys|;
  }

  // ----- facts about any book -----

  /** Over a closed antisymmetric net the net debts add up to zero. */
  lemma NetDebtsCancel(b: Book)
    requires b.Valid()
    ensures Sum(b.cap.Keys, b.NetDebts()) == 0.0
  {
    var s := b.cap.Keys;
    forall i <- s, j <- s
      ensures b.Owes()(i, j) == -b.Owes()(j, i)
    {
      assert b.Owe(i, j) == -b.Owe(j, i);
    }
    SumAntisymmetric(s, b.Owes());
    NetDebtsAreRowSums(b);
  }

  lemma NetDebtsAreRowSums(b: Book)
    ensures Sum(b.cap.Keys, b.NetDebts()) == Sum(b.cap.Keys, RowSums(b.Owes(), b.cap.Keys))
  {
    var s := b.cap.Keys;
    forall i <- s
      ensures RowSums(b.Owes(), s)(i) == b.NetDebts()(i)
    {
      SumCongruent(s, Row(b.Owes(), i), b.OweRow(i));
    }
    SumCongruent(s, RowSums(b.Owes(), s), b.NetDebts());
  }

  /** With no winner, every node's debts and claims cancel out. */
  lemma NoWinnerNoDebt(b: Book, i: int)
    requires b.Valid() && b.Winners() == {} && i in b.cap
    ensures b.NetDebt(i) == 0.0
  {
    NetDebtsCancel(b);
    forall j <- b.cap.Keys
      ensures b.NetDebts()(j) >= 0.0
    {
      assert j !in b.Winners();
    }
    SumOfNonNegativeIsZero(b.cap.Keys, b.NetDebts(), i);
  }

  ghost function Ring(i: int, j: int): real {
    if j == i + 1 || (i, j) == (2, 0) then 1.0 else if i == j + 1 || (i, j) == (0, 2) then -1.0 else 0.0
  }

  lemma SumOfThree(s: set<int>, f: int -> real)
    requires s == {0, 1, 2}
    ensures Sum(s, f) == f(0) + f(1) + f(2)
  {
    assert s == {0, 1} + {2} && {0} + {1} == {0, 1};
    SumInsert({0, 1}, f, 2);
    SumInsert({0}, f, 1);
    SumSingle(f, 0);
  }

  ghost function RingBook(): Book {
    Tabulate(map[0 := 0.0, 1 := 0.0, 2 := 0.0], (i, j) => Ring(i, j))
  }

  lemma RingCancels(i: int)
    requires i in RingBook().cap
    ensures RingBook().NetDebt(i) == 0.0
  {
    hide Tabulate, Sum;
    SumOfThree(RingBook().cap.Keys, RingBook().OweRow(i));
  }

  /** Debts that cancel out need not be gone: in a ring of three, nobody is a winner and everybody owes. */
  lemma RingOfDebts()
    ensures exists b: Book :: b.Valid() && b.Winners() == {} && b.Owe(0, 1) == 1.0 && Clear(b) == b.cap
  {
    var b := RingBook();
    assert b.Owe(0, 1) == 1.0;
    hide RingBook, Tabulate, Sum, Book.NetDebt;
    forall i | i in b.cap.Keys ensures b.NetDebt(i) == 0.0 {
      RingCancels(i);
    }
    assert b.Winners() == {};
  }

  // ----- the winners repay -----

  /** The entry of `i` about `j` after the nodes of `a` have repaid. */
  lemma RepayChangesEntry(b: Book, a: set<int>, i: int, j: int)
    requires b.Valid() && a <= b.cap.Keys
    ensures b.AfterRepay(a).Owe(i, j)
         == b.Owe(i, j)
          - (if i in a then Positive(b.Owe(i, j)) else 0.0)
          + (if j in a then Positive(b.Owe(j, i)) else 0.0)
  {
    assert b.Owe(i, j) == -b.Owe(j, i);
  }

  ghost function Got(b: Book, a: set<int>, i: int): int -> real {
    j => if j in a then Positive(b.Owe(j, i)) else 0.0
  }

  ghost function Paid(b: Book, a: set<int>, i: int): int -> real {
    j => if i in a then -Positive(b.Owe(i, j)) else 0.0
  }

  lemma GotSum(b: Book, a: set<int>, i: int)
    requires a <= b.cap.Keys
    ensures Sum(b.cap.Keys, Got(b, a, i)) == Sum(a, b.CreditRow(i))
  {
    SumSupport(b.cap.Keys, a, Got(b, a, i));
    SumCongruent(a, Got(b, a, i), b.CreditRow(i));
  }

  lemma PaidSum(b: Book, a: set<int>, i: int)
    ensures Sum(b.cap.Keys, Paid(b, a, i)) == if i in a then -Sum(b.cap.Keys, b.DebtRow(i)) else 0.0
  {
    if i in a {
      SumNegate(b.cap.Keys, b.DebtRow(i), Paid(b, a, i));
    } else {
      SumZero(b.cap.Keys, Paid(b, a, i));
    }
  }

  /** Repaying moves cash and debt together, so cash minus net debt stays. */
  lemma RepayKeepsNetWorth(b: Book, a: set<int>, i: int)
    requires b.Valid() && a <= b.cap.Keys && i in b.cap
    ensures var b1 := b.AfterRepay(a);
            b1.cap[i] - b1.NetDebt(i) == b.cap[i] - b.NetDebt(i)
  {
    var s := b.cap.Keys;
    var b1 := b.AfterRepay(a);
    var mid: int -> real := j => b.Owe(i, j) + Paid(b, a, i)(j);
    SumPlus(s, b.OweRow(i), Paid(b, a, i), mid);
    forall j <- s
      ensures b1.OweRow(i)(j) == mid(j) + Got(b, a, i)(j)
    {
      RepayChangesEntry(b, a, i, j);
    }
    SumPlus(s, mid, Got(b, a, i), b1.OweRow(i));
    GotSum(b, a, i);
    PaidSum(b, a, i);
  }

  /** Repaying keeps the total, because both books' net debts cancel. */
  lemma RepayKeepsTotal(b: Book, a: set<int>)
    requires b.Valid() && a <= b.cap.Keys
    ensures b.AfterRepay(a).Total() == b.Total()
  {
    var b1 := b.AfterRepay(a);
    NetDebtsCancel(b);
    NetDebtsCancel(b1);
    forall i <- b.cap.Keys
      ensures Cash(b1.cap)(i) - b1.NetDebts()(i) == Cash(b.cap)(i) - b.NetDebts()(i)
    {
      RepayKeepsNetWorth(b, a, i);
    }
    SumsMoveTogether(b.cap.Keys, Cash(b.cap), b.NetDebts(), Cash(b1.cap), b1.NetDebts());
  }

  /** Losers only receive while the winners repay. */
  lemma RepayHelpsOthers(b: Book, a: set<int>, i: int)
    requires b.Valid() && a <= b.cap.Keys && i in b.cap && i !in a
    ensures b.AfterRepay(a).cap[i] >= b.cap[i]
    ensures b.AfterRepay(a).NetDebt(i) >= b.NetDebt(i)
  {
    SumZero(a, Zero());
    SumLessEqual(a, Zero(), b.CreditRow(i));
    RepayKeepsNetWorth(b, a, i);
  }

  // ----- the losers' sub-net is split off -----

  /** Once the winners have repaid and the sub-net is cleared, only losers owe, and only to winners. */
  lemma PeeledIsOneWay(b: Book, c: map<int, real>)
    requires b.Valid() && c.Keys == b.Losers()
    ensures b.Peeled(c).OneWay(b.Losers())
  {
    var b1 := b.AfterRepay(b.Winners());
    forall i, j | i in b.Losers()
      ensures b.Peeled(c).Owe(i, j) >= 0.0
    {
      assert b.Owe(i, j) == -b.Owe(j, i);
      assert b1.Owe(i, j) == if b.Repaid(b.Winners(), i, j) then 0.0 else b.Owe(i, j);
    }
  }

  lemma PeeledAmongWinners(b: Book, c: map<int, real>, i: int, j: int)
    requires b.Valid() && c.Keys == b.Losers()
    requires i in b.Winners() && j in b.Winners()
    ensures b.Peeled(c).Owe(i, j) == 0.0
  {
    assert b.Owe(i, j) == -b.Owe(j, i);
    assert b.AfterRepay(b.Winners()).Owe(i, j) == if b.Repaid(b.Winners(), i, j) then 0.0 else b.Owe(i, j);
  }

  lemma SplitRow(s: set<int>, n: set<int>, inner: int -> real, outer: int -> real, row: int -> real)
    requires n <= s
    requires forall j <- s :: inner(j) == if j in n then row(j) else 0.0
    requires forall j <- s :: outer(j) == if j in n then 0.0 else row(j)
    ensures Sum(s, row) == Sum(n, inner) + Sum(s, outer)
  {
    SumPlus(s, inner, outer, row);
    SumSupport(s, n, inner);
  }

  /** A loser's net debt splits into its part inside the sub-net and its part towards winners. */
  lemma NetDebtSplits(b: Book, c: map<int, real>, i: int)
    requires b.Valid() && c.Keys == b.Losers() && i in b.Losers()
    ensures b.AfterRepay(b.Winners()).NetDebt(i) == b.SubNet().NetDebt(i) + b.Peeled(c).NetDebt(i)
  {
    var s := b.cap.Keys;
    var b1 := b.AfterRepay(b.Winners());
    SplitRow(s, b.Losers(), b.SubNet().OweRow(i), b.Peeled(c).OweRow(i), b1.OweRow(i));
  }

  lemma WinnersKeepClaims(b: Book, c: map<int, real>, i: int)
    requires b.Valid() && c.Keys == b.Losers() && i in b.Winners()
    ensures b.Peeled(c).NetDebt(i) == b.AfterRepay(b.Winners()).NetDebt(i)
  {
    SumCongruent(b.cap.Keys, b.Peeled(c).OweRow(i), b.AfterRepay(b.Winners()).OweRow(i));
  }

  // ----- the losers pay -----

  lemma OneWayDebt(b: Book, n: set<int>, i: int)
    requires b.OneWay(n) && i in n
    ensures Sum(b.cap.Keys, b.DebtRow(i)) == b.NetDebt(i)
    ensures Sum(b.cap.Keys - n, b.OweRow(i)) == b.NetDebt(i)
    ensures b.NetDebt(i) >= 0.0
  {
    var s := b.cap.Keys;
    SumCongruent(s, b.DebtRow(i), b.OweRow(i));
    SumSupport(s, s - n, b.OweRow(i));
    SumZero(s, Zero());
    SumLessEqual(s, Zero(), b.OweRow(i));
  }

  /** The one case in which a payer's loss is not its creditors' gain. */
  ghost predicate Forgiven(b: Book, i: int) {
    b.NetDebt(i) == 0.0 && b.Cap(i) < 0.0
  }

  /** What the creditors receive from `i` is what `i` gives up. */
  lemma SharesAddUp(b: Book, n: set<int>, i: int)
    requires b.OneWay(n) && i in n
    ensures Sum(b.cap.Keys - n, Row(b.Shares(), i))
         == if Forgiven(b, i) then 0.0 else b.Cap(i) - b.Remainder(i)
  {
    var w := b.cap.Keys - n;
    OneWayDebt(b, n, i);
    if !b.Insolvent(i) {
      SumCongruent(w, Row(b.Shares(), i), b.OweRow(i));
    } else if b.NetDebt(i) > 0.0 {
      var c := b.Cap(i) / b.NetDebt(i);
      forall j <- w
        ensures Row(b.Shares(), i)(j) == c * b.OweRow(i)(j)
      {
        ProRata(b.Cap(i), b.Owe(i, j), b.NetDebt(i));
      }
      SumScale(w, b.OweRow(i), c, Row(b.Shares(), i));
    } else {
      SumZero(w, Row(b.Shares(), i));
    }
  }

  lemma ProRata(cap: real, owe: real, debt: real)
    requires debt > 0.0
    ensures Part(cap, owe, debt) == (cap / debt) * owe
    ensures owe >= 0.0 && cap <= debt ==> Part(cap, owe, debt) <= owe
    ensures Part(cap, 0.0, debt) == 0.0
  {
  }

  /** No payer gives a creditor more than it owes, and a solvent one gives exactly that. */
  lemma ShareWithinClaim(b: Book, n: set<int>, i: int, j: int)
    requires b.OneWay(n) && i in n && !Forgiven(b, i)
    ensures b.Share(i, j) <= b.Owe(i, j)
    ensures !b.Insolvent(i) ==> b.Share(i, j) == b.Owe(i, j)
  {
    OneWayDebt(b, n, i);
    if b.Insolvent(i) {
      ProRata(b.Cap(i), b.Owe(i, j), b.NetDebt(i));
    }
  }

  ghost function Remainders(b: Book): int -> real {
    i => b.Remainder(i)
  }

  /** Cash is never destroyed when the losers pay, and none appears unless a payer is forgiven. */
  lemma SettleKeepsTotal(b: Book, n: set<int>)
    requires b.Valid() && b.OneWay(n)
    ensures b.AfterSettle(n).Total() >= b.Total()
    ensures (forall i <- n :: !Forgiven(b, i)) ==> b.AfterSettle(n).Total() == b.Total()
  {
    var w := b.cap.Keys - n;
    var after := b.AfterSettle(n);
    SumUnion(n, w, Cash(b.cap));
    SumUnion(n, w, Cash(after.cap));
    assert n + w == b.cap.Keys;
    SumCongruent(n, Cash(after.cap), Remainders(b));
    SumPlus(w, Cash(b.cap), ColumnSums(b.Shares(), n), Cash(after.cap));
    SumSwap(n, w, b.Shares());
    PayersBalance(b, n);
  }

  ghost function GivenUp(b: Book, w: set<int>): int -> real {
    i => RowSums(b.Shares(), w)(i) + b.Remainder(i)
  }

  lemma PayersBalance(b: Book, n: set<int>)
    requires b.Valid() && b.OneWay(n)
    ensures var w := b.cap.Keys - n;
            var paid := Sum(n, RowSums(b.Shares(), w)) + Sum(n, Remainders(b));
            && paid >= Sum(n, Cash(b.cap))
            && ((forall i <- n :: !Forgiven(b, i)) ==> paid == Sum(n, Cash(b.cap)))
  {
    var w := b.cap.Keys - n;
    SumPlus(n, RowSums(b.Shares(), w), Remainders(b), GivenUp(b, w));
    forall i <- n
      ensures GivenUp(b, w)(i) >= Cash(b.cap)(i)
      ensures !Forgiven(b, i) ==> GivenUp(b, w)(i) == Cash(b.cap)(i)
    {
      SharesAddUp(b, n, i);
    }
    SumLessEqual(n, Cash(b.cap), GivenUp(b, w));
    if forall i <- n :: !Forgiven(b, i) {
      SumCongruent(n, GivenUp(b, w), Cash(b.cap));
    }
  }

  /** The book before the losers pay holds what the sub-net holds plus what the winners hold. */
  lemma PeeledTotal(b: Book, c: map<int, real>)
    requires b.Valid() && c.Keys == b.Losers()
    ensures b.Peeled(c).Total() - TotalOf(c) == b.Total() - b.SubNet().Total()
  {
    var w, n := b.Winners(), b.Losers();
    var b1 := b.AfterRepay(w);
    var b2 := b.Peeled(c);
    assert n + w == b.cap.Keys;
    RepayKeepsTotal(b, w);
    SumUnion(n, w, Cash(b1.cap));
    SumUnion(n, w, Cash(b2.cap));
    SumCongruent(w, Cash(b1.cap), Cash(b2.cap));
    SumCongruent(n, Cash(c), Cash(b2.cap));
    SumCongruent(n, Cash(b.SubNet().cap), Cash(b1.cap));
  }

  // ----- what clearing promises -----

  ghost function Max(x: real, y: real): real {
    if x >= y then x else y
  }

  lemma SubNetKeepsHypotheses(b: Book, c: map<int, real>, i: int)
    requires b.Valid() && c.Keys == b.Losers() && i in b.Losers()
    ensures b.SubNet().cap[i] >= b.cap[i]
    ensures b.NetDebt(i) >= 0.0
    ensures b.SubNet().cap[i] - b.SubNet().NetDebt(i) - b.Peeled(c).NetDebt(i) == b.cap[i] - b.NetDebt(i)
    ensures b.SubNet().NetDebt(i) + b.Peeled(c).NetDebt(i) >= b.NetDebt(i)
    ensures b.Peeled(c).NetDebt(i) >= 0.0
    ensures b.Peeled(c).Cap(i) == c[i]
  {
    RepayHelpsOthers(b, b.Winners(), i);
    RepayKeepsNetWorth(b, b.Winners(), i);
    NetDebtSplits(b, c, i);
    PeeledIsOneWay(b, c);
    OneWayDebt(b.Peeled(c), b.Losers(), i);
  }

  lemma PayerEnds(b: Book, n: set<int>, i: int)
    requires b.Valid() && b.OneWay(n) && i in n
    ensures b.AfterSettle(n).cap[i] == Rest(b.Cap(i), b.NetDebt(i))
  {
    OneWayDebt(b, n, i);
  }

  /** What is left of `cap` after paying `debt` as far as it goes. */
  ghost function Rest(cap: real, debt: real): real {
    if debt > cap then 0.0 else cap - debt
  }

  /** A loser ends with what its debts to winners leave of its cash, or with nothing. */
  lemma LoserEnds(b: Book, c: map<int, real>, i: int)
    requires b.Valid() && c.Keys == b.Losers() && i in b.Losers()
    ensures b.Peeled(c).AfterSettle(b.Losers()).cap[i] == Rest(c[i], b.Peeled(c).NetDebt(i))
  {
    PeeledIsOneWay(b, c);
    PayerEnds(b.Peeled(c), b.Losers(), i);
    SubNetKeepsHypotheses(b, c, i);
  }

  /** A winner ends with its cash and what its debtors pay it, at most its whole claim. */
  lemma WinnerCollects(b: Book, c: map<int, real>, j: int)
    requires b.Valid() && c.Keys == b.Losers() && j in b.Winners()
    requires forall i <- b.Losers() :: !Forgiven(b.Peeled(c), i)
    ensures var end := b.Peeled(c).AfterSettle(b.Losers()).cap[j];
            && end <= b.cap[j] - b.NetDebt(j)
            && ((forall i <- b.Losers() :: !b.Peeled(c).Insolvent(i)) ==> end == b.cap[j] - b.NetDebt(j))
  {
    var n := b.Losers();
    var b2 := b.Peeled(c);
    PeeledIsOneWay(b, c);
    RepayKeepsNetWorth(b, b.Winners(), j);
    WinnersKeepClaims(b, c, j);
    ClaimsOfWinner(b, c, j);
    forall i <- n
      ensures Column(b2.Shares(), j)(i) <= Column(b2.Owes(), j)(i)
      ensures !b2.Insolvent(i) ==> Column(b2.Shares(), j)(i) == Column(b2.Owes(), j)(i)
    {
      ShareWithinClaim(b2, n, i, j);
    }
    SumLessEqual(n, Column(b2.Shares(), j), Column(b2.Owes(), j));
    if forall i <- n :: !b2.Insolvent(i) {
      SumCongruent(n, Column(b2.Shares(), j), Column(b2.Owes(), j));
    }
  }

  lemma ClaimsOfWinner(b: Book, c: map<int, real>, j: int)
    requires b.Valid() && c.Keys == b.Losers() && j in b.Winners()
    ensures Sum(b.Losers(), Column(b.Peeled(c).Owes(), j)) == -b.Peeled(c).NetDebt(j)
  {
    var b2 := b.Peeled(c);
    forall i <- b.Winners()
      ensures b2.OweRow(j)(i) == 0.0
    {
      PeeledAmongWinners(b, c, j, i);
    }
    SumSupport(b.cap.Keys, b.Losers(), b2.OweRow(j));
    forall i <- b.Losers()
      ensures Column(b2.Owes(), j)(i) == -b2.OweRow(j)(i)
    {
      assert b2.Owe(i, j) == -b2.Owe(j, i);
    }
    SumNegate(b.Losers(), b2.OweRow(j), Column(b2.Owes(), j));
  }

  lemma RestIsBounded(c: real, debt: real, worth: real)
    requires debt >= 0.0 && c <= Max(0.0, worth + debt)
    ensures 0.0 <= Rest(c, debt) <= Max(0.0, worth)
  {
  }

  /** From non-negative cash, no node that started with net debt at least zero ends below zero,
      and none ends with more than it would hold if all its debtors paid in full. */
  lemma {:induction false} ClearBounds(b: Book, i: int)
    requires b.Valid() && b.NonNegativeCash() && i in b.cap
    ensures b.NetDebt(i) >= 0.0 ==> Clear(b)[i] >= 0.0
    ensures Clear(b)[i] <= Max(0.0, b.cap[i] - b.NetDebt(i))
    decreases |b.cap|, 2
  {
    hide Book.AfterRepay, Book.AfterSettle, Book.NetDebt;
    if b.Winners() == {} {
      NoWinnerNoDebt(b, i);
    } else if i in b.Winners() {
      NothingForgiven(b);
      WinnerCollects(b, Clear(b.SubNet()), i);
    } else {
      LoserBounds(b, i);
    }
  }

  lemma {:induction false} LoserBounds(b: Book, i: int)
    requires b.Valid() && b.NonNegativeCash() && b.Winners() != {} && i in b.Losers()
    ensures 0.0 <= Clear(b)[i] <= Max(0.0, b.cap[i] - b.NetDebt(i))
    decreases |b.cap|, 0
  {
    hide Book.AfterRepay, Book.AfterSettle, Book.NetDebt, Book.WriteBack;
    LosersAreFewer(b);
    SubNetCash(b);
    ClearBounds(b.SubNet(), i);
    LoserRound(b, Clear(b.SubNet()), i);
  }

  lemma LoserRound(b: Book, c: map<int, real>, i: int)
    requires b.Valid() && c.Keys == b.Losers() && i in b.Losers()
    requires c[i] <= Max(0.0, b.SubNet().cap[i] - b.SubNet().NetDebt(i))
    ensures 0.0 <= b.Peeled(c).AfterSettle(b.Losers()).cap[i] <= Max(0.0, b.cap[i] - b.NetDebt(i))
  {
    hide Book.AfterRepay, Book.AfterSettle, Book.NetDebt, Book.WriteBack;
    SubNetKeepsHypotheses(b, c, i);
    LoserEnds(b, c, i);
    RestIsBounded(c[i], b.Peeled(c).NetDebt(i), b.cap[i] - b.NetDebt(i));
  }

  lemma SubNetCash(b: Book)
    requires b.Valid() && b.NonNegativeCash()
    ensures b.SubNet().NonNegativeCash()
  {
    forall i <- b.Losers()
      ensures b.SubNet().cap[i] >= 0.0
    {
      RepayHelpsOthers(b, b.Winners(), i);
    }
  }

  /** The branch that neither pays nor keeps a negative balance is never reached. */
  lemma {:induction false} NothingForgiven(b: Book)
    requires b.Valid() && b.NonNegativeCash() && b.Winners() != {}
    ensures forall i <- b.Losers() :: !Forgiven(b.Peeled(Clear(b.SubNet())), i)
    decreases |b.cap|, 1
  {
    LosersAreFewer(b);
    var c := Clear(b.SubNet());
    forall i <- b.Losers()
      ensures !Forgiven(b.Peeled(c), i)
    {
      SubNetKeepsHypotheses(b, c, i);
      SubNetCash(b);
      ClearBounds(b.SubNet(), i);
    }
  }

  /** Clearing never destroys cash, and from non-negative cash it creates none. */
  lemma {:induction false} ClearConserves(b: Book)
    requires b.Valid()
    ensures TotalOf(Clear(b)) >= b.Total()
    ensures b.NonNegativeCash() ==> TotalOf(Clear(b)) == b.Total()
    decreases |b.cap|
  {
    if b.Winners() != {} {
      LosersAreFewer(b);
      var c := Clear(b.SubNet());
      ClearConserves(b.SubNet());
      PeeledTotal(b, c);
      PeeledIsOneWay(b, c);
      SettleKeepsTotal(b.Peeled(c), b.Losers());
      if b.NonNegativeCash() {
        SubNetCash(b);
        NothingForgiven(b);
      }
    }
  }

  /** No recursion level pays pro rata. */
  ghost predicate NeverProRata(b: Book)
    requires b.Valid()
    decreases |b.cap|
  {
    if b.Winners() == {} then true
    else
      LosersAreFewer(b);
      && NeverProRata(b.SubNet())
      && forall i <- b.Losers() :: !b.Peeled(Clear(b.SubNet())).Insolvent(i)
  }

  /** When every net debtor can pay, clearing is plain netting and nobody pays pro rata. */
  lemma {:induction false} SolventClearing(b: Book)
    requires b.Valid() && b.Solvent()
    ensures NeverProRata(b)
    ensures forall i <- b.cap :: Clear(b)[i] == b.cap[i] - b.NetDebt(i)
    decreases |b.cap|
  {
    hide Book.AfterRepay, Book.AfterSettle, Book.NetDebt;
    if b.Winners() == {} {
      forall i <- b.cap ensures Clear(b)[i] == b.cap[i] - b.NetDebt(i) {
        NoWinnerNoDebt(b, i);
      }
    } else {
      LosersAreFewer(b);
      var c := Clear(b.SubNet());
      SubNetSolvent(b, c);
      SolventClearing(b.SubNet());
      SolventRound(b, c);
    }
  }

  lemma SolventRound(b: Book, c: map<int, real>)
    requires b.Valid() && b.Solvent() && c.Keys == b.Losers()
    requires forall i <- c :: c[i] == b.SubNet().cap[i] - b.SubNet().NetDebt(i)
    ensures forall i <- b.Losers() :: !b.Peeled(c).Insolvent(i)
    ensures forall i <- b.cap :: b.Peeled(c).AfterSettle(b.Losers()).cap[i] == b.cap[i] - b.NetDebt(i)
  {
    forall i <- b.Losers()
      ensures !b.Peeled(c).Insolvent(i) && !Forgiven(b.Peeled(c), i)
      ensures b.Peeled(c).AfterSettle(b.Losers()).cap[i] == b.cap[i] - b.NetDebt(i)
    {
      SubNetKeepsHypotheses(b, c, i);
      LoserEnds(b, c, i);
    }
    forall i <- b.Winners()
      ensures b.Peeled(c).AfterSettle(b.Losers()).cap[i] == b.cap[i] - b.NetDebt(i)
    {
      WinnerCollects(b, c, i);
    }
  }

  lemma SubNetSolvent(b: Book, c: map<int, real>)
    requires b.Valid() && b.Solvent() && c.Keys == b.Losers()
    ensures b.SubNet().Solvent()
  {
    forall i <- b.Losers()
      ensures b.SubNet().NetDebt(i) >= 0.0 ==> b.SubNet().cap[i] >= b.SubNet().NetDebt(i)
    {
      SubNetKeepsHypotheses(b, c, i);
    }
  }

  /** From non-negative cash, clearing is plain netting exactly when every net debtor can pay. */
  lemma NettingIffSolvent(b: Book)
    requires b.Valid() && b.NonNegativeCash()
    ensures b.Solvent() <==> forall i <- b.cap :: Clear(b)[i] == b.cap[i] - b.NetDebt(i)
  {
    if b.Solvent() {
      SolventClearing(b);
    } else {
      var i :| i in b.cap && b.NetDebt(i) >= 0.0 && b.cap[i] < b.NetDebt(i);
      ClearBounds(b, i);
    }
  }

  // ----- one node at a time, in any order -----

  lemma SameBook(b: Book, b': Book)
    requires b.Valid() && b'.Valid() && b.cap.Keys == b'.cap.Keys
    requires forall i <- b.cap :: b.cap[i] == b'.cap[i]
    requires forall i, j :: b.Owe(i, j) == b'.Owe(i, j)
    ensures b == b'
  {
    SameMap(b.cap, b'.cap);
    forall p | p in b.owe ensures p in b'.owe && b.owe[p] == b'.owe[p] {
      assert b.Owe(p.0, p.1) == b'.Owe(p.0, p.1);
    }
    assert b.owe.Keys == b'.owe.Keys;
    assert b.owe == b'.owe;
  }

  lemma RepayCash(b: Book, a: set<int>, i: int)
    requires b.Valid() && a <= b.cap.Keys && i in b.cap
    ensures b.AfterRepay(a).cap[i]
         == b.cap[i] + Sum(a, b.CreditRow(i)) - (if i in a then Sum(b.cap.Keys, b.DebtRow(i)) else 0.0)
  {
  }

  lemma NothingRepaid(b: Book)
    requires b.Valid()
    ensures b.AfterRepay({}) == b
  {
    hide Book.AfterRepay;
    forall i <- b.cap ensures b.AfterRepay({}).cap[i] == b.cap[i] {
      RepayCash(b, {}, i);
      SumEmpty(b.CreditRow(i));
    }
    SameBook(b.AfterRepay({}), b);
  }

  /** Repaying by one more node extends the closed form. */
  lemma RepayMore(b: Book, a: set<int>, p: int)
    requires b.Valid() && a <= b.cap.Keys && p in b.cap && p !in a
    ensures b.AfterRepay(a).AfterRepay({p}) == b.AfterRepay(a + {p})
  {
    hide Book.AfterRepay, Book.Valid, Book.Repaid;
    var b2 := b.AfterRepay(a).AfterRepay({p});
    var b3 := b.AfterRepay(a + {p});
    forall i <- b.cap ensures b2.cap[i] == b3.cap[i] {
      RepayMoreCash(b, a, p, i);
    }
    forall i, j ensures b2.Owe(i, j) == b3.Owe(i, j) {
      RepayMoreEntry(b, a, p, i, j);
    }
    SameBook(b2, b3);
  }

  lemma RepayMoreEntry(b: Book, a: set<int>, p: int, i: int, j: int)
    requires b.Valid() && a <= b.cap.Keys && p in b.cap && p !in a
    ensures b.AfterRepay(a).AfterRepay({p}).Owe(i, j) == b.AfterRepay(a + {p}).Owe(i, j)
  {
    hide Book.AfterRepay;
    RepayChangesEntry(b, a, i, j);
    RepayChangesEntry(b, a, j, i);
    assert b.Owe(i, j) == -b.Owe(j, i);
  }

  /** What `p` owes is untouched while others repay; only its claims shrink. */
  lemma RepaySparesDebts(b: Book, a: set<int>, p: int, i: int)
    requires b.Valid() && a <= b.cap.Keys && p !in a
    ensures Positive(b.AfterRepay(a).Owe(p, i)) == Positive(b.Owe(p, i))
  {
    RepayChangesEntry(b, a, p, i);
    assert b.Owe(p, i) == -b.Owe(i, p);
  }

  lemma RepaySparesDebtRow(b: Book, a: set<int>, p: int)
    requires b.Valid() && a <= b.cap.Keys && p !in a
    ensures Sum(b.cap.Keys, b.AfterRepay(a).DebtRow(p)) == Sum(b.cap.Keys, b.DebtRow(p))
  {
    hide Book.AfterRepay;
    forall j <- b.cap.Keys
      ensures b.AfterRepay(a).DebtRow(p)(j) == b.DebtRow(p)(j)
    {
      RepaySparesDebts(b, a, p, j);
    }
    SumCongruent(b.cap.Keys, b.AfterRepay(a).DebtRow(p), b.DebtRow(p));
  }

  lemma RepayMoreCash(b: Book, a: set<int>, p: int, i: int)
    requires b.Valid() && a <= b.cap.Keys && p in b.cap && p !in a && i in b.cap
    ensures b.AfterRepay(a).AfterRepay({p}).cap[i] == b.AfterRepay(a + {p}).cap[i]
  {
    hide Book.AfterRepay;
    var b1 := b.AfterRepay(a);
    RepayCash(b, a, i);
    RepayCash(b1, {p}, i);
    RepayCash(b, a + {p}, i);
    RepaySparesDebts(b, a, p, i);
    SumSingle(b1.CreditRow(i), p);
    SumInsert(a, b.CreditRow(i), p);
    RepaySparesDebtRow(b, a, p);
  }

  lemma SettleCash(b: Book, n: set<int>, i: int)
    requires b.Valid() && n <= b.cap.Keys && i in b.cap
    ensures b.AfterSettle(n).cap[i]
         == if i in n then b.Remainder(i) else b.cap[i] + Sum(n, Column(b.Shares(), i))
  {
  }

  lemma NothingSettled(b: Book)
    requires b.Valid()
    ensures b.AfterSettle({}) == b
  {
    hide Book.AfterSettle;
    forall i <- b.cap ensures b.AfterSettle({}).cap[i] == b.cap[i] {
      SettleCash(b, {}, i);
      SumEmpty(Column(b.Shares(), i));
    }
    SameBook(b.AfterSettle({}), b);
  }

  lemma SettleKeepsOneWay(b: Book, n: set<int>, a: set<int>)
    requires b.Valid() && b.OneWay(n) && a <= n
    ensures b.AfterSettle(a).OneWay(n)
  {
  }

  lemma NoDebtNoShare(b: Book, n: set<int>, i: int, j: int)
    requires b.OneWay(n) && i in n && b.Owe(i, j) == 0.0
    ensures b.Share(i, j) == 0.0
  {
    OneWayDebt(b, n, i);
    if b.NetDebt(i) > 0.0 {
      ProRata(b.Cap(i), 0.0, b.NetDebt(i));
    }
  }

  /** A payer neither gains nor loses by another payer's turn. */
  lemma SettleSparesPayer(b: Book, n: set<int>, a: set<int>, i: int)
    requires b.Valid() && b.OneWay(n) && a <= n && i in n && i !in a
    ensures b.AfterSettle(a).Cap(i) == b.Cap(i)
    ensures b.AfterSettle(a).NetDebt(i) == b.NetDebt(i)
  {
    forall k <- a
      ensures Column(b.Shares(), i)(k) == 0.0
    {
      NoDebtNoShare(b, n, k, i);
    }
    SumZero(a, Column(b.Shares(), i));
    SumCongruent(b.cap.Keys, b.AfterSettle(a).OweRow(i), b.OweRow(i));
  }

  lemma SettleSparesShare(b: Book, n: set<int>, a: set<int>, i: int, k: int)
    requires b.Valid() && b.OneWay(n) && a <= n && i in n && i !in a && k !in a
    ensures b.AfterSettle(a).Share(i, k) == b.Share(i, k)
  {
    hide Book.AfterSettle, Book.NetDebt, Book.Cap, Part;
    SettleSparesPayer(b, n, a, i);
    assert b.AfterSettle(a).Owe(i, k) == b.Owe(i, k);
  }

  /** Paying by one more node extends the closed form. */
  lemma SettleMore(b: Book, n: set<int>, a: set<int>, i: int)
    requires b.Valid() && b.OneWay(n) && a <= n && i in n && i !in a
    ensures b.AfterSettle(a).AfterSettle({i}) == b.AfterSettle(a + {i})
  {
    hide Book.AfterSettle, Book.Valid;
    var b2 := b.AfterSettle(a).AfterSettle({i});
    var b3 := b.AfterSettle(a + {i});
    forall k <- b.cap ensures b2.cap[k] == b3.cap[k] {
      SettleMoreCash(b, n, a, i, k);
    }
    SameBook(b2, b3);
  }

  lemma SettleMoreCash(b: Book, n: set<int>, a: set<int>, i: int, k: int)
    requires b.Valid() && b.OneWay(n) && a <= n && i in n && i !in a && k in b.cap
    ensures b.AfterSettle(a).AfterSettle({i}).cap[k] == b.AfterSettle(a + {i}).cap[k]
  {
    hide Book.AfterSettle, Book.NetDebt, Part;
    var b1 := b.AfterSettle(a);
    SettleKeepsOneWay(b, n, a);
    SettleCash(b, a, k);
    SettleCash(b1, {i}, k);
    SettleCash(b, a + {i}, k);
    if k == i {
      SettleSparesPayer(b, n, a, i);
      OneWayDebt(b, n, i);
      OneWayDebt(b1, n, i);
    } else {
      SumSingle(Column(b1.Shares(), k), i);
      if k in a {
        NoDebtNoShare(b1, n, i, k);
      } else {
        SettleSparesShare(b, n, a, i, k);
        SumInsert(a, Column(b.Shares(), k), i);
      }
    }
  }

  /** A solvent payer simply repays. */
  lemma SolventSettleIsRepay(b: Book, i: int)
    requires b.Valid() && b.OneWay({i}) && !b.Insolvent(i)
    ensures b.AfterRepay({i}) == b.AfterSettle({i})
  {
    hide Book.AfterSettle, Book.AfterRepay, Book.NetDebt, Part;
    var r, t := b.AfterRepay({i}), b.AfterSettle({i});
    forall k <- b.cap ensures r.cap[k] == t.cap[k] {
      RepayCash(b, {i}, k);
      SettleCash(b, {i}, k);
      SumSingle(b.CreditRow(k), i);
      SumSingle(Column(b.Shares(), k), i);
    }
    forall k, j ensures r.Owe(k, j) == t.Owe(k, j) {
      assert b.Owe(k, j) == -b.Owe(j, k);
    }
    SameBook(r, t);
  }

  /** Writing back node by node: the nodes of `d` are done. */
  ghost function PartBack(b: Book, n: set<int>, c: map<int, real>, d: set<int>): (b': Book)
    requires b.Valid() && n <= b.cap.Keys && c.Keys == n && d <= n
    ensures b'.Valid() && b'.cap.Keys == b.cap.Keys
    ensures forall i <- b.cap :: b'.cap[i] == if i in d then c[i] else b.cap[i]
    ensures forall i, j :: b'.Owe(i, j) == if BackGone(n, d)(i, j) then 0.0 else b.Owe(i, j)
  {
    var b' := Book(map i | i in b.cap :: if i in d then c[i] else b.cap[i],
                   map p | p in b.owe :: if BackGone(n, d)(p.0, p.1) then 0.0 else b.owe[p]);
    assert forall i, j :: b'.Owe(i, j) == if BackGone(n, d)(i, j) then 0.0 else b.Owe(i, j);
    b'
  }

  ghost function BackGone(n: set<int>, d: set<int>): (int, int) -> bool {
    (i, j) => i in n && j in n && (i in d || j in d)
  }

  lemma PartBackAll(b: Book, n: set<int>, c: map<int, real>)
    requires b.Valid() && n <= b.cap.Keys && c.Keys == n
    ensures PartBack(b, n, c, {}) == b
    ensures PartBack(b, n, c, n) == b.WriteBack(n, c)
  {
    SameBook(PartBack(b, n, c, {}), b);
    SameBook(PartBack(b, n, c, n), b.WriteBack(n, c));
  }

  /** A sub-net without debts comes out as it went in. */
  lemma IdleSubNet(b: Book, n: set<int>)
    requires b.Valid() && n <= b.cap.Keys
    requires forall i, j :: i in n && j in n ==> b.Owe(i, j) == 0.0
    ensures Clear(b.Sub(n)) == b.Sub(n).cap
    ensures b.WriteBack(n, Clear(b.Sub(n))) == b
  {
    var sub := b.Sub(n);
    forall i <- n ensures sub.NetDebt(i) == 0.0 {
      SumZero(n, sub.OweRow(i));
    }
    assert sub.Winners() == {};
    SameBook(b.WriteBack(n, sub.cap), b);
  }

  /** After a round no single debt is left. */
  lemma RoundClearsEntry(b: Book, c: map<int, real>, i: int, j: int)
    requires b.Valid() && c.Keys == b.Losers()
    ensures b.Peeled(c).AfterSettle(b.Losers()).Owe(i, j) == 0.0
  {
    if i in b.Winners() && j in b.Winners() {
      PeeledAmongWinners(b, c, i, j);
    }
  }

  /** So every net debt is zero. */
  lemma RoundClearsDebts(b: Book, c: map<int, real>, i: int)
    requires b.Valid() && c.Keys == b.Losers() && i in b.cap
    ensures b.Peeled(c).AfterSettle(b.Losers()).NetDebt(i) == 0.0
  {
    var end := b.Peeled(c).AfterSettle(b.Losers());
    forall j <- b.cap.Keys
      ensures end.OweRow(i)(j) == 0.0
    {
      RoundClearsEntry(b, c, i, j);
    }
    SumZero(b.cap.Keys, end.OweRow(i));
  }

  /** The whole book after clearing: without a winner nothing happens, and otherwise it is one round. */
  ghost function Cleared(b: Book): (b': Book)
    requires b.Valid()
    ensures b'.Valid() && b'.cap == Clear(b)
  {
    if b.Winners() == {} then b else b.Peeled(Clear(b.SubNet())).AfterSettle(b.Losers())
  }

  ghost predicate NoRelations(b: Book) {
    forall i, j :: b.Owe(i, j) == 0.0
  }

  /** Clearing removes every relation exactly when there is a winner or there was no relation. */
  lemma RelationsGo(b: Book)
    requires b.Valid()
    ensures NoRelations(Cleared(b)) <==> b.Winners() != {} || NoRelations(b)
  {
    if b.Winners() != {} {
      hide Book.AfterSettle, Book.Peeled;
      forall i, j ensures Cleared(b).Owe(i, j) == 0.0 {
        RoundClearsEntry(b, Clear(b.SubNet()), i, j);
      }
    }
  }
}
