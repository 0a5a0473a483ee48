/** Small facts about finite sets and maps. */
module Sets {

  lemma NonEmpty(s: set<int>)
    requires s != {}
    ensures exists x :: x in s
  {
    assert (forall x :: x !in s) ==> s == {};
  }

  lemma SubsetIsSmaller<T>(a: set<T>, b: set<T>)
    requires a < b
    ensures |a| < |b|
  {
    assert b == (b - a) + a;
    assert b - a != {};
  }

  /** One element fewer to do is one element more done. */
  lemma OneMoreDone<T>(all: set<T>, todo: set<T>, x: T)
    requires x in todo && todo <= all
    ensures all - (todo - {x}) == all - todo + {x}
  {
  }

  /** All ordered pairs of elements of `s`. */
  ghost function Pairs(s: set<int>): (ps: set<(int, int)>)
    ensures forall p :: p in ps <==> p.0 in s && p.1 in s
  {
    var ps := set i, j | i in s && j in s :: (i, j);
    assert forall p :: p in ps <==> p.0 in s && p.1 in s by {
      forall p: (int, int) ensures p in ps <==> p.0 in s && p.1 in s {
        if p.0 in s && p.1 in s {
          var i, j := p.0, p.1;
          assert (i, j) in ps;
        }
      }
    }
    ps
  }

  lemma SameMap<V>(m: map<int, V>, m': map<int, V>)
    requires m.Keys == m'.Keys
    requires forall k <- m :: m[k] == m'[k]
    ensures m == m'
  {
    forall k | k in m.Keys ensures m[k] == m'[k] {
    }
  }
}
