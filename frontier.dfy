/**
 * The priority frontier of the search: a bag of (tentative distance, vertex)
 * entries with no decrease-key, from which an entry of least distance is
 * removed.  Which of several least entries comes out is left open.
 */
module Frontier {
  import opened Graphs

  datatype Entry = Entry(key: Weight, vertex: Vertex)

  type Queue = multiset<Entry>

  /** e is an entry of q with no smaller key in q. */
  predicate IsLeast(e: Entry, q: Queue)
  {
    e in q && forall f :: f in q ==> e.key <= f.key
  }

  /** A non-empty frontier has a least entry. */
  lemma LeastExists(q: Queue)
    requires |q| > 0
    ensures exists e :: IsLeast(e, q)
    decreases |q|
  {
    var x :| x in q;
    var rest := q - multiset{x};
    if |rest| == 0 {
      assert rest == multiset{} && q == rest + multiset{x};
      assert IsLeast(x, q);
    } else {
      LeastExists(rest);
      var m :| IsLeast(m, rest);
      if m.key <= x.key {
        assert IsLeast(m, q);
      } else {
        assert IsLeast(x, q);
      }
    }
  }

  /** Takes the top entry off the frontier: one least entry, and the frontier without it. */
  method PopMin(q: Queue) returns (top: Entry, rest: Queue)
    requires |q| > 0
    ensures top in q && forall f :: f in q ==> top.key <= f.key
    ensures rest == q - multiset{top}
    ensures |rest| == |q| - 1
  {
    LeastExists(q);
    top :| IsLeast(top, q);
    rest := q - multiset{top};
  }
}
