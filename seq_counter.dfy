/** The "at most one of these literals is true" constraint, in the sequential-counter
    encoding of Sinz ("Towards an Optimal CNF Encoding of Boolean Cardinality Constraints",
    CP 2005) with bound 1. For literals x0 .. x(n-1) it introduces the counter variables
    s0 .. s(n-2), numbered top+1 .. top+n-1, where sk means "one of x0 .. xk is true":

      (-x0 | s0)
      for 0 < k < n-1:  (-xk | sk), (-s(k-1) | sk), (-xk | -s(k-1))
      (-x(n-1) | -s(n-2))

    One or no literal needs no clause and no counter variable. */
module SeqCounter {
  import opened Cnf

  /** The k-th counter variable of an encoding that allocates above `top`. */
  function Aux(top: int, k: nat): int { top + 1 + k }

  /** The three clauses that carry the count past literal k, for 0 < k < n-1. */
  function Link(lits: seq<int>, top: int, k: nat): seq<Clause>
    requires 1 <= k < |lits|
  {
    [[-lits[k], Aux(top, k)], [-Aux(top, k - 1), Aux(top, k)], [-lits[k], -Aux(top, k - 1)]]
  }

  /** The links for k = i .. n-2. */
  function Chain(lits: seq<int>, top: int, i: nat): seq<Clause>
    requires 1 <= i < |lits|
    decreases |lits| - i
  {
    if i == |lits| - 1 then [] else Link(lits, top, i) + Chain(lits, top, i + 1)
  }

  /** The bound-1 sequential-counter encoding of "at most one of `lits`", with its counters
      numbered top+1, top+2, ...: the stand-in for `CardEnc.atmost(lits, bound=1, top_id=top,
      encoding=seqcounter)`, whose own clause numbering is not part of this model. */
  function AtMostOne(lits: seq<int>, top: int): seq<Clause>
  {
    if |lits| <= 1 then []
    else [[-lits[0], Aux(top, 0)]] + Chain(lits, top, 1) + [[-lits[|lits| - 1], -Aux(top, |lits| - 2)]]
  }

  lemma {:induction false} ChainHas(lits: seq<int>, top: int, i: nat, k: nat)
    requires 1 <= i <= k < |lits| - 1
    ensures forall c :: c in Link(lits, top, k) ==> c in Chain(lits, top, i)
    decreases k - i
  {
    if i < k {
      ChainHas(lits, top, i + 1, k);
    }
  }

  lemma {:induction false} ChainOnly(lits: seq<int>, top: int, i: nat, c: Clause)
    requires 1 <= i < |lits| && c in Chain(lits, top, i)
    ensures exists k :: i <= k < |lits| - 1 && c in Link(lits, top, k)
    decreases |lits| - i
  {
    if c !in Link(lits, top, i) {
      ChainOnly(lits, top, i + 1, c);
    }
  }

  /** Every clause of the encoding is the first clause, a link clause or the last clause. */
  lemma AtMostOneShape(lits: seq<int>, top: int, c: Clause)
    requires c in AtMostOne(lits, top)
    ensures |lits| >= 2
    ensures || c == [-lits[0], Aux(top, 0)]
            || c == [-lits[|lits| - 1], -Aux(top, |lits| - 2)]
            || exists k :: 1 <= k < |lits| - 1 && c in Link(lits, top, k)
  {
    if c != [-lits[0], Aux(top, 0)] && c != [-lits[|lits| - 1], -Aux(top, |lits| - 2)] {
      ChainOnly(lits, top, 1, c);
    }
  }

  /** The encoding uses only the negated input literals and the counter variables
      top+1 .. top+n-1: nothing at or below `top` is allocated. */
  lemma AtMostOneVariables(lits: seq<int>, top: nat, c: Clause, l: int)
    requires c in AtMostOne(lits, top) && l in c
    ensures (exists i :: 0 <= i < |lits| && l == -lits[i]) || top < Abs(l) <= top + |lits| - 1
  {
    AtMostOneShape(lits, top, c);
  }

  /** The encoding has 3n - 4 clauses for n >= 2 literals. */
  lemma {:induction false} AtMostOneSize(lits: seq<int>, top: int)
    ensures |AtMostOne(lits, top)| == if |lits| <= 1 then 0 else 3 * |lits| - 4
  {
    if |lits| >= 2 {
      ChainSize(lits, top, 1);
    }
  }

  lemma {:induction false} ChainSize(lits: seq<int>, top: int, i: nat)
    requires 1 <= i < |lits|
    ensures |Chain(lits, top, i)| == 3 * (|lits| - 1 - i)
    decreases |lits| - i
  {
    if i < |lits| - 1 {
      ChainSize(lits, top, i + 1);
    }
  }

  /** The largest variable of the encoding, when the inputs lie at or below `top`, is the
      last counter variable. */
  lemma AtMostOneNv(lits: seq<int>, top: nat)
    requires forall i :: 0 <= i < |lits| ==> Abs(lits[i]) <= top
    ensures Nv(AtMostOne(lits, top)) == if |lits| <= 1 then 0 else top + |lits| - 1
  {
    var cs := AtMostOne(lits, top);
    if |lits| >= 2 {
      var last := [-lits[|lits| - 1], -Aux(top, |lits| - 2)];
      assert last in cs;
      assert -Aux(top, |lits| - 2) in last;
      NvAttained(cs, last);
      forall c, l | c in cs && l in c ensures Abs(l) <= top + |lits| - 1 {
        AtMostOneVariables(lits, top, c, l);
      }
      NvAtMost(cs, top + |lits| - 1);
    } else {
      assert cs == [];
      NvEmpty();
    }
  }

  /** Once literal i is true in a model of the encoding, every later counter is true. */
  lemma {:induction false} CountersPropagate(lits: seq<int>, top: int, m: set<int>, i: nat, k: nat)
    requires Consistent(m) && SatisfiesAll(m, AtMostOne(lits, top))
    requires i <= k <= |lits| - 2 && lits[i] in m
    ensures Aux(top, k) in m
    decreases k
  {
    var cs := AtMostOne(lits, top);
    if k == i {
      var c := [-lits[k], Aux(top, k)];
      if k == 0 {
        assert c in cs;
      } else {
        ChainHas(lits, top, 1, k);
        assert c in Link(lits, top, k);
      }
      assert Satisfies(m, c);
    } else {
      CountersPropagate(lits, top, m, i, k - 1);
      var c := [-Aux(top, k - 1), Aux(top, k)];
      ChainHas(lits, top, 1, k);
      assert c in Link(lits, top, k);
      assert Satisfies(m, c);
    }
  }

  /** Soundness: in any model of the encoding, no two of the literals are both true. */
  lemma AtMostOneSound(lits: seq<int>, top: int, m: set<int>)
    requires Consistent(m) && SatisfiesAll(m, AtMostOne(lits, top))
    ensures forall i, j :: 0 <= i < j < |lits| && lits[i] in m ==> lits[j] !in m
  {
    var cs := AtMostOne(lits, top);
    forall i, j | 0 <= i < j < |lits| && lits[i] in m ensures lits[j] !in m {
      CountersPropagate(lits, top, m, i, j - 1);
      var c := [-lits[j], -Aux(top, j - 1)];
      if j == |lits| - 1 {
        assert c in cs;
      } else {
        ChainHas(lits, top, 1, j);
        assert c in Link(lits, top, j);
      }
      assert Satisfies(m, c);
    }
  }

  /** Counter k of the standard solution: one of literals 0 .. k is true. */
  predicate SeenUpTo(lits: seq<int>, m: set<int>, k: nat)
  {
    exists j :: 0 <= j <= k && j < |lits| && lits[j] in m
  }

  /** The values of the counter variables that extend a model of the literals. */
  function CounterModel(lits: seq<int>, top: int, m: set<int>): set<int>
  {
    set k: nat | k < |lits| - 1 :: if SeenUpTo(lits, m, k) then Aux(top, k) else -Aux(top, k)
  }

  lemma CounterModelAt(lits: seq<int>, top: nat, m: set<int>, k: nat)
    requires k < |lits| - 1
    ensures SeenUpTo(lits, m, k) ==> Aux(top, k) in CounterModel(lits, top, m)
    ensures !SeenUpTo(lits, m, k) ==> -Aux(top, k) in CounterModel(lits, top, m)
  {
  }

  /** One clause of the encoding holds once the counters take their standard values. */
  lemma CompleteClause(lits: seq<int>, top: nat, m: set<int>, c: Clause)
    requires forall i :: 0 <= i < |lits| ==> lits[i] in m || -lits[i] in m
    requires forall i, j :: 0 <= i < j < |lits| && lits[i] in m ==> lits[j] !in m
    requires c in AtMostOne(lits, top)
    ensures Satisfies(m + CounterModel(lits, top, m), c)
  {
    AtMostOneShape(lits, top, c);
    var n := |lits|;
    if c == [-lits[0], Aux(top, 0)] {
      FirstClauseHolds(lits, top, m);
    } else if c == [-lits[n - 1], -Aux(top, n - 2)] {
      LastClauseHolds(lits, top, m);
    } else {
      var k :| 1 <= k < n - 1 && c in Link(lits, top, k);
      LinkHolds(lits, top, m, k, c);
    }
  }

  lemma FirstClauseHolds(lits: seq<int>, top: nat, m: set<int>)
    requires 2 <= |lits| && (lits[0] in m || -lits[0] in m)
    ensures Satisfies(m + CounterModel(lits, top, m), [-lits[0], Aux(top, 0)])
  {
    var c := [-lits[0], Aux(top, 0)];
    var mm := m + CounterModel(lits, top, m);
    CounterModelAt(lits, top, m, 0);
    if lits[0] in m {
      assert SeenUpTo(lits, m, 0);
      assert c[1] in mm;
    } else {
      assert c[0] in mm;
    }
  }

  lemma LastClauseHolds(lits: seq<int>, top: nat, m: set<int>)
    requires 2 <= |lits|
    requires forall i :: 0 <= i < |lits| ==> lits[i] in m || -lits[i] in m
    requires forall i, j :: 0 <= i < j < |lits| && lits[i] in m ==> lits[j] !in m
    ensures Satisfies(m + CounterModel(lits, top, m), [-lits[|lits| - 1], -Aux(top, |lits| - 2)])
  {
    var n := |lits|;
    var c := [-lits[n - 1], -Aux(top, n - 2)];
    var mm := m + CounterModel(lits, top, m);
    CounterModelAt(lits, top, m, n - 2);
    if lits[n - 1] in m {
      assert !SeenUpTo(lits, m, n - 2);
      assert c[1] in mm;
    } else {
      assert c[0] in mm;
    }
  }

  lemma LinkHolds(lits: seq<int>, top: nat, m: set<int>, k: nat, c: Clause)
    requires 1 <= k < |lits| - 1 && c in Link(lits, top, k)
    requires forall i :: 0 <= i < |lits| ==> lits[i] in m || -lits[i] in m
    requires forall i, j :: 0 <= i < j < |lits| && lits[i] in m ==> lits[j] !in m
    ensures Satisfies(m + CounterModel(lits, top, m), c)
  {
    var mm := m + CounterModel(lits, top, m);
    CounterModelAt(lits, top, m, k);
    CounterModelAt(lits, top, m, k - 1);
    if c == [-lits[k], Aux(top, k)] {
      assert lits[k] in m ==> SeenUpTo(lits, m, k);
    } else if c == [-Aux(top, k - 1), Aux(top, k)] {
      assert SeenUpTo(lits, m, k - 1) ==> SeenUpTo(lits, m, k);
    } else {
      assert lits[k] in m ==> !SeenUpTo(lits, m, k - 1);
    }
    assert c[0] in mm || c[1] in mm;
  }

  /** The counter values use only the fresh variables top+1 .. top+n-1, and never both a
      variable and its negation. */
  lemma CounterModelFresh(lits: seq<int>, top: nat, m: set<int>)
    ensures forall l :: l in CounterModel(lits, top, m) ==> top < Abs(l) < top + |lits|
    ensures forall v :: v in CounterModel(lits, top, m) ==> -v !in CounterModel(lits, top, m)
  {
    var cm := CounterModel(lits, top, m);
    forall v | v in cm ensures -v !in cm {
      var k: nat :| k < |lits| - 1 && v == (if SeenUpTo(lits, m, k) then Aux(top, k) else -Aux(top, k));
      forall k2: nat | k2 < |lits| - 1
        ensures (if SeenUpTo(lits, m, k2) then Aux(top, k2) else -Aux(top, k2)) != -v
      {
      }
    }
  }

  /** Completeness: when at most one of the literals is true, the counters can be given values
      that satisfy every clause, without touching any variable at or below `top`. */
  lemma AtMostOneComplete(lits: seq<int>, top: nat, m: set<int>)
    requires forall i :: 0 <= i < |lits| ==> lits[i] in m || -lits[i] in m
    requires forall i, j :: 0 <= i < j < |lits| && lits[i] in m ==> lits[j] !in m
    ensures SatisfiesAll(m + CounterModel(lits, top, m), AtMostOne(lits, top))
    ensures forall l :: l in CounterModel(lits, top, m) ==> top < Abs(l) < top + |lits|
    ensures Consistent(m) && (forall l :: l in m ==> Abs(l) <= top) ==>
              Consistent(m + CounterModel(lits, top, m))
  {
    forall c | c in AtMostOne(lits, top) ensures Satisfies(m + CounterModel(lits, top, m), c) {
      CompleteClause(lits, top, m, c);
    }
    CounterModelFresh(lits, top, m);
  }
}
