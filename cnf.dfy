/** Clauses over integer literals, their meaning under a solver model, and the weighted
    clause store (hard clauses, weighted soft clauses, and the highest variable seen) that the
    encoder fills in and hands to the MaxSAT solver. */
module Cnf {
  /** A literal is a non-zero integer: `v` stands for variable `v`, `-v` for its negation.
      A clause is the disjunction of its literals. */
  type Clause = seq<int>

  function Abs(x: int): nat { if x < 0 then -x else x }

  function Max(a: int, b: int): (r: int)
    ensures r >= a && r >= b && (r == a || r == b)
  {
    if a < b then b else a
  }

  /** The largest variable a clause mentions (0 for the empty clause). */
  function MaxVar(c: Clause): nat
  {
    if c == [] then 0 else Max(Abs(c[0]), MaxVar(c[1..]))
  }

  /** Every variable of the clause is at most `n`. */
  ghost predicate ClauseBelow(c: Clause, n: int)
  {
    forall l :: l in c ==> Abs(l) <= n
  }

  /** Every variable of every clause is at most `n`. */
  ghost predicate Bounds(cs: seq<Clause>, n: int)
  {
    forall i {:trigger ClauseBelow(cs[i], n)} :: 0 <= i < |cs| ==> ClauseBelow(cs[i], n)
  }

  /** `n` is the least bound of the variables of the clauses. */
  ghost predicate IsNv(cs: seq<Clause>, n: nat)
  {
    Bounds(cs, n) && forall b: nat :: Bounds(cs, b) ==> n <= b
  }

  /** The largest variable any of the clauses mentions (0 if there is none): the `nv`
      counter of a clause store. */
  ghost function Nv(cs: seq<Clause>): nat
  {
    NvExists(cs);
    var n: nat :| IsNv(cs, n); n
  }

  /** MaxVar bounds every variable of the clause and is one of them. */
  lemma {:induction false} MaxVarBounds(c: Clause)
    ensures forall l :: l in c ==> Abs(l) <= MaxVar(c)
    ensures c != [] ==> exists l :: l in c && Abs(l) == MaxVar(c)
  {
    if c != [] {
      MaxVarBounds(c[1..]);
      assert forall l :: l in c ==> l == c[0] || l in c[1..];
      if Abs(c[0]) < MaxVar(c[1..]) {
        var l0 :| l0 in c[1..] && Abs(l0) == MaxVar(c[1..]);
        assert l0 in c;
      } else {
        assert c[0] in c;
      }
    }
  }

  lemma {:induction false} MaxVarAtMost(c: Clause, b: nat)
    requires forall l :: l in c ==> Abs(l) <= b
    ensures MaxVar(c) <= b
  {
    if c != [] {
      assert forall l :: l in c[1..] ==> l in c;
      assert c[0] in c;
      MaxVarAtMost(c[1..], b);
    }
  }

  /** Every sequence of clauses has a least bound: 0 for no clauses, otherwise the larger of
      the first clause's largest variable and the least bound of the rest. */
  lemma {:induction false} NvExists(cs: seq<Clause>)
    ensures exists n: nat :: IsNv(cs, n)
  {
    if cs == [] {
      assert IsNv(cs, 0);
    } else {
      var rest := cs[1..];
      NvExists(rest);
      var n0: nat :| IsNv(rest, n0);
      var n := Max(MaxVar(cs[0]), n0);
      forall i | 0 <= i < |cs| ensures ClauseBelow(cs[i], n) {
        if i == 0 {
          MaxVarBounds(cs[0]);
        } else {
          assert cs[i] == rest[i - 1];
          assert ClauseBelow(rest[i - 1], n0);
        }
      }
      forall b: nat | Bounds(cs, b) ensures n <= b {
        forall i | 0 <= i < |rest| ensures ClauseBelow(rest[i], b) {
          assert rest[i] == cs[i + 1];
          assert ClauseBelow(cs[i + 1], b);
        }
        assert Bounds(rest, b);
        assert ClauseBelow(cs[0], b);
        MaxVarAtMost(cs[0], b);
      }
      assert IsNv(cs, n);
    }
  }

  /** The counter bounds every variable of every clause. */
  lemma NvBounds(cs: seq<Clause>)
    ensures forall c, l :: c in cs && l in c ==> Abs(l) <= Nv(cs)
  {
    assert IsNv(cs, Nv(cs));
    forall c, l | c in cs && l in c ensures Abs(l) <= Nv(cs) {
      var i :| 0 <= i < |cs| && cs[i] == c;
      assert ClauseBelow(cs[i], Nv(cs));
    }
  }

  /** The counter is at least the largest variable of each of the clauses. */
  lemma NvAttained(cs: seq<Clause>, c: Clause)
    requires c in cs
    ensures MaxVar(c) <= Nv(cs)
  {
    NvBounds(cs);
    MaxVarAtMost(c, Nv(cs));
  }

  /** The counter is the least bound of the variables. */
  lemma NvAtMost(cs: seq<Clause>, b: nat)
    requires forall c, l :: c in cs && l in c ==> Abs(l) <= b
    ensures Nv(cs) <= b
  {
    assert IsNv(cs, Nv(cs));
    forall i | 0 <= i < |cs| ensures ClauseBelow(cs[i], b) {
      assert cs[i] in cs;
    }
    assert Bounds(cs, b);
  }

  /** The counter of a concatenation is the larger of the two counters. */
  lemma NvConcat(a: seq<Clause>, b: seq<Clause>)
    ensures Nv(a + b) == Max(Nv(a), Nv(b))
  {
    NvBounds(a);
    NvBounds(b);
    NvBounds(a + b);
    assert forall c :: c in a + b ==> c in a || c in b;
    NvAtMost(a + b, Max(Nv(a), Nv(b)));
    NvAtMost(a, Nv(a + b));
    NvAtMost(b, Nv(a + b));
  }

  /** A model of each clause in turn is a model of all of them. */
  lemma SatisfiesEach(m: set<int>, cs: seq<Clause>)
    requires forall i :: 0 <= i < |cs| ==> Satisfies(m, cs[i])
    ensures SatisfiesAll(m, cs)
  {
    forall c | c in cs ensures Satisfies(m, c) {
      var i :| 0 <= i < |cs| && cs[i] == c;
    }
  }

  /** A model of all the clauses satisfies each of them. */
  lemma SatisfiesOne(m: set<int>, cs: seq<Clause>, c: Clause)
    requires SatisfiesAll(m, cs) && c in cs
    ensures Satisfies(m, c)
  {
  }

  /** A clause of the second part is a clause of the concatenation. */
  lemma InSecond(a: seq<Clause>, b: seq<Clause>, c: Clause)
    requires c in b
    ensures c in a + b
  {
  }

  /** No clauses, no variables. */
  lemma NvEmpty()
    ensures Nv([]) == 0
  {
    NvAtMost([], 0);
  }

  /** Appending a clause raises the counter to cover it. */
  lemma NvSnoc(cs: seq<Clause>, c: Clause)
    ensures Nv(cs + [c]) == Max(Nv(cs), MaxVar(c))
  {
    NvConcat(cs, [c]);
    MaxVarBounds(c);
    NvAttained([c], c);
    NvAtMost([c], MaxVar(c));
  }

  /** One more clause of `cs` appended after `h`. */
  lemma ExtendStep(h: seq<Clause>, cs: seq<Clause>, i: nat)
    requires i < |cs|
    ensures h + cs[..i] + [cs[i]] == h + cs[..i + 1]
    ensures Nv(cs[..i + 1]) == Max(Nv(cs[..i]), MaxVar(cs[i]))
  {
    assert cs[..i + 1] == cs[..i] + [cs[i]];
    NvSnoc(cs[..i], cs[i]);
  }

  /** A solver model, as the set of literals it reports: never a variable and its negation. */
  ghost predicate Consistent(m: set<int>)
  {
    forall v :: v in m ==> -v !in m
  }

  /** A clause holds in a model when one of its literals is reported. */
  predicate Satisfies(m: set<int>, c: Clause)
  {
    exists l :: l in c && l in m
  }

  predicate SatisfiesAll(m: set<int>, cs: seq<Clause>)
  {
    forall c :: c in cs ==> Satisfies(m, c)
  }

  /** The weighted clause store: hard clauses, soft clauses with their weights, and `nv`,
      the largest variable in any clause appended so far. */
  class Wcnf {
    var hard: seq<Clause>
    var soft: seq<Clause>
    var weights: seq<nat>
    var nv: nat

    ghost predicate Valid()
      reads this
    {
      nv == Nv(hard + soft) && |weights| == |soft|
    }

    constructor ()
      ensures Valid() && hard == [] && soft == [] && weights == []
    {
      hard, soft, weights, nv := [], [], [], 0;
      NvEmpty();
      new;
      assert hard + soft == [];
    }

    /** Appends a hard clause and raises `nv` to cover its variables. */
    method Append(c: Clause)
      requires Valid()
      modifies this
      ensures Valid()
      ensures hard == old(hard) + [c] && soft == old(soft) && weights == old(weights)
      ensures nv == Max(old(nv), MaxVar(c))
    {
      ghost var h, so := hard, soft;
      NvConcat(h, so);
      NvSnoc(h, c);
      NvConcat(h + [c], so);
      nv := Max(nv, MaxVar(c));
      hard := hard + [c];
    }

    /** Appends a soft clause with its weight and raises `nv` to cover its variables. */
    method AppendSoft(c: Clause, weight: nat)
      requires Valid()
      modifies this
      ensures Valid()
      ensures hard == old(hard) && soft == old(soft) + [c] && weights == old(weights) + [weight]
      ensures nv == Max(old(nv), MaxVar(c))
    {
      ghost var h, so := hard, soft;
      assert h + (so + [c]) == (h + so) + [c];
      NvSnoc(h + so, c);
      nv := Max(nv, MaxVar(c));
      soft := soft + [c];
      weights := weights + [weight];
    }

    /** Appends hard clauses one by one. */
    method Extend(cs: seq<Clause>)
      requires Valid()
      modifies this
      ensures Valid()
      ensures hard == old(hard) + cs && soft == old(soft) && weights == old(weights)
      ensures nv == Max(old(nv), Nv(cs))
    {
      NvEmpty();
      assert cs[..0] == [];
      var i := 0;
      while i < |cs|
        invariant 0 <= i <= |cs|
        invariant Valid()
        invariant hard == old(hard) + cs[..i] && soft == old(soft) && weights == old(weights)
        invariant nv == Max(old(nv), Nv(cs[..i]))
      {
        ExtendStep(old(hard), cs, i);
        Append(cs[i]);
        i := i + 1;
      }
      assert cs[..i] == cs;
    }
  }
}
