/** Cardinality blocks emitted one after another above a watermark, as the two encoding loops
    of `schedule_scrum_meetings` do: each at-most-one encoding draws its counter variables from
    just above `top`, and `top` is then raised past every variable used so far. */
module Cardinality {
  import opened Cnf
  import opened SeqCounter

  /** One cardinality block: an at-most-one encoding over `lits`, preceded by the clause
      `lits` itself ("at least one") when `atLeastOne` is set. */
  datatype Block = Block(atLeastOne: bool, lits: seq<int>)

  /** The hard clauses emitted so far and the watermark `top`: the largest ID no cardinality
      encoding may take as a fresh counter variable. */
  datatype Enc = Enc(clauses: seq<Clause>, top: int)

  function BlockClauses(b: Block, top: int): seq<Clause>
  {
    (if b.atLeastOne then [b.lits] else []) + AtMostOne(b.lits, top)
  }

  /** Emits one block above the watermark, then raises the watermark to cover every clause
      so far: `top = max(top, cnf.nv)`. */
  ghost function Apply(e: Enc, b: Block): Enc
  {
    var cs := e.clauses + BlockClauses(b, e.top);
    Enc(cs, Max(e.top, Nv(cs)))
  }

  /** Emits the blocks in order. */
  ghost function Fold(e: Enc, bs: seq<Block>): Enc
    decreases |bs|
  {
    if bs == [] then e else Apply(Fold(e, bs[..|bs| - 1]), bs[|bs| - 1])
  }

  /** The number of counter variables the at-most-one encoding of a block introduces. */
  function Counters(b: Block): nat
  {
    if |b.lits| <= 1 then 0 else |b.lits| - 1
  }

  /** Every literal of `lits` names a variable at or below `bound`. */
  predicate Below(lits: seq<int>, bound: int)
  {
    forall i :: 0 <= i < |lits| ==> Abs(lits[i]) <= bound
  }

  /** The watermark never falls. */
  lemma {:induction false} FoldTopGrows(e: Enc, bs: seq<Block>)
    ensures e.top <= Fold(e, bs).top
    decreases |bs|
  {
    if bs != [] {
      FoldTopGrows(e, bs[..|bs| - 1]);
    }
  }

  /** Later blocks only add clauses and raise the watermark. */
  lemma {:induction false} FoldKeeps(e: Enc, bs: seq<Block>, k: nat)
    requires k <= |bs|
    ensures forall c :: c in Fold(e, bs[..k]).clauses ==> c in Fold(e, bs).clauses
    ensures Fold(e, bs[..k]).top <= Fold(e, bs).top
    decreases |bs|
  {
    if k == |bs| {
      assert bs[..k] == bs;
    } else {
      var init := bs[..|bs| - 1];
      assert init[..k] == bs[..k];
      FoldKeeps(e, init, k);
    }
  }

  /** The blocks up to i are those before i, then block i. */
  lemma FoldNext(e: Enc, bs: seq<Block>, i: nat)
    requires i < |bs|
    ensures Fold(e, bs[..i + 1]) == Apply(Fold(e, bs[..i]), bs[i])
  {
    var pre := bs[..i + 1];
    assert pre[..|pre| - 1] == bs[..i];
  }

  /** Emitting two lists one after the other is emitting their concatenation. */
  lemma {:induction false} FoldConcat(e: Enc, xs: seq<Block>, ys: seq<Block>)
    ensures Fold(e, xs + ys) == Fold(Fold(e, xs), ys)
    decreases |ys|
  {
    if ys == [] {
      assert xs + ys == xs;
    } else {
      var init := ys[..|ys| - 1];
      FoldConcat(e, xs, init);
      assert (xs + ys)[..|xs + ys| - 1] == xs + init;
    }
  }

  /** Block i is emitted whole, above the watermark reached after the blocks before it. */
  lemma FoldContains(e: Enc, bs: seq<Block>, i: nat)
    requires i < |bs|
    ensures e.top <= Fold(e, bs[..i]).top
    ensures forall c :: c in BlockClauses(bs[i], Fold(e, bs[..i]).top) ==> c in Fold(e, bs).clauses
  {
    FoldTopGrows(e, bs[..i]);
    FoldNext(e, bs, i);
    FoldKeeps(e, bs, i + 1);
  }

  /** Every block of the list is emitted whole, above the starting watermark. */
  lemma FoldHas(e: Enc, bs: seq<Block>, b: Block) returns (t: int)
    requires b in bs
    ensures e.top <= t && forall c :: c in BlockClauses(b, t) ==> c in Fold(e, bs).clauses
  {
    var i :| 0 <= i < |bs| && bs[i] == b;
    FoldContains(e, bs, i);
    t := Fold(e, bs[..i]).top;
  }

  /** The watermark ends at or above the last counter of the block. */
  lemma ApplyCovers(e: Enc, b: Block)
    requires 0 <= e.top && Below(b.lits, e.top)
    ensures e.top + Counters(b) <= Apply(e, b).top
  {
    var alo: seq<Clause> := if b.atLeastOne then [b.lits] else [];
    var amo := AtMostOne(b.lits, e.top);
    assert BlockClauses(b, e.top) == alo + amo;
    NvConcat(e.clauses, alo + amo);
    NvConcat(alo, amo);
    AtMostOneNv(b.lits, e.top);
  }

  /** When no clause so far and no literal of the block lies above the watermark, the block's
      counters are exactly the next `Counters(b)` IDs, and the watermark ends on the last. */
  lemma ApplyWatermark(e: Enc, b: Block)
    requires 0 <= e.top && Nv(e.clauses) <= e.top && Below(b.lits, e.top)
    ensures Apply(e, b).top == e.top + Counters(b)
  {
    var alo: seq<Clause> := if b.atLeastOne then [b.lits] else [];
    var amo := AtMostOne(b.lits, e.top);
    assert BlockClauses(b, e.top) == alo + amo;
    NvConcat(e.clauses, alo + amo);
    NvConcat(alo, amo);
    if b.atLeastOne {
      forall l | l in b.lits ensures Abs(l) <= e.top {
        var i :| 0 <= i < |b.lits| && b.lits[i] == l;
      }
      MaxVarAtMost(b.lits, e.top);
      NvSnoc([], b.lits);
      assert [] + [b.lits] == alo;
    }
    AtMostOneNv(b.lits, e.top);
  }

  /** The counters of distinct blocks occupy disjoint ID ranges above the starting watermark:
      block i's counters `Fold(e, bs[..i]).top + 1 .. + Counters(bs[i])` all lie at or below
      the watermark from which any later block j draws its own. */
  lemma CountersDisjoint(e: Enc, bs: seq<Block>, i: nat, j: nat)
    requires 0 <= e.top && Nv(e.clauses) <= e.top
    requires forall b :: b in bs ==> Below(b.lits, e.top)
    requires i < j <= |bs|
    ensures e.top <= Fold(e, bs[..i]).top
    ensures Fold(e, bs[..i]).top + Counters(bs[i]) <= Fold(e, bs[..j]).top
  {
    var ei := Fold(e, bs[..i]);
    FoldTopGrows(e, bs[..i]);
    assert bs[i] in bs;
    ApplyCovers(ei, bs[i]);
    FoldNext(e, bs, i);
    var bj := bs[..j];
    assert bj[..i + 1] == bs[..i + 1];
    FoldKeeps(e, bj, i + 1);
  }

  /** A model extends to one of a larger set of literals without losing any clause. */
  lemma SatisfiesMore(m: set<int>, m': set<int>, cs: seq<Clause>)
    requires m <= m' && SatisfiesAll(m, cs)
    ensures SatisfiesAll(m', cs)
  {
    forall c | c in cs ensures Satisfies(m', c) {
      var l :| l in c && l in m;
    }
  }

  /** No literal of the model names a variable above `bound`. */
  ghost predicate Within(m: set<int>, bound: int)
  {
    forall l :: l in m ==> Abs(l) <= bound
  }

  /** What a block says in a model of its clauses: one of its literals is true if it asks for
      one, and no two are. */
  lemma BlockMeaning(b: Block, t: int, m: set<int>)
    requires Consistent(m) && SatisfiesAll(m, BlockClauses(b, t))
    ensures b.atLeastOne ==> exists i :: 0 <= i < |b.lits| && b.lits[i] in m
    ensures forall i, j :: 0 <= i < j < |b.lits| && b.lits[i] in m ==> b.lits[j] !in m
  {
    if b.atLeastOne {
      assert b.lits in BlockClauses(b, t);
      var l :| l in b.lits && l in m;
    }
    AtMostOneSound(b.lits, t, m);
  }

  /** What a problem assignment `m0` must give each block for the encoding to admit it: every
      literal decided, at most one true, and one true where "at least one" is asked. */
  ghost predicate Admits(m0: set<int>, b: Block)
  {
    && (forall i :: 0 <= i < |b.lits| ==> b.lits[i] in m0 || -b.lits[i] in m0)
    && (forall i, j :: 0 <= i < j < |b.lits| && b.lits[i] in m0 ==> b.lits[j] !in m0)
    && (b.atLeastOne ==> exists i :: 0 <= i < |b.lits| && b.lits[i] in m0)
  }

  /** A model that sets exactly the k-th of the literals true, and the others false, admits
      an "exactly one" block over them. */
  lemma AdmitsOnly(m0: set<int>, lits: seq<int>, k: nat)
    requires k < |lits|
    requires forall i :: 0 <= i < |lits| ==> (lits[i] in m0 <==> i == k) && (-lits[i] in m0 <==> i != k)
    ensures Admits(m0, Block(true, lits))
  {
    assert lits[k] in m0;
  }

  /** One block: values for its counters extend a model of the clauses so far. */
  lemma ApplyComplete(e: Enc, b: Block, m0: set<int>, m: set<int>) returns (m': set<int>)
    requires 0 <= e.top && Below(b.lits, e.top) && Admits(m0, b)
    requires m0 <= m && Consistent(m) && SatisfiesAll(m, e.clauses) && Within(m, e.top)
    ensures m <= m' && Consistent(m') && SatisfiesAll(m', Apply(e, b).clauses)
    ensures Within(m', Apply(e, b).top)
  {
    var lits := b.lits;
    forall i | 0 <= i < |lits| ensures lits[i] in m <==> lits[i] in m0 {
      if lits[i] !in m0 {
        assert -lits[i] in m;
      }
    }
    AtMostOneComplete(lits, e.top, m);
    m' := m + CounterModel(lits, e.top, m);
    SatisfiesMore(m, m', e.clauses);
    forall c | c in BlockClauses(b, e.top) ensures Satisfies(m', c) {
      if c !in AtMostOne(lits, e.top) {
        var i :| 0 <= i < |lits| && lits[i] in m0;
        assert lits[i] in c && lits[i] in m';
      }
    }
    ApplyCovers(e, b);
  }

  /** Completeness of the emitted encoding: any consistent assignment to the variables at or
      below the starting watermark that every block admits extends, by values for the counter
      variables alone, to a model of every emitted clause. */
  lemma {:induction false} FoldComplete(e: Enc, bs: seq<Block>, m0: set<int>)
    requires 0 <= e.top && Consistent(m0) && SatisfiesAll(m0, e.clauses) && Within(m0, e.top)
    requires forall b :: b in bs ==> Below(b.lits, e.top) && Admits(m0, b)
    ensures exists m :: m0 <= m && Consistent(m) && SatisfiesAll(m, Fold(e, bs).clauses)
                        && Within(m, Fold(e, bs).top)
    decreases |bs|
  {
    if bs != [] {
      var init := bs[..|bs| - 1];
      var b := bs[|bs| - 1];
      FoldComplete(e, init, m0);
      var e' := Fold(e, init);
      var m :| m0 <= m && Consistent(m) && SatisfiesAll(m, e'.clauses) && Within(m, e'.top);
      FoldTopGrows(e, init);
      assert b in bs;
      var m' := ApplyComplete(e', b, m0, m);
    }
  }

  /** Lines 100 and 110 as written: the watermark becomes `cnf.nv` even when that is below
      the watermark it replaces. */
  ghost function ApplyAsWritten(e: Enc, b: Block): Enc
  {
    var cs := e.clauses + BlockClauses(b, e.top);
    Enc(cs, Nv(cs))
  }

  ghost function FoldAsWritten(e: Enc, bs: seq<Block>): Enc
    decreases |bs|
  {
    if bs == [] then e else ApplyAsWritten(FoldAsWritten(e, bs[..|bs| - 1]), bs[|bs| - 1])
  }

  /** Once the first block draws a counter, `cnf.nv` is never below the watermark it
      replaces, so the loops as written and `Apply` emit the same clauses and keep the same
      watermark. */
  lemma {:induction false} AsWrittenAgrees(e: Enc, bs: seq<Block>)
    requires 0 <= e.top && bs != [] && Below(bs[0].lits, e.top) && Counters(bs[0]) >= 1
    ensures FoldAsWritten(e, bs) == Fold(e, bs)
    ensures e.top < Nv(Fold(e, bs).clauses) == Fold(e, bs).top
  {
    var init, b := bs[..|bs| - 1], bs[|bs| - 1];
    var f := Fold(e, init);
    if init == [] {
      ApplyCovers(e, b);
    } else {
      assert init[0] == bs[0];
      AsWrittenAgrees(e, init);
      NvConcat(f.clauses, BlockClauses(b, f.top));
    }
  }
}
