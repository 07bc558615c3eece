/** The translation of the scheduling problem into weighted clauses
    (`schedule_scrum_meetings`, up to the call of the MaxSAT solver): per group "at least one
    slot" plus an at-most-one encoding over its slot variables; per person and slot an
    at-most-one encoding over the attendance variables of their groups; "attending implies
    the meeting is held"; and one weight-1 soft clause per membership asking that the person
    attends the group's meeting in some slot. */
module Encoder {
  import opened Cnf
  import opened SeqCounter
  import opened Cardinality
  import opened Scrum

  /** The slot variables of group `g`, for slots 1 .. numSlots. */
  function SlotVars(d: ScrumData, g: GroupName): seq<int>
    requires Lookups(d) && g in Names(d.groups)
  {
    seq(d.numSlots, i requires 0 <= i < d.numSlots => d.groupSlotVar[(g, i + 1)])
  }

  /** The members of `gs` among `names`, in the order of `names`. */
  function Enumerate(names: seq<GroupName>, gs: set<GroupName>): (r: seq<GroupName>)
    ensures forall g :: g in r <==> g in names && g in gs
    ensures Distinct(names) ==> Distinct(r)
  {
    if names == [] then []
    else
      var r0 := Enumerate(names[..|names| - 1], gs);
      var g := names[|names| - 1];
      assert forall x :: x in names <==> x in names[..|names| - 1] || x == g;
      if g in gs then
        assert Distinct(names) ==> g !in names[..|names| - 1];
        r0 + [g]
      else r0
  }

  /** The groups of person `p`, visited in the order of the groups dictionary. */
  function PersonGroups(d: ScrumData, p: Person): seq<GroupName>
    requires p in d.people
  {
    Enumerate(Names(d.groups), d.people[p])
  }

  /** The attendance variables of `p` in slot `s`, one per group of `p`. */
  function AttendLits(d: ScrumData, p: Person, s: int): seq<int>
    requires Lookups(d) && p in d.people && 1 <= s <= d.numSlots
  {
    var gs := PersonGroups(d, p);
    seq(|gs|, k requires 0 <= k < |gs| => d.attendVar[((p, gs[k]), s)])
  }

  /** The check before each person's encoding holds on the data `create_scrum_data` builds:
      every lookup succeeds and a person's literal list for a slot is never empty. */
  lemma AttendLitsNonEmpty(d: ScrumData, p: Person, s: int)
    requires Built(d) && p in d.people && 1 <= s <= d.numSlots
    ensures Lookups(d)
    ensures |AttendLits(d, p, s)| > 0
  {
    BuiltLookups(d);
    var g :| g in d.people[p];
    assert g in PersonGroups(d, p);
  }

  /** The attendance variables of `p` for group `g`, for slots 1 .. numSlots. */
  function AttendSlots(d: ScrumData, p: Person, g: GroupName): seq<int>
    requires Lookups(d) && p in d.people && g in d.people[p]
  {
    seq(d.numSlots, i requires 0 <= i < d.numSlots => d.attendVar[((p, g), i + 1)])
  }

  /** "Each group meets in exactly one slot", group by group. */
  function GroupBlocks(d: ScrumData): seq<Block>
    requires Lookups(d)
  {
    var names := Names(d.groups);
    seq(|names|, i requires 0 <= i < |names| => Block(true, SlotVars(d, names[i])))
  }

  /** "Person `p` attends at most one meeting per slot", slot by slot. */
  function SlotBlocks(d: ScrumData, p: Person): seq<Block>
    requires Lookups(d) && p in d.people
  {
    seq(d.numSlots, i requires 0 <= i < d.numSlots => Block(false, AttendLits(d, p, i + 1)))
  }

  /** The blocks of the first j people of the people dictionary. */
  function PersonBlocks(d: ScrumData, j: nat): seq<Block>
    requires Lookups(d) && j <= |d.personOrder|
  {
    if j == 0 then [] else PersonBlocks(d, j - 1) + SlotBlocks(d, d.personOrder[j - 1])
  }

  /** All cardinality blocks, in emission order. */
  function Blocks(d: ScrumData): seq<Block>
    requires Lookups(d)
  {
    GroupBlocks(d) + PersonBlocks(d, |d.personOrder|)
  }

  /** The watermark starts at `highest_var`. */
  function Start(d: ScrumData): Enc
  {
    Enc([], d.highestVar)
  }

  /** "Attending implies the meeting is held", for group `g` of `p`, slot by slot. */
  function PhantomSlots(d: ScrumData, p: Person, g: GroupName): seq<Clause>
    requires Lookups(d) && p in d.people && g in d.people[p] && g in Names(d.groups)
  {
    seq(d.numSlots, i requires 0 <= i < d.numSlots =>
      [d.groupSlotVar[(g, i + 1)], -d.attendVar[((p, g), i + 1)]])
  }

  /** Every entry of `gs` is a group of `p` that the groups dictionary lists. */
  ghost predicate OwnGroups(d: ScrumData, p: Person, gs: seq<GroupName>)
    requires p in d.people
  {
    forall i :: 0 <= i < |gs| ==> gs[i] in d.people[p] && gs[i] in Names(d.groups)
  }

  /** The clauses for the groups `gs` of `p`, in that order. */
  function PhantomGroups(d: ScrumData, p: Person, gs: seq<GroupName>): seq<Clause>
    requires Lookups(d) && p in d.people && OwnGroups(d, p, gs)
  {
    if gs == [] then []
    else PhantomGroups(d, p, gs[..|gs| - 1]) + PhantomSlots(d, p, gs[|gs| - 1])
  }

  /** The groups of a person, as visited, are their own listed groups. */
  lemma PersonGroupsOwn(d: ScrumData, p: Person)
    requires Listed(d) && p in d.people
    ensures OwnGroups(d, p, PersonGroups(d, p))
  {
    var gs := PersonGroups(d, p);
    forall i | 0 <= i < |gs| ensures gs[i] in d.people[p] && gs[i] in Names(d.groups) {
      assert gs[i] in gs;
    }
  }

  /** Every person of the dictionary is in its insertion order, and every listed group of a
      person is a group of the dictionary. */
  ghost predicate Listed(d: ScrumData)
  {
    && (forall p :: p in d.people ==> p in d.personOrder)
    && (forall p, g :: p in d.people && g in d.people[p] ==> g in Names(d.groups))
  }

  /** The clauses for the first j people. */
  function PhantomPeople(d: ScrumData, j: nat): seq<Clause>
    requires Lookups(d) && Listed(d) && j <= |d.personOrder|
  {
    if j == 0 then []
    else
      var p := d.personOrder[j - 1];
      PersonGroupsOwn(d, p);
      PhantomPeople(d, j - 1) + PhantomGroups(d, p, PersonGroups(d, p))
  }

  /** One soft clause per group of `p`: "p attends that group's meeting in some slot". */
  function SoftGroups(d: ScrumData, p: Person): seq<Clause>
    requires Lookups(d) && p in d.people
  {
    var gs := PersonGroups(d, p);
    seq(|gs|, k requires 0 <= k < |gs| => AttendSlots(d, p, gs[k]))
  }

  /** The soft clauses of the first j people. */
  function SoftPeople(d: ScrumData, j: nat): seq<Clause>
    requires Lookups(d) && j <= |d.personOrder|
  {
    if j == 0 then [] else SoftPeople(d, j - 1) + SoftGroups(d, d.personOrder[j - 1])
  }

  /** The hard clauses, in emission order. */
  ghost function HardClauses(d: ScrumData): seq<Clause>
    requires Lookups(d) && Listed(d)
  {
    Fold(Start(d), Blocks(d)).clauses + PhantomPeople(d, |d.personOrder|)
  }

  /** The soft clauses, in emission order; each has weight 1. */
  function SoftClauses(d: ScrumData): seq<Clause>
    requires Lookups(d)
  {
    SoftPeople(d, |d.personOrder|)
  }

  /** Builds the weighted clause set handed to the MaxSAT solver. */
  method ScheduleScrumMeetings(d: ScrumData) returns (cnf: Wcnf)
    requires Built(d)
    ensures Lookups(d) && Listed(d)
    ensures fresh(cnf) && cnf.Valid()
    ensures cnf.hard == HardClauses(d)
    ensures cnf.soft == SoftClauses(d) && cnf.weights == seq(|cnf.soft|, _ => 1)
  {
    BuiltLookups(d);
    cnf := new Wcnf();
    var top := EmitGroupBlocks(d, cnf);
    top := EmitPersonBlocks(d, cnf, top);
    EmitPhantom(d, cnf);
    EmitSoft(d, cnf);
  }

  /** Every group meets in exactly one slot: the "at least one" clause and an at-most-one
      encoding over the group's slot variables, group by group. */
  method EmitGroupBlocks(d: ScrumData, cnf: Wcnf) returns (top: int)
    requires Lookups(d)
    requires cnf.Valid() && cnf.hard == [] && cnf.soft == [] && cnf.weights == []
    modifies cnf
    ensures cnf.Valid() && cnf.soft == [] && cnf.weights == []
    ensures Enc(cnf.hard, top) == Fold(Start(d), GroupBlocks(d))
  {
    top := d.highestVar;
    ghost var gb := GroupBlocks(d);
    assert gb[..0] == [];
    var i := 0;
    while i < |d.groups|
      invariant 0 <= i <= |d.groups|
      invariant cnf.Valid() && cnf.soft == [] && cnf.weights == []
      invariant Enc(cnf.hard, top) == Fold(Start(d), gb[..i])
    {
      assert Names(d.groups)[i] == d.groups[i].name;
      var slotVars := SlotVars(d, d.groups[i].name);
      assert gb[i] == Block(true, slotVars);
      FoldNext(Start(d), gb, i);
      ApplyAtLeastOne(cnf.hard, top, slotVars);
      cnf.Append(slotVars);
      top := EmitAtMostOne(cnf, slotVars, top);
      i := i + 1;
    }
    assert gb[..|d.groups|] == gb;
  }

  /** The "at least one" clause followed by the at-most-one encoding is the same as appending
      the clause first and then emitting an at-most-one block. */
  lemma ApplyAtLeastOne(h: seq<Clause>, top: int, lits: seq<int>)
    ensures Apply(Enc(h, top), Block(true, lits)) == Apply(Enc(h + [lits], top), Block(false, lits))
  {
    assert h + ([lits] + AtMostOne(lits, top)) == (h + [lits]) + ([] + AtMostOne(lits, top));
  }

  /** Appends the at-most-one encoding of `lits` above the watermark and raises the
      watermark: `top = max(top, cnf.nv)`. */
  method EmitAtMostOne(cnf: Wcnf, lits: seq<int>, top0: int) returns (top: int)
    requires cnf.Valid() && cnf.soft == [] && cnf.weights == []
    modifies cnf
    ensures cnf.Valid() && cnf.soft == [] && cnf.weights == []
    ensures Enc(cnf.hard, top) == Apply(Enc(old(cnf.hard), top0), Block(false, lits))
  {
    cnf.Extend(AtMostOne(lits, top0));
    assert cnf.hard + [] == cnf.hard;
    assert old(cnf.hard) + BlockClauses(Block(false, lits), top0) == cnf.hard;
    top := Max(top0, cnf.nv);
  }

  /** Every person attends at most one meeting per slot: an at-most-one encoding over the
      attendance variables of their groups, person by person. */
  method EmitPersonBlocks(d: ScrumData, cnf: Wcnf, top0: int) returns (top: int)
    requires Lookups(d)
    requires cnf.Valid() && cnf.soft == [] && cnf.weights == []
    requires Enc(cnf.hard, top0) == Fold(Start(d), GroupBlocks(d))
    modifies cnf
    ensures cnf.Valid() && cnf.soft == [] && cnf.weights == []
    ensures Enc(cnf.hard, top) == Fold(Start(d), Blocks(d))
  {
    ghost var before := Enc(cnf.hard, top0);
    var chunks := PersonChunks(d);
    top := EmitChunks(cnf, top0, chunks);
    PersonChunksConcat(d, |d.personOrder|);
    assert chunks[..|d.personOrder|] == chunks;
    PhaseStep(Start(d), before, GroupBlocks(d), Concat(chunks), Blocks(d), Enc(cnf.hard, top));
  }

  /** The slot blocks of each person of the people dictionary, in its order. */
  function PersonChunks(d: ScrumData): (r: seq<seq<Block>>)
    requires Lookups(d)
    ensures |r| == |d.personOrder|
    ensures forall j :: 0 <= j < |r| ==> r[j] == SlotBlocks(d, d.personOrder[j])
  {
    seq(|d.personOrder|, j requires 0 <= j < |d.personOrder| => SlotBlocks(d, d.personOrder[j]))
  }

  /** The chunks of the first j people, one after another, are their blocks. */
  lemma {:induction false} PersonChunksConcat(d: ScrumData, j: nat)
    requires Lookups(d) && j <= |d.personOrder|
    ensures Concat(PersonChunks(d)[..j]) == PersonBlocks(d, j)
  {
    var chunks := PersonChunks(d);
    if j > 0 {
      PersonChunksConcat(d, j - 1);
      assert chunks[..j][..j - 1] == chunks[..j - 1];
    }
  }

  /** The blocks of the chunks, one chunk after another. */
  function Concat(chunks: seq<seq<Block>>): seq<Block>
  {
    if chunks == [] then [] else Concat(chunks[..|chunks| - 1]) + chunks[|chunks| - 1]
  }

  /** Emits the chunks in order, each block by block. */
  method EmitChunks(cnf: Wcnf, top0: int, chunks: seq<seq<Block>>) returns (top: int)
    requires forall j, i :: 0 <= j < |chunks| && 0 <= i < |chunks[j]| ==> !chunks[j][i].atLeastOne
    requires cnf.Valid() && cnf.soft == [] && cnf.weights == []
    modifies cnf
    ensures cnf.Valid() && cnf.soft == [] && cnf.weights == []
    ensures Enc(cnf.hard, top) == Fold(Enc(old(cnf.hard), top0), Concat(chunks))
  {
    top := top0;
    ghost var e := Enc(cnf.hard, top0);
    assert chunks[..0] == [];
    var j := 0;
    while j < |chunks|
      invariant j <= |chunks|
      invariant cnf.Valid() && cnf.soft == [] && cnf.weights == []
      invariant Enc(cnf.hard, top) == Fold(e, Concat(chunks[..j]))
    {
      ghost var before := Enc(cnf.hard, top);
      top := EmitAtMostOnes(cnf, top, chunks[j]);
      assert chunks[..j + 1][..j] == chunks[..j];
      PhaseStep(e, before, Concat(chunks[..j]), chunks[j], Concat(chunks[..j + 1]), Enc(cnf.hard, top));
      j := j + 1;
    }
    assert chunks[..|chunks|] == chunks;
  }

  /** Emits the at-most-one encodings of the blocks in order, raising the watermark past
      `cnf.nv` after each. */
  method EmitAtMostOnes(cnf: Wcnf, top0: int, bs: seq<Block>) returns (top: int)
    requires forall i :: 0 <= i < |bs| ==> !bs[i].atLeastOne
    requires cnf.Valid() && cnf.soft == [] && cnf.weights == []
    modifies cnf
    ensures cnf.Valid() && cnf.soft == [] && cnf.weights == []
    ensures Enc(cnf.hard, top) == Fold(Enc(old(cnf.hard), top0), bs)
  {
    top := top0;
    ghost var e := Enc(cnf.hard, top0);
    assert bs[..0] == [];
    var s := 0;
    while s < |bs|
      invariant s <= |bs|
      invariant cnf.Valid() && cnf.soft == [] && cnf.weights == []
      invariant Enc(cnf.hard, top) == Fold(e, bs[..s])
    {
      ghost var before := Enc(cnf.hard, top);
      top := EmitAtMostOne(cnf, bs[s].lits, top);
      assert bs[s] == Block(false, bs[s].lits);
      FoldStep(e, bs, s, before, Enc(cnf.hard, top));
      s := s + 1;
    }
    assert bs[..|bs|] == bs;
  }

  /** One more block continues the fold. */
  lemma FoldStep(e: Enc, bs: seq<Block>, i: nat, before: Enc, after: Enc)
    requires i < |bs| && before == Fold(e, bs[..i]) && after == Apply(before, bs[i])
    ensures after == Fold(e, bs[..i + 1])
  {
    FoldNext(e, bs, i);
  }

  /** A phase that folds a chunk after the fold of a prefix is the fold of prefix and chunk. */
  lemma PhaseStep(e: Enc, prev: Enc, pre: seq<Block>, chunk: seq<Block>, all: seq<Block>, next: Enc)
    requires prev == Fold(e, pre) && next == Fold(prev, chunk) && all == pre + chunk
    ensures next == Fold(e, all)
  {
    FoldConcat(e, pre, chunk);
  }

  /** A person attends only meetings that are held: [G(g, s), -A(p, g, s)] for every person,
      each of their groups and every slot. */
  method EmitPhantom(d: ScrumData, cnf: Wcnf)
    requires Lookups(d) && Listed(d)
    requires cnf.Valid() && cnf.soft == [] && cnf.weights == []
    modifies cnf
    ensures cnf.Valid() && cnf.soft == [] && cnf.weights == []
    ensures cnf.hard == old(cnf.hard) + PhantomPeople(d, |d.personOrder|)
  {
    assert old(cnf.hard) + [] == old(cnf.hard);
    var j := 0;
    while j < |d.personOrder|
      invariant 0 <= j <= |d.personOrder|
      invariant cnf.Valid() && cnf.soft == [] && cnf.weights == []
      invariant cnf.hard == old(cnf.hard) + PhantomPeople(d, j)
    {
      var p := d.personOrder[j];
      var gs := PersonGroups(d, p);
      PhantomPeopleStep(d, j, p, gs);
      EmitPhantomGroups(d, cnf, p, gs);
      Assoc(old(cnf.hard), PhantomPeople(d, j), PhantomGroups(d, p, gs));
      j := j + 1;
    }
  }

  /** One more person's "attending implies held" clauses, over the groups they visit. */
  lemma PhantomPeopleStep(d: ScrumData, j: nat, p: Person, gs: seq<GroupName>)
    requires Lookups(d) && Listed(d) && j < |d.personOrder| && d.personOrder[j] == p
    requires p in d.people && gs == PersonGroups(d, p)
    ensures OwnGroups(d, p, gs)
    ensures PhantomPeople(d, j + 1) == PhantomPeople(d, j) + PhantomGroups(d, p, gs)
  {
    PersonGroupsOwn(d, p);
  }

  /** Appending two lists of clauses one after the other. */
  lemma Assoc(a: seq<Clause>, b: seq<Clause>, c: seq<Clause>)
    ensures a + (b + c) == (a + b) + c
  {
  }

  method EmitPhantomGroups(d: ScrumData, cnf: Wcnf, p: Person, gs: seq<GroupName>)
    requires Lookups(d) && p in d.people && OwnGroups(d, p, gs)
    requires cnf.Valid() && cnf.soft == [] && cnf.weights == []
    modifies cnf
    ensures cnf.Valid() && cnf.soft == [] && cnf.weights == []
    ensures cnf.hard == old(cnf.hard) + PhantomGroups(d, p, gs)
  {
    assert old(cnf.hard) + [] == old(cnf.hard);
    var k := 0;
    while k < |gs|
      invariant 0 <= k <= |gs|
      invariant cnf.Valid() && cnf.soft == [] && cnf.weights == []
      invariant cnf.hard == old(cnf.hard) + PhantomGroups(d, p, gs[..k])
    {
      EmitPhantomSlots(d, cnf, p, gs[k]);
      assert gs[..k + 1][..k] == gs[..k];
      k := k + 1;
    }
    assert gs[..|gs|] == gs;
  }

  method EmitPhantomSlots(d: ScrumData, cnf: Wcnf, p: Person, g: GroupName)
    requires Lookups(d) && p in d.people && g in d.people[p] && g in Names(d.groups)
    requires cnf.Valid() && cnf.soft == [] && cnf.weights == []
    modifies cnf
    ensures cnf.Valid() && cnf.soft == [] && cnf.weights == []
    ensures cnf.hard == old(cnf.hard) + PhantomSlots(d, p, g)
  {
    ghost var ps := PhantomSlots(d, p, g);
    assert old(cnf.hard) + ps[..0] == old(cnf.hard);
    var s := 1;
    while s < d.numSlots + 1
      invariant 1 <= s <= d.numSlots + 1
      invariant cnf.Valid() && cnf.soft == [] && cnf.weights == []
      invariant cnf.hard == old(cnf.hard) + ps[..s - 1]
    {
      cnf.Append([d.groupSlotVar[(g, s)], -d.attendVar[((p, g), s)]]);
      assert ps[..s] == ps[..s - 1] + [ps[s - 1]];
      s := s + 1;
    }
    assert ps[..d.numSlots] == ps;
  }

  /** Every person should attend the meeting of each of their groups: one soft clause of
      weight 1 per (person, group). */
  method EmitSoft(d: ScrumData, cnf: Wcnf)
    requires Lookups(d)
    requires cnf.Valid() && cnf.soft == [] && cnf.weights == []
    modifies cnf
    ensures cnf.Valid() && cnf.hard == old(cnf.hard)
    ensures cnf.soft == SoftPeople(d, |d.personOrder|) && cnf.weights == seq(|cnf.soft|, _ => 1)
  {
    var j := 0;
    while j < |d.personOrder|
      invariant 0 <= j <= |d.personOrder|
      invariant cnf.Valid() && cnf.hard == old(cnf.hard)
      invariant cnf.soft == SoftPeople(d, j) && cnf.weights == seq(|cnf.soft|, _ => 1)
    {
      EmitSoftGroups(d, cnf, d.personOrder[j]);
      j := j + 1;
    }
  }

  method EmitSoftGroups(d: ScrumData, cnf: Wcnf, p: Person)
    requires Lookups(d) && p in d.people
    requires cnf.Valid() && cnf.weights == seq(|cnf.soft|, _ => 1)
    modifies cnf
    ensures cnf.Valid() && cnf.hard == old(cnf.hard)
    ensures cnf.soft == old(cnf.soft) + SoftGroups(d, p) && cnf.weights == seq(|cnf.soft|, _ => 1)
  {
    var gs := PersonGroups(d, p);
    ghost var sg := SoftGroups(d, p);
    assert old(cnf.soft) + sg[..0] == old(cnf.soft);
    var k := 0;
    while k < |gs|
      invariant 0 <= k <= |gs|
      invariant cnf.Valid() && cnf.hard == old(cnf.hard)
      invariant cnf.soft == old(cnf.soft) + sg[..k] && cnf.weights == seq(|cnf.soft|, _ => 1)
    {
      var meetVars := AttendSlots(d, p, gs[k]);
      cnf.AppendSoft(meetVars, 1);
      assert sg[..k + 1] == sg[..k] + [meetVars];
      k := k + 1;
    }
    assert sg[..|gs|] == sg;
  }
}
