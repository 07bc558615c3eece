/** The watermark at lines 100 and 110 of `schedule_scrum_meetings` is set to `cnf.nv`, the
    largest variable in the clauses so far, even when that is below the watermark it replaces.
    With one slot, a group's at-most-one encoding introduces no counter variable, so after the
    group loop `cnf.nv` is the last group-slot variable, below `highest_var`. Any encoding that
    allocates its counters above the `top_id` it is given then takes attendance variables as
    its "fresh" counters.

    Instance: one slot, groups g1 = [A, B] and g2 = [A, B]. The group-slot variables are 1
    and 2, and the attendance variables are 3 (A, g1), 4 (B, g1), 5 (A, g2) and 6 (B, g2).
    With the sequential counter of `SeqCounter.AtMostOne`, which numbers its counters from
    top+1, A's encoding over [3, 5] uses counter 3 and B's encoding over [4, 6] uses counter
    6. The result is the clause (-6 | -6), which, for that encoding, forbids B any meeting.
    An encoding that numbers its counters differently collides with other attendance
    variables, with other consequences.

    Raising the watermark to `max(top, cnf.nv)` instead (`Cardinality.Apply`) keeps every
    counter above `highest_var`, and then every timetable extends to a model of the hard
    clauses (`Meaning.HardClausesComplete`). */
module AsWrittenWatermark {
  import opened Cnf
  import opened SeqCounter
  import opened Cardinality
  import opened Scrum
  import opened Encoder
  import opened Meaning

  /** The blocks both encoding loops emit for the instance: the two groups' "exactly one slot"
      blocks, then A's and B's "at most one meeting in slot 1" blocks. */
  function ExampleBlocks(): seq<Block>
  {
    [Block(true, [1]), Block(true, [2]), Block(false, [3, 5]), Block(false, [4, 6])]
  }

  lemma FoldAsWrittenSnoc(e: Enc, bs: seq<Block>, b: Block)
    ensures FoldAsWritten(e, bs + [b]) == ApplyAsWritten(FoldAsWritten(e, bs), b)
  {
    assert (bs + [b])[..|bs|] == bs;
  }

  /** The encoding of two literals: one counter, above the watermark. */
  lemma AtMostOnePair(x: int, y: int, top: int)
    ensures AtMostOne([x, y], top) == [[-x, top + 1], [-y, -(top + 1)]]
  {
  }

  /** The counter of a store is the largest of the variables it was shown to hold, when it
      holds nothing larger. */
  lemma NvIs(cs: seq<Clause>, c: Clause, l: int, b: nat)
    requires c in cs && l in c && Abs(l) == b
    requires forall c', l' :: c' in cs && l' in c' ==> Abs(l') <= b
    ensures Nv(cs) == b
  {
    MaxVarBounds(c);
    NvAttained(cs, c);
    NvAtMost(cs, b);
  }

  /** The four steps of the loops as written: each block's clauses are appended, and the
      watermark becomes the largest variable so far. */
  lemma AsWrittenStep1()
    ensures ApplyAsWritten(Enc([], 6), Block(true, [1])) == Enc([[1]], 1)
  {
    assert [] + BlockClauses(Block(true, [1]), 6) == [[1]];
    NvIs([[1]], [1], 1, 1);
  }

  lemma AsWrittenStep2()
    ensures ApplyAsWritten(Enc([[1]], 1), Block(true, [2])) == Enc([[1], [2]], 2)
  {
    assert [[1]] + BlockClauses(Block(true, [2]), 1) == [[1], [2]];
    NvIs([[1], [2]], [2], 2, 2);
  }

  lemma AsWrittenStep3()
    ensures ApplyAsWritten(Enc([[1], [2]], 2), Block(false, [3, 5])) == Enc([[1], [2], [-3, 3], [-5, -3]], 5)
  {
    AtMostOnePair(3, 5, 2);
    var cs := [[1], [2], [-3, 3], [-5, -3]];
    assert [[1], [2]] + BlockClauses(Block(false, [3, 5]), 2) == cs;
    forall c, l | c in cs && l in c ensures Abs(l) <= 5 {
      assert c == cs[0] || c == cs[1] || c == cs[2] || c == cs[3];
    }
    NvIs(cs, cs[3], -5, 5);
  }

  lemma AsWrittenStep4()
    ensures ApplyAsWritten(Enc([[1], [2], [-3, 3], [-5, -3]], 5), Block(false, [4, 6])).clauses
         == [[1], [2], [-3, 3], [-5, -3], [-4, 6], [-6, -6]]
  {
    AtMostOnePair(4, 6, 5);
  }

  /** The clauses the loops emit as written, starting from `top_var = highest_var = 6`: the
      watermark falls to 1, 2 and then 5, so B's encoding takes 6, B's own attendance
      variable for g2, as its counter. */
  lemma AsWrittenClauses()
    ensures FoldAsWritten(Enc([], 6), ExampleBlocks()).clauses
         == [[1], [2], [-3, 3], [-5, -3], [-4, 6], [-6, -6]]
  {
    var e := Enc([], 6);
    var bs := ExampleBlocks();
    FoldAsWrittenSnoc(e, [], bs[0]);
    assert [] + [bs[0]] == bs[..1];
    AsWrittenStep1();
    FoldAsWrittenSnoc(e, bs[..1], bs[1]);
    assert bs[..1] + [bs[1]] == bs[..2];
    AsWrittenStep2();
    FoldAsWrittenSnoc(e, bs[..2], bs[2]);
    assert bs[..2] + [bs[2]] == bs[..3];
    AsWrittenStep3();
    FoldAsWrittenSnoc(e, bs[..3], bs[3]);
    assert bs[..3] + [bs[3]] == bs;
    AsWrittenStep4();
  }

  /** As written, no consistent model of those clauses lets B attend a meeting: variables 4
      and 6 are both false. */
  lemma AsWrittenExcludesB(m: set<int>)
    requires Consistent(m) && SatisfiesAll(m, FoldAsWritten(Enc([], 6), ExampleBlocks()).clauses)
    ensures 4 !in m && 6 !in m
  {
    AsWrittenClauses();
    var cs := FoldAsWritten(Enc([], 6), ExampleBlocks()).clauses;
    assert cs[5] == [-6, -6] && cs[4] == [-4, 6];
    assert Satisfies(m, cs[5]);
    assert Satisfies(m, cs[4]);
  }

  /** The instance as `create_scrum_data` receives it. */
  function ExampleGroups(): seq<Group>
  {
    [Group("g1", ["A", "B"]), Group("g2", ["A", "B"])]
  }

  lemma ExampleWellFormed()
    ensures Names(ExampleGroups()) == ["g1", "g2"]
    ensures WellFormed(ExampleGroups())
  {
    assert Names(ExampleGroups()) == ["g1", "g2"];
  }

  function ExampleData(): ScrumData
  {
    ExampleWellFormed();
    ScrumDataOf(1, ExampleGroups())
  }

  lemma ExampleMemberships()
    ensures Memberships(ExampleGroups()) == [("A", "g1"), ("B", "g1"), ("A", "g2"), ("B", "g2")]
  {
    var gs := ExampleGroups();
    assert gs[..1][..0] == [] && gs[..2] == gs;
    assert Pairs(gs[0]) == [("A", "g1"), ("B", "g1")];
    assert Pairs(gs[1]) == [("A", "g2"), ("B", "g2")];
    assert Memberships(gs[..1]) == [("A", "g1"), ("B", "g1")];
  }

  /** The people dictionary: A and B each belong to both groups, A first. */
  lemma ExamplePeople()
    ensures PeopleOf(Memberships(ExampleGroups())) == map["A" := {"g1", "g2"}, "B" := {"g1", "g2"}]
    ensures PersonOrder(Memberships(ExampleGroups())) == ["A", "B"]
  {
    ExampleMemberships();
    var ms := Memberships(ExampleGroups());
    var m2, m3 := ms[..2], ms[..3];
    ExampleFirstGroup(m2);
    assert "A" != "B" by { assert "A"[0] != "B"[0]; }
    PeopleSnoc(m2, "A", "g2");
    assert m2 + [ms[2]] == m3;
    assert PeopleOf(m3) == map["A" := {"g1"} + {"g2"}, "B" := {"g1"}];
    assert {"g1"} + {"g2"} == {"g1", "g2"};
    PeopleSnoc(m3, "B", "g2");
    assert m3 + [ms[3]] == ms;
    assert PeopleOf(ms) == map["A" := {"g1", "g2"}, "B" := {"g1"} + {"g2"}];
  }

  /** After group g1: A and B each belong to g1, A first. */
  lemma ExampleFirstGroup(ms: seq<(Person, GroupName)>)
    requires ms == [("A", "g1"), ("B", "g1")]
    ensures PeopleOf(ms) == map["A" := {"g1"}, "B" := {"g1"}]
    ensures PersonOrder(ms) == ["A", "B"]
  {
    var m0, m1 := ms[..0], ms[..1];
    assert "A" != "B" by { assert "A"[0] != "B"[0]; }
    PeopleSnoc(m0, "A", "g1");
    assert m0 + [ms[0]] == m1;
    assert PeopleOf(m0) == map[] && PersonOrder(m0) == [];
    assert PeopleOf(m1) == map["A" := {} + {"g1"}];
    assert {} + {"g1"} == {"g1"};
    assert PersonOrder(m1) == ["A"];
    PeopleSnoc(m1, "B", "g1");
    assert m1 + [ms[1]] == ms;
  }

  /** The shape of the data: both people in both groups, and six variables. */
  lemma ExampleShape()
    ensures Built(ExampleData())
    ensures ExampleData().numSlots == 1 && ExampleData().groups == ExampleGroups()
    ensures ExampleData().highestVar == 6
    ensures ExampleData().people == map["A" := {"g1", "g2"}, "B" := {"g1", "g2"}]
    ensures ExampleData().personOrder == ["A", "B"]
  {
    ExampleWellFormed();
    ExampleMemberships();
    ExamplePeople();
  }

  /** The group-slot variables: 1 for g1 and 2 for g2. */
  lemma ExampleGroupIds()
    ensures ("g1", 1) in ExampleData().groupSlotVar && ("g2", 1) in ExampleData().groupSlotVar
    ensures ExampleData().groupSlotVar[("g1", 1)] == 1 && ExampleData().groupSlotVar[("g2", 1)] == 2
  {
    ExampleWellFormed();
    var names := Names(ExampleGroups());
    assert ExampleData().groupSlotVar == Family(names, 1, 0);
    FamilyAt(names, 1, 0);
    assert names[0] == "g1" && names[1] == "g2";
  }

  /** The attendance variables: 3 and 4 for A and B in g1, 5 and 6 for A and B in g2. */
  lemma ExampleAttendIds()
    ensures && (("A", "g1"), 1) in ExampleData().attendVar && (("B", "g1"), 1) in ExampleData().attendVar
            && (("A", "g2"), 1) in ExampleData().attendVar && (("B", "g2"), 1) in ExampleData().attendVar
    ensures && ExampleData().attendVar[(("A", "g1"), 1)] == 3 && ExampleData().attendVar[(("B", "g1"), 1)] == 4
            && ExampleData().attendVar[(("A", "g2"), 1)] == 5 && ExampleData().attendVar[(("B", "g2"), 1)] == 6
  {
    ExampleWellFormed();
    ExampleMemberships();
    var ms := Memberships(ExampleGroups());
    MembershipsDistinct(ExampleGroups());
    assert ExampleData().attendVar == Family(ms, 1, 2);
    FamilyAt(ms, 1, 2);
    assert ms[0] == ("A", "g1") && ms[1] == ("B", "g1") && ms[2] == ("A", "g2") && ms[3] == ("B", "g2");
  }

  /** Both people visit their groups in the order g1, g2. */
  lemma ExampleEnumerate()
    ensures Enumerate(["g1", "g2"], {"g1", "g2"}) == ["g1", "g2"]
  {
    var names := ["g1", "g2"];
    assert names[..1] == ["g1"] && names[..1][..0] == [];
  }

  /** What the instance's data looks like: both people in both groups, one slot, the
      group-slot variables 1 and 2 and the attendance variables 3 to 6. */
  ghost predicate ExampleShaped(d: ScrumData)
  {
    && Lookups(d) && Listed(d) && Distinct(Names(d.groups))
    && d.numSlots == 1 && Names(d.groups) == ["g1", "g2"] && d.highestVar == 6
    && d.people == map["A" := {"g1", "g2"}, "B" := {"g1", "g2"}] && d.personOrder == ["A", "B"]
    && ("g1", 1) in d.groupSlotVar && ("g2", 1) in d.groupSlotVar
    && d.groupSlotVar[("g1", 1)] == 1 && d.groupSlotVar[("g2", 1)] == 2
    && (("A", "g1"), 1) in d.attendVar && (("B", "g1"), 1) in d.attendVar
    && (("A", "g2"), 1) in d.attendVar && (("B", "g2"), 1) in d.attendVar
    && d.attendVar[(("A", "g1"), 1)] == 3 && d.attendVar[(("B", "g1"), 1)] == 4
    && d.attendVar[(("A", "g2"), 1)] == 5 && d.attendVar[(("B", "g2"), 1)] == 6
  }

  /** `create_scrum_data(1, {g1: [A, B], g2: [A, B]})` has that shape. */
  lemma ExampleDataShaped()
    ensures Built(ExampleData()) && ExampleShaped(ExampleData())
  {
    ExampleShape();
    ExampleGroupIds();
    ExampleAttendIds();
    ExampleWellFormed();
    BuiltLookups(ExampleData());
  }

  /** The blocks `schedule_scrum_meetings` emits for the instance, above `highest_var = 6`. */
  lemma ShapedBlocks(d: ScrumData)
    requires ExampleShaped(d)
    ensures Start(d) == Enc([], 6)
    ensures Blocks(d) == ExampleBlocks()
  {
    ShapedGroupBlocks(d);
    ShapedSlotBlocks(d);
    assert PersonBlocks(d, 1) == [] + SlotBlocks(d, "A");
    assert PersonBlocks(d, 2) == [Block(false, [3, 5]), Block(false, [4, 6])];
  }

  /** The group blocks: "exactly one of [1]" for g1 and "exactly one of [2]" for g2. */
  lemma ShapedGroupBlocks(d: ScrumData)
    requires ExampleShaped(d)
    ensures GroupBlocks(d) == [Block(true, [1]), Block(true, [2])]
  {
    assert SlotVars(d, "g1") == [1] && SlotVars(d, "g2") == [2];
  }

  /** The slot blocks: "at most one of [3, 5]" for A and "at most one of [4, 6]" for B. */
  lemma ShapedSlotBlocks(d: ScrumData)
    requires ExampleShaped(d)
    ensures SlotBlocks(d, "A") == [Block(false, [3, 5])] && SlotBlocks(d, "B") == [Block(false, [4, 6])]
  {
    ExampleEnumerate();
    assert PersonGroups(d, "A") == ["g1", "g2"] && PersonGroups(d, "B") == ["g1", "g2"];
    assert AttendLits(d, "A", 1) == [3, 5] && AttendLits(d, "B", 1) == [4, 6];
  }

  /** The hard clauses as lines 86-117 write them: the encoding loops with the watermark of
      lines 100 and 110, then the "attending implies held" clauses. */
  ghost function HardClausesAsWritten(d: ScrumData): seq<Clause>
    requires Lookups(d) && Listed(d)
  {
    FoldAsWritten(Start(d), Blocks(d)).clauses + PhantomPeople(d, |d.personOrder|)
  }

  /** As written, B attends no meeting in any model of the hard clauses, so both of B's soft
      clauses are always violated. */
  lemma AsWrittenLosesB(d: ScrumData, m: set<int>)
    requires ExampleShaped(d)
    requires Consistent(m) && SatisfiesAll(m, HardClausesAsWritten(d))
    ensures d.attendVar[(("B", "g1"), 1)] !in m && d.attendVar[(("B", "g2"), 1)] !in m
  {
    ShapedBlocks(d);
    AsWrittenExcludesB(m);
  }

  /** The timetable in which both groups meet in slot 1 and A and B both attend g1. */
  lemma ExampleTimetable(d: ScrumData)
    requires ExampleShaped(d)
    ensures Timetable(d, map["g1" := 1, "g2" := 1], {(("A", "g1"), 1), (("B", "g1"), 1)})
  {
    assert "A" != "B" by { assert "A"[0] != "B"[0]; }
  }

  /** With the corrected watermark, that timetable is a model of the hard clauses. */
  lemma CorrectedKeepsB(d: ScrumData)
    requires Built(d) && ExampleShaped(d)
    ensures exists m :: Consistent(m) && SatisfiesAll(m, HardClauses(d)) &&
                        d.attendVar[(("A", "g1"), 1)] in m && d.attendVar[(("B", "g1"), 1)] in m
  {
    var slot := map["g1" := 1, "g2" := 1];
    var attends := {(("A", "g1"), 1), (("B", "g1"), 1)};
    ExampleTimetable(d);
    HardClausesComplete(d, slot, attends);
    var m :| Assignment(d, slot, attends) <= m && Consistent(m) && SatisfiesAll(m, HardClauses(d));
    assert (("A", "g1"), 1) in attends && (("B", "g1"), 1) in attends;
  }

  /** With two slots or more and at least one group, the first group's block draws a counter
      above `highest_var`, and from then on `cnf.nv` never falls below the watermark: the
      loops as written emit exactly the clauses of the corrected ones. */
  lemma AsWrittenAgreesFromTwoSlots(d: ScrumData)
    requires Built(d) && d.numSlots >= 2 && |d.groups| > 0
    ensures Lookups(d)
    ensures FoldAsWritten(Start(d), Blocks(d)) == Fold(Start(d), Blocks(d))
  {
    BuiltLookups(d);
    BuiltNumbered(d);
    BlocksBelow(d);
    var b := Blocks(d)[0];
    assert b == GroupBlocks(d)[0];
    assert b in Blocks(d);
    assert |b.lits| == d.numSlots;
    AsWrittenAgrees(Start(d), Blocks(d));
  }
}
