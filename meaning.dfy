/** What the clauses of `schedule_scrum_meetings` mean: every model of the hard clauses is a
    timetable (each group meets in exactly one slot, nobody attends two meetings in one slot,
    nobody attends a meeting that is not held); every timetable extends to a model of the hard
    clauses; and the soft clauses a model violates are exactly the memberships whose meeting
    the person misses. */
module Meaning {
  import opened Cnf
  import opened SeqCounter
  import opened Cardinality
  import opened Scrum
  import opened Encoder

  /** Every block holds in a model of the hard clauses: one of its literals is true if it asks
      for one, and no two are. */
  lemma BlockHolds(d: ScrumData, m: set<int>, b: Block)
    requires Lookups(d) && Listed(d) && Consistent(m) && SatisfiesAll(m, HardClauses(d)) && b in Blocks(d)
    ensures b.atLeastOne ==> exists i :: 0 <= i < |b.lits| && b.lits[i] in m
    ensures forall i, j :: 0 <= i < j < |b.lits| && b.lits[i] in m ==> b.lits[j] !in m
  {
    var t := FoldHas(Start(d), Blocks(d), b);
    BlockMeaning(b, t, m);
  }

  /** Each group's block is among the blocks. */
  lemma GroupBlockListed(d: ScrumData, g: GroupName)
    requires Lookups(d) && g in Names(d.groups)
    ensures Block(true, SlotVars(d, g)) in Blocks(d)
  {
    var i :| 0 <= i < |Names(d.groups)| && Names(d.groups)[i] == g;
    assert GroupBlocks(d)[i] == Block(true, SlotVars(d, g));
  }

  /** The slot blocks of each of the first j people are among their blocks. */
  lemma {:induction false} PersonBlocksHas(d: ScrumData, j: nat, k: nat, p: Person, s: int)
    requires Lookups(d) && k < j <= |d.personOrder| && d.personOrder[k] == p && 1 <= s <= d.numSlots
    ensures Block(false, AttendLits(d, p, s)) in PersonBlocks(d, j)
  {
    if k == j - 1 {
      assert SlotBlocks(d, p)[s - 1] == Block(false, AttendLits(d, p, s));
    } else {
      PersonBlocksHas(d, j - 1, k, p, s);
    }
  }

  /** The "at most one" block of p in slot s is among the cardinality blocks. */
  lemma PersonBlockListed(d: ScrumData, p: Person, s: int)
    requires Lookups(d) && Listed(d) && p in d.people && 1 <= s <= d.numSlots
    ensures Block(false, AttendLits(d, p, s)) in Blocks(d)
  {
    var k :| 0 <= k < |d.personOrder| && d.personOrder[k] == p;
    PersonBlocksHas(d, |d.personOrder|, k, p, s);
  }

  /** The "attending implies held" clauses of the groups gs of p. */
  lemma {:induction false} PhantomGroupsHas(d: ScrumData, p: Person, gs: seq<GroupName>, i: nat, s: int)
    requires Lookups(d) && p in d.people && OwnGroups(d, p, gs) && i < |gs|
    requires 1 <= s <= d.numSlots
    ensures [d.groupSlotVar[(gs[i], s)], -d.attendVar[((p, gs[i]), s)]] in PhantomGroups(d, p, gs)
  {
    var g := gs[i];
    if i == |gs| - 1 {
      assert PhantomSlots(d, p, g)[s - 1] == [d.groupSlotVar[(g, s)], -d.attendVar[((p, g), s)]];
    } else {
      assert gs[..|gs| - 1][i] == g;
      PhantomGroupsHas(d, p, gs[..|gs| - 1], i, s);
    }
  }

  /** The "attending implies held" clauses of the first j people. */
  lemma {:induction false} PhantomPeopleHas(d: ScrumData, j: nat, k: nat, p: Person, g: GroupName, s: int)
    requires Lookups(d) && Listed(d) && k < j <= |d.personOrder| && 1 <= s <= d.numSlots
    requires d.personOrder[k] == p && g in d.people[p]
    ensures [d.groupSlotVar[(g, s)], -d.attendVar[((p, g), s)]] in PhantomPeople(d, j)
  {
    if k == j - 1 {
      var gs := PersonGroups(d, p);
      assert g in gs;
      var i :| 0 <= i < |gs| && gs[i] == g;
      PersonGroupsOwn(d, p);
      PhantomGroupsHas(d, p, gs, i, s);
    } else {
      PhantomPeopleHas(d, j - 1, k, p, g, s);
    }
  }

  /** Group g meets in exactly one slot when exactly one of its slot variables is true. */
  lemma GroupMeetsOnce(d: ScrumData, m: set<int>, g: GroupName)
    requires Lookups(d) && g in Names(d.groups)
    requires exists i :: 0 <= i < |SlotVars(d, g)| && SlotVars(d, g)[i] in m
    requires forall i, j :: 0 <= i < j < |SlotVars(d, g)| && SlotVars(d, g)[i] in m ==> SlotVars(d, g)[j] !in m
    ensures exists s :: 1 <= s <= d.numSlots && d.groupSlotVar[(g, s)] in m
    ensures forall s, u :: 1 <= s < u <= d.numSlots && d.groupSlotVar[(g, s)] in m ==>
              d.groupSlotVar[(g, u)] !in m
  {
    var lits := SlotVars(d, g);
    var i :| 0 <= i < |lits| && lits[i] in m;
    assert d.groupSlotVar[(g, i + 1)] in m;
    forall s, u | 1 <= s < u <= d.numSlots && d.groupSlotVar[(g, s)] in m
      ensures d.groupSlotVar[(g, u)] !in m
    {
      assert lits[s - 1] == d.groupSlotVar[(g, s)];
      assert lits[u - 1] == d.groupSlotVar[(g, u)];
    }
  }

  /** Person p attends at most one meeting in slot s when at most one of the attendance
      variables of their groups for slot s is true. */
  lemma NoDoubleBooking(d: ScrumData, m: set<int>, p: Person, s: int)
    requires Lookups(d) && Listed(d) && p in d.people && 1 <= s <= d.numSlots
    requires forall i, j :: 0 <= i < j < |AttendLits(d, p, s)| && AttendLits(d, p, s)[i] in m ==>
               AttendLits(d, p, s)[j] !in m
    ensures forall g, h :: g in d.people[p] && h in d.people[p] && g != h && d.attendVar[((p, g), s)] in m ==>
              d.attendVar[((p, h), s)] !in m
  {
    var lits := AttendLits(d, p, s);
    var gs := PersonGroups(d, p);
    forall g, h | g in d.people[p] && h in d.people[p] && g != h && d.attendVar[((p, g), s)] in m
      ensures d.attendVar[((p, h), s)] !in m
    {
      assert g in gs && h in gs;
      var i :| 0 <= i < |gs| && gs[i] == g;
      var i' :| 0 <= i' < |gs| && gs[i'] == h;
      assert lits[i] == d.attendVar[((p, g), s)];
      assert lits[i'] == d.attendVar[((p, h), s)];
    }
  }

  /** In a model of the hard clauses nobody attends a meeting that is not held. */
  lemma NoPhantom(d: ScrumData, m: set<int>, p: Person, g: GroupName, s: int)
    requires Lookups(d) && Listed(d) && Consistent(m) && SatisfiesAll(m, HardClauses(d))
    requires p in d.people && g in d.people[p] && 1 <= s <= d.numSlots
    requires d.attendVar[((p, g), s)] in m
    ensures d.groupSlotVar[(g, s)] in m
  {
    var c := [d.groupSlotVar[(g, s)], -d.attendVar[((p, g), s)]];
    PhantomIsHard(d, p, g, s);
    SatisfiesOne(m, HardClauses(d), c);
    ImplicationHolds(m, d.attendVar[((p, g), s)], d.groupSlotVar[(g, s)]);
  }

  /** A model of the clause [x, -y] that reports y reports x. */
  lemma ImplicationHolds(m: set<int>, y: int, x: int)
    requires Consistent(m) && Satisfies(m, [x, -y]) && y in m
    ensures x in m
  {
    var l :| l in [x, -y] && l in m;
  }

  /** The "attending implies held" clauses are hard clauses. */
  lemma PhantomIsHard(d: ScrumData, p: Person, g: GroupName, s: int)
    requires Lookups(d) && Listed(d) && p in d.people && g in d.people[p] && 1 <= s <= d.numSlots
    ensures [d.groupSlotVar[(g, s)], -d.attendVar[((p, g), s)]] in HardClauses(d)
  {
    var k :| 0 <= k < |d.personOrder| && d.personOrder[k] == p;
    PhantomPeopleHas(d, |d.personOrder|, k, p, g, s);
    InSecond(Fold(Start(d), Blocks(d)).clauses, PhantomPeople(d, |d.personOrder|),
             [d.groupSlotVar[(g, s)], -d.attendVar[((p, g), s)]]);
  }

  /** A clause among the "attending implies held" clauses of p for the groups gs is the clause
      of one of those groups in one slot. */
  lemma {:induction false} PhantomGroupsOnly(d: ScrumData, p: Person, gs: seq<GroupName>, c: Clause)
    returns (i: nat, s: int)
    requires Lookups(d) && p in d.people && OwnGroups(d, p, gs) && c in PhantomGroups(d, p, gs)
    ensures i < |gs| && 1 <= s <= d.numSlots
    ensures c == [d.groupSlotVar[(gs[i], s)], -d.attendVar[((p, gs[i]), s)]]
  {
    var init := gs[..|gs| - 1];
    var ps := PhantomSlots(d, p, gs[|gs| - 1]);
    if c in PhantomGroups(d, p, init) {
      i, s := PhantomGroupsOnly(d, p, init, c);
      assert init[i] == gs[i];
    } else {
      var t :| 0 <= t < |ps| && ps[t] == c;
      i, s := |gs| - 1, t + 1;
    }
  }

  /** A clause among the "attending implies held" clauses of the first j people is the clause
      of one of them, one of their groups and one slot. */
  lemma {:induction false} PhantomPeopleOnly(d: ScrumData, j: nat, c: Clause)
    returns (k: nat, p: Person, g: GroupName, s: int)
    requires Lookups(d) && Listed(d) && j <= |d.personOrder| && c in PhantomPeople(d, j)
    ensures k < j && d.personOrder[k] == p && p in d.people && g in d.people[p] && 1 <= s <= d.numSlots
    ensures c == [d.groupSlotVar[(g, s)], -d.attendVar[((p, g), s)]]
  {
    var q := d.personOrder[j - 1];
    PersonGroupsOwn(d, q);
    var gs := PersonGroups(d, q);
    if c in PhantomPeople(d, j - 1) {
      k, p, g, s := PhantomPeopleOnly(d, j - 1, c);
    } else {
      var i;
      i, s := PhantomGroupsOnly(d, q, gs, c);
      k, p, g := j - 1, q, gs[i];
    }
  }

  /** Two sequences without repeats and without a common element concatenate to one without
      repeats. */
  lemma DistinctAppend<T>(a: seq<T>, b: seq<T>)
    requires Distinct(a) && Distinct(b)
    requires forall i, j :: 0 <= i < |a| && 0 <= j < |b| ==> a[i] != b[j]
    ensures Distinct(a + b)
  {
    forall i, j | 0 <= i < j < |a + b| ensures (a + b)[i] != (a + b)[j] {
      if j < |a| {
        assert (a + b)[i] == a[i] && (a + b)[j] == a[j];
      } else if i < |a| {
        assert (a + b)[i] == a[i] && (a + b)[j] == b[j - |a|];
      } else {
        assert (a + b)[i] == b[i - |a|] && (a + b)[j] == b[j - |a|];
      }
    }
  }

  /** An element of a sequence without repeats sits at exactly one index. */
  lemma OnlyOnce<T>(xs: seq<T>, x: T)
    requires Distinct(xs) && x in xs
    ensures exists i :: 0 <= i < |xs| && xs[i] == x && forall j :: 0 <= j < |xs| && xs[j] == x ==> j == i
  {
    var i :| 0 <= i < |xs| && xs[i] == x;
  }

  /** The clauses of one group of p name a different attendance variable in each slot. */
  lemma PhantomSlotsDistinct(d: ScrumData, p: Person, g: GroupName)
    requires Numbered(d) && Lookups(d) && p in d.people && g in d.people[p] && g in Names(d.groups)
    ensures Distinct(PhantomSlots(d, p, g))
  {
    var ps := PhantomSlots(d, p, g);
    forall i, j | 0 <= i < j < |ps| ensures ps[i] != ps[j] {
      assert ((p, g), i + 1) != ((p, g), j + 1);
      assert ps[i][1] != ps[j][1];
    }
  }

  /** The clauses of the distinct groups gs of p never repeat. */
  lemma {:induction false} PhantomGroupsDistinct(d: ScrumData, p: Person, gs: seq<GroupName>)
    requires Numbered(d) && Lookups(d) && p in d.people && OwnGroups(d, p, gs) && Distinct(gs)
    ensures Distinct(PhantomGroups(d, p, gs))
  {
    if gs != [] {
      var init, g := gs[..|gs| - 1], gs[|gs| - 1];
      var a, b := PhantomGroups(d, p, init), PhantomSlots(d, p, g);
      PhantomGroupsDistinct(d, p, init);
      PhantomSlotsDistinct(d, p, g);
      forall x, y | 0 <= x < |a| && 0 <= y < |b| ensures a[x] != b[y] {
        var i, s := PhantomGroupsOnly(d, p, init, a[x]);
        assert init[i] == gs[i] && i < |gs| - 1;
        assert ((p, init[i]), s) != ((p, g), y + 1);
        assert a[x][1] != b[y][1];
      }
      DistinctAppend(a, b);
    }
  }

  /** The clauses of distinct people never repeat. */
  lemma {:induction false} PhantomPeopleDistinct(d: ScrumData, j: nat)
    requires Numbered(d) && Lookups(d) && Listed(d) && j <= |d.personOrder|
    requires Distinct(d.personOrder) && Distinct(Names(d.groups))
    ensures Distinct(PhantomPeople(d, j))
  {
    if j > 0 {
      var q := d.personOrder[j - 1];
      PersonGroupsOwn(d, q);
      var gs := PersonGroups(d, q);
      var a, b := PhantomPeople(d, j - 1), PhantomGroups(d, q, gs);
      PhantomPeopleDistinct(d, j - 1);
      PhantomGroupsDistinct(d, q, gs);
      forall x, y | 0 <= x < |a| && 0 <= y < |b| ensures a[x] != b[y] {
        var k, p, g, s := PhantomPeopleOnly(d, j - 1, a[x]);
        var i, t := PhantomGroupsOnly(d, q, gs, b[y]);
        assert p != q;
        assert ((p, g), s) != ((q, gs[i]), t);
        assert a[x][1] != b[y][1];
      }
      DistinctAppend(a, b);
    }
  }

  /** The clause of the k-th person p, group g and slot s occurs exactly once among the
      "attending implies held" clauses when IDs are injective and neither people nor groups
      repeat. */
  lemma PhantomOnceAt(d: ScrumData, k: nat, p: Person, g: GroupName, s: int)
    requires Numbered(d) && Lookups(d) && Listed(d) && Distinct(d.personOrder) && Distinct(Names(d.groups))
    requires k < |d.personOrder| && d.personOrder[k] == p && g in d.people[p] && 1 <= s <= d.numSlots
    ensures var ps := PhantomPeople(d, |d.personOrder|);
            var c := [d.groupSlotVar[(g, s)], -d.attendVar[((p, g), s)]];
            exists i :: 0 <= i < |ps| && ps[i] == c && forall j :: 0 <= j < |ps| && ps[j] == c ==> j == i
  {
    var ps := PhantomPeople(d, |d.personOrder|);
    var c := [d.groupSlotVar[(g, s)], -d.attendVar[((p, g), s)]];
    PhantomPeopleHas(d, |d.personOrder|, k, p, g, s);
    PhantomPeopleDistinct(d, |d.personOrder|);
    OnlyOnce(ps, c);
  }

  /** On the data `create_scrum_data` builds, the loop over people, their groups and the slots
      emits the clause "p attends g in slot s implies g meets in s" exactly once for each
      person p, group g of p and slot s. */
  lemma PhantomOnce(d: ScrumData, p: Person, g: GroupName, s: int)
    requires Built(d) && p in d.people && g in d.people[p] && 1 <= s <= d.numSlots
    ensures Lookups(d) && Listed(d) && g in Names(d.groups)
    ensures var ps := PhantomPeople(d, |d.personOrder|);
            var c := [d.groupSlotVar[(g, s)], -d.attendVar[((p, g), s)]];
            exists i :: 0 <= i < |ps| && ps[i] == c && forall j :: 0 <= j < |ps| && ps[j] == c ==> j == i
  {
    BuiltLookups(d);
    BuiltNumbered(d);
    InverseMap(d);
    var k :| 0 <= k < |d.personOrder| && d.personOrder[k] == p;
    PhantomOnceAt(d, k, p, g, s);
  }

  /** Soundness of the encoding: every consistent model of the hard clauses is a timetable. */
  lemma HardClausesSound(d: ScrumData, m: set<int>)
    requires Lookups(d) && Listed(d) && Consistent(m) && SatisfiesAll(m, HardClauses(d))
    ensures forall g :: g in Names(d.groups) ==>
              exists s :: 1 <= s <= d.numSlots && d.groupSlotVar[(g, s)] in m
    ensures forall g, s, u :: g in Names(d.groups) && 1 <= s < u <= d.numSlots && d.groupSlotVar[(g, s)] in m ==>
              d.groupSlotVar[(g, u)] !in m
    ensures forall p, g, h, s ::
              (p in d.people && g in d.people[p] && h in d.people[p] && g != h && 1 <= s <= d.numSlots &&
               d.attendVar[((p, g), s)] in m) ==> d.attendVar[((p, h), s)] !in m
    ensures forall p, g, s :: p in d.people && g in d.people[p] && 1 <= s <= d.numSlots && d.attendVar[((p, g), s)] in m ==>
              d.groupSlotVar[(g, s)] in m
  {
    forall g | g in Names(d.groups)
      ensures exists s :: 1 <= s <= d.numSlots && d.groupSlotVar[(g, s)] in m
      ensures forall s, u :: 1 <= s < u <= d.numSlots && d.groupSlotVar[(g, s)] in m ==> d.groupSlotVar[(g, u)] !in m
    {
      GroupBlockListed(d, g);
      BlockHolds(d, m, Block(true, SlotVars(d, g)));
      GroupMeetsOnce(d, m, g);
    }
    forall p, g, h, s | p in d.people && g in d.people[p] && h in d.people[p] && g != h && 1 <= s <= d.numSlots &&
                        d.attendVar[((p, g), s)] in m
      ensures d.attendVar[((p, h), s)] !in m
    {
      PersonBlockListed(d, p, s);
      BlockHolds(d, m, Block(false, AttendLits(d, p, s)));
      NoDoubleBooking(d, m, p, s);
    }
    forall p, g, s | p in d.people && g in d.people[p] && 1 <= s <= d.numSlots && d.attendVar[((p, g), s)] in m
      ensures d.groupSlotVar[(g, s)] in m
    {
      NoPhantom(d, m, p, g, s);
    }
  }

  /** A timetable: `slot[g]` is the slot group g meets in, and `attends` holds the
      ((person, group), slot) attendances, each of a member at their group's meeting, and never
      two in one slot for the same person. */
  ghost predicate Timetable(d: ScrumData, slot: map<GroupName, int>, attends: set<((Person, GroupName), int)>)
  {
    && (forall g :: g in Names(d.groups) ==> g in slot && 1 <= slot[g] <= d.numSlots)
    && (forall a :: a in attends ==>
          a.0.0 in d.people && a.0.1 in d.people[a.0.0] && a.0.1 in slot && a.1 == slot[a.0.1])
    && (forall a, b :: a in attends && b in attends && a.0.0 == b.0.0 && a.1 == b.1 ==> a.0.1 == b.0.1)
  }

  /** Whether the timetable sets problem variable v true: v is the variable of a meeting slot
      or of an attendance. */
  ghost predicate SetTrue(d: ScrumData, slot: map<GroupName, int>, attends: set<((Person, GroupName), int)>, v: int)
  {
    || (exists k :: k in d.groupSlotVar && d.groupSlotVar[k] == v && k.0 in slot && slot[k.0] == k.1)
    || (exists k :: k in d.attendVar && d.attendVar[k] == v && k in attends)
  }

  /** The problem variables 1 .. highestVar set as the timetable says. */
  ghost function Assignment(d: ScrumData, slot: map<GroupName, int>, attends: set<((Person, GroupName), int)>): set<int>
  {
    set v: int | -(d.highestVar as int) <= v <= d.highestVar && v != 0 && (v > 0 <==> SetTrue(d, slot, attends, Abs(v)))
  }

  /** The assignment never sets a variable both ways and stays within the problem variables. */
  lemma AssignmentConsistent(d: ScrumData, slot: map<GroupName, int>, attends: set<((Person, GroupName), int)>)
    ensures Consistent(Assignment(d, slot, attends))
    ensures Within(Assignment(d, slot, attends), d.highestVar)
  {
    var m0 := Assignment(d, slot, attends);
    forall v | v in m0 ensures -v !in m0 {
      assert Abs(-v) == Abs(v);
    }
  }

  /** The group-slot variable of (g, s) is true exactly when g meets in slot s. */
  lemma AssignmentGroupVar(d: ScrumData, slot: map<GroupName, int>, attends: set<((Person, GroupName), int)>,
                           k: (GroupName, int))
    requires Numbered(d) && k in d.groupSlotVar
    ensures d.groupSlotVar[k] in Assignment(d, slot, attends) <==> k.0 in slot && slot[k.0] == k.1
    ensures -d.groupSlotVar[k] in Assignment(d, slot, attends) <==> !(k.0 in slot && slot[k.0] == k.1)
  {
    var v := d.groupSlotVar[k];
    assert !exists k' :: k' in d.attendVar && d.attendVar[k'] == v;
    assert Abs(-v) == v;
  }

  /** The attendance variable of ((p, g), s) is true exactly when that attendance happens. */
  lemma AssignmentAttendVar(d: ScrumData, slot: map<GroupName, int>, attends: set<((Person, GroupName), int)>,
                            k: ((Person, GroupName), int))
    requires Numbered(d) && k in d.attendVar
    ensures d.attendVar[k] in Assignment(d, slot, attends) <==> k in attends
    ensures -d.attendVar[k] in Assignment(d, slot, attends) <==> k !in attends
  {
    var v := d.attendVar[k];
    assert !exists k' :: k' in d.groupSlotVar && d.groupSlotVar[k'] == v;
    assert Abs(-v) == v;
  }

  /** Every block is a group's "exactly one slot" block or a person's slot block. */
  lemma {:induction false} PersonBlocksOnly(d: ScrumData, j: nat, b: Block)
    requires Lookups(d) && j <= |d.personOrder| && b in PersonBlocks(d, j)
    ensures exists k, s :: 0 <= k < j && 1 <= s <= d.numSlots && b == Block(false, AttendLits(d, d.personOrder[k], s))
  {
    var p := d.personOrder[j - 1];
    if b in SlotBlocks(d, p) {
      var i :| 0 <= i < d.numSlots && SlotBlocks(d, p)[i] == b;
      assert b == Block(false, AttendLits(d, d.personOrder[j - 1], i + 1));
    } else {
      PersonBlocksOnly(d, j - 1, b);
    }
  }

  /** The timetable gives a group's block exactly one true literal. */
  lemma AdmitsGroupBlock(d: ScrumData, slot: map<GroupName, int>, attends: set<((Person, GroupName), int)>, g: GroupName)
    requires Numbered(d) && Lookups(d) && Timetable(d, slot, attends) && g in Names(d.groups)
    ensures Below(SlotVars(d, g), d.highestVar)
    ensures Admits(Assignment(d, slot, attends), Block(true, SlotVars(d, g)))
  {
    var m0 := Assignment(d, slot, attends);
    var lits := SlotVars(d, g);
    var k := slot[g] - 1;
    forall i | 0 <= i < |lits|
      ensures Abs(lits[i]) <= d.highestVar
      ensures (lits[i] in m0 <==> i == k) && (-lits[i] in m0 <==> i != k)
    {
      AssignmentGroupVar(d, slot, attends, (g, i + 1));
    }
    AdmitsOnly(m0, lits, k);
  }

  /** The timetable gives a person's slot block at most one true literal. */
  lemma AdmitsSlotBlock(d: ScrumData, slot: map<GroupName, int>, attends: set<((Person, GroupName), int)>,
                        p: Person, s: int)
    requires Numbered(d) && Lookups(d) && Listed(d) && Distinct(Names(d.groups)) && Timetable(d, slot, attends)
    requires p in d.people && 1 <= s <= d.numSlots
    ensures Below(AttendLits(d, p, s), d.highestVar)
    ensures Admits(Assignment(d, slot, attends), Block(false, AttendLits(d, p, s)))
  {
    SlotLitsDecided(d, slot, attends, p, s);
    SlotLitsExclusive(d, slot, attends, p, s);
  }

  /** Every attendance literal of p in slot s is a problem variable the timetable decides. */
  lemma SlotLitsDecided(d: ScrumData, slot: map<GroupName, int>, attends: set<((Person, GroupName), int)>,
                        p: Person, s: int)
    requires Numbered(d) && Lookups(d) && Listed(d) && Timetable(d, slot, attends)
    requires p in d.people && 1 <= s <= d.numSlots
    ensures var lits := AttendLits(d, p, s);
            forall i :: 0 <= i < |lits| ==>
              && Abs(lits[i]) <= d.highestVar
              && (lits[i] in Assignment(d, slot, attends) <==> ((p, PersonGroups(d, p)[i]), s) in attends)
              && (-lits[i] in Assignment(d, slot, attends) <==> ((p, PersonGroups(d, p)[i]), s) !in attends)
  {
    var lits := AttendLits(d, p, s);
    var gs := PersonGroups(d, p);
    forall i | 0 <= i < |lits|
      ensures Abs(lits[i]) <= d.highestVar
      ensures lits[i] in Assignment(d, slot, attends) <==> ((p, gs[i]), s) in attends
      ensures -lits[i] in Assignment(d, slot, attends) <==> ((p, gs[i]), s) !in attends
    {
      assert gs[i] in gs;
      AssignmentAttendVar(d, slot, attends, ((p, gs[i]), s));
    }
  }

  /** The timetable books p into at most one of their groups in slot s. */
  lemma SlotLitsExclusive(d: ScrumData, slot: map<GroupName, int>, attends: set<((Person, GroupName), int)>,
                          p: Person, s: int)
    requires Numbered(d) && Lookups(d) && Listed(d) && Distinct(Names(d.groups)) && Timetable(d, slot, attends)
    requires p in d.people && 1 <= s <= d.numSlots
    ensures var lits := AttendLits(d, p, s);
            forall i, j :: 0 <= i < j < |lits| && lits[i] in Assignment(d, slot, attends) ==>
              lits[j] !in Assignment(d, slot, attends)
  {
    var lits := AttendLits(d, p, s);
    var gs := PersonGroups(d, p);
    SlotLitsDecided(d, slot, attends, p, s);
    forall i, j | 0 <= i < j < |lits| && lits[i] in Assignment(d, slot, attends)
      ensures lits[j] !in Assignment(d, slot, attends)
    {
      assert gs[i] != gs[j];
      assert ((p, gs[j]), s) !in attends;
    }
  }

  /** The timetable satisfies the "attending implies held" clauses of group g of p. */
  lemma PhantomSlotsHold(d: ScrumData, slot: map<GroupName, int>, attends: set<((Person, GroupName), int)>,
                         p: Person, g: GroupName)
    requires Numbered(d) && Lookups(d) && Timetable(d, slot, attends)
    requires p in d.people && g in d.people[p] && g in Names(d.groups)
    ensures SatisfiesAll(Assignment(d, slot, attends), PhantomSlots(d, p, g))
  {
    var ps := PhantomSlots(d, p, g);
    var m0 := Assignment(d, slot, attends);
    forall i | 0 <= i < |ps| ensures Satisfies(m0, ps[i]) {
      PhantomSlotHolds(d, slot, attends, p, g, i + 1);
    }
    SatisfiesEach(m0, ps);
  }

  /** The timetable satisfies the clause "if p attends g's meeting in slot s, the meeting is
      held in slot s". */
  lemma PhantomSlotHolds(d: ScrumData, slot: map<GroupName, int>, attends: set<((Person, GroupName), int)>,
                         p: Person, g: GroupName, s: int)
    requires Numbered(d) && Timetable(d, slot, attends)
    requires (g, s) in d.groupSlotVar && ((p, g), s) in d.attendVar
    ensures Satisfies(Assignment(d, slot, attends), [d.groupSlotVar[(g, s)], -d.attendVar[((p, g), s)]])
  {
    var m0 := Assignment(d, slot, attends);
    var c := [d.groupSlotVar[(g, s)], -d.attendVar[((p, g), s)]];
    AssignmentGroupVar(d, slot, attends, (g, s));
    AssignmentAttendVar(d, slot, attends, ((p, g), s));
    if ((p, g), s) in attends {
      assert c[0] in c && c[0] in m0;
    } else {
      assert c[1] in c && c[1] in m0;
    }
  }

  /** The timetable satisfies the "attending implies held" clauses of the groups gs of p. */
  lemma {:induction false} PhantomGroupsHold(d: ScrumData, slot: map<GroupName, int>, attends: set<((Person, GroupName), int)>,
                                             p: Person, gs: seq<GroupName>)
    requires Numbered(d) && Lookups(d) && Timetable(d, slot, attends)
    requires p in d.people && OwnGroups(d, p, gs)
    ensures SatisfiesAll(Assignment(d, slot, attends), PhantomGroups(d, p, gs))
  {
    if gs != [] {
      PhantomGroupsHold(d, slot, attends, p, gs[..|gs| - 1]);
      PhantomSlotsHold(d, slot, attends, p, gs[|gs| - 1]);
    }
  }

  lemma {:induction false} PhantomPeopleHold(d: ScrumData, slot: map<GroupName, int>, attends: set<((Person, GroupName), int)>,
                                             j: nat)
    requires Numbered(d) && Lookups(d) && Listed(d) && Timetable(d, slot, attends) && j <= |d.personOrder|
    ensures SatisfiesAll(Assignment(d, slot, attends), PhantomPeople(d, j))
  {
    if j > 0 {
      var p := d.personOrder[j - 1];
      PhantomPeopleHold(d, slot, attends, j - 1);
      PersonGroupsOwn(d, p);
      PhantomGroupsHold(d, slot, attends, p, PersonGroups(d, p));
    }
  }

  /** The model says exactly what the timetable says about every meeting slot and every
      attendance. */
  ghost predicate Agrees(d: ScrumData, slot: map<GroupName, int>, attends: set<((Person, GroupName), int)>,
                         m: set<int>)
  {
    && (forall k :: k in d.groupSlotVar ==> (d.groupSlotVar[k] in m <==> k.0 in slot && slot[k.0] == k.1))
    && (forall k :: k in d.attendVar ==> (d.attendVar[k] in m <==> k in attends))
  }

  /** A model that contains the timetable's assignment agrees with it on every problem
      variable. */
  lemma AgreesWithTimetable(d: ScrumData, slot: map<GroupName, int>, attends: set<((Person, GroupName), int)>, m: set<int>)
    requires Numbered(d) && Assignment(d, slot, attends) <= m && Consistent(m)
    ensures Agrees(d, slot, attends, m)
  {
    forall k | k in d.groupSlotVar ensures d.groupSlotVar[k] in m <==> k.0 in slot && slot[k.0] == k.1 {
      AssignmentGroupVar(d, slot, attends, k);
    }
    forall k | k in d.attendVar ensures d.attendVar[k] in m <==> k in attends {
      AssignmentAttendVar(d, slot, attends, k);
    }
  }

  /** The timetable decides every literal of every block and admits each block. */
  lemma BlocksAdmitted(d: ScrumData, slot: map<GroupName, int>, attends: set<((Person, GroupName), int)>)
    requires Numbered(d) && Lookups(d) && Listed(d) && Distinct(Names(d.groups)) && Timetable(d, slot, attends)
    ensures forall b :: b in Blocks(d) ==> Below(b.lits, d.highestVar) && Admits(Assignment(d, slot, attends), b)
  {
    forall b | b in Blocks(d) ensures Below(b.lits, d.highestVar) && Admits(Assignment(d, slot, attends), b) {
      if b in GroupBlocks(d) {
        var i :| 0 <= i < |GroupBlocks(d)| && GroupBlocks(d)[i] == b;
        AdmitsGroupBlock(d, slot, attends, Names(d.groups)[i]);
      } else {
        PersonBlocksOnly(d, |d.personOrder|, b);
        var k, s :| 0 <= k < |d.personOrder| && 1 <= s <= d.numSlots && b == Block(false, AttendLits(d, d.personOrder[k], s));
        AdmitsSlotBlock(d, slot, attends, d.personOrder[k], s);
      }
    }
  }

  /** Completeness of the encoding: every timetable extends, by values for the counter
      variables alone, to a model of the hard clauses, and that model says exactly what the
      timetable says about every meeting slot and every attendance. */
  lemma HardClausesComplete(d: ScrumData, slot: map<GroupName, int>, attends: set<((Person, GroupName), int)>)
    requires Built(d) && Timetable(d, slot, attends)
    ensures Lookups(d) && Listed(d)
    ensures exists m :: Assignment(d, slot, attends) <= m && Consistent(m) && SatisfiesAll(m, HardClauses(d))
    ensures forall m :: Assignment(d, slot, attends) <= m && Consistent(m) ==> Agrees(d, slot, attends, m)
  {
    BuiltLookups(d);
    BuiltNumbered(d);
    var m0 := Assignment(d, slot, attends);
    AssignmentConsistent(d, slot, attends);
    BlocksAdmitted(d, slot, attends);
    FoldComplete(Start(d), Blocks(d), m0);

    var m :| m0 <= m && Consistent(m) && SatisfiesAll(m, Fold(Start(d), Blocks(d)).clauses) && Within(m, Fold(Start(d), Blocks(d)).top);
    PhantomPeopleHold(d, slot, attends, |d.personOrder|);
    SatisfiesMore(m0, m, PhantomPeople(d, |d.personOrder|));
    assert SatisfiesAll(m, HardClauses(d));
    forall m' | m0 <= m' && Consistent(m') ensures Agrees(d, slot, attends, m') {
      AgreesWithTimetable(d, slot, attends, m');
    }
  }

  /** Every literal of every block is a problem variable, at most `highest_var`. */
  lemma BlocksBelow(d: ScrumData)
    requires Numbered(d) && Lookups(d) && Listed(d)
    ensures forall b :: b in Blocks(d) ==> Below(b.lits, d.highestVar)
  {
    forall b | b in Blocks(d) ensures Below(b.lits, d.highestVar) {
      if b in GroupBlocks(d) {
        var i :| 0 <= i < |GroupBlocks(d)| && GroupBlocks(d)[i] == b;
        var g := Names(d.groups)[i];
        forall t | 0 <= t < |b.lits| ensures Abs(b.lits[t]) <= d.highestVar {
          assert b.lits[t] == d.groupSlotVar[(g, t + 1)];
        }
      } else {
        PersonBlocksOnly(d, |d.personOrder|, b);
        var k, s :| 0 <= k < |d.personOrder| && 1 <= s <= d.numSlots && b == Block(false, AttendLits(d, d.personOrder[k], s));
        var p := d.personOrder[k];
        var gs := PersonGroups(d, p);
        forall t | 0 <= t < |b.lits| ensures Abs(b.lits[t]) <= d.highestVar {
          assert gs[t] in gs;
          assert b.lits[t] == d.attendVar[((p, gs[t]), s)];
        }
      }
    }
  }

  /** On the data `create_scrum_data` builds, the counters of distinct blocks occupy disjoint
      ID ranges above `highest_var`: block i draws `Fold(Start(d), Blocks(d)[..i]).top + 1`
      to `+ Counters(Blocks(d)[i])`, at or below the watermark any later block j starts from. */
  lemma EncodingCountersDisjoint(d: ScrumData, i: nat, j: nat)
    requires Built(d) && Lookups(d) && i < j <= |Blocks(d)|
    ensures d.highestVar <= Fold(Start(d), Blocks(d)[..i]).top
    ensures Fold(Start(d), Blocks(d)[..i]).top + Counters(Blocks(d)[i]) <= Fold(Start(d), Blocks(d)[..j]).top
  {
    BuiltLookups(d);
    BuiltNumbered(d);
    BlocksBelow(d);
    NvEmpty();
    CountersDisjoint(Start(d), Blocks(d), i, j);
  }
}
