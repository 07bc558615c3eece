/** What the cost of a solver model counts: every soft clause has weight 1, so the cost is the
    number of violated soft clauses, and there is exactly one soft clause per (person, group)
    membership. The cost is therefore the number of memberships whose meeting the person
    attends in no slot, the "missed meetings" the source reports. */
module Missed {
  import opened Cnf
  import opened Scrum
  import opened Encoder

  /** The total weight of the clauses of `cs` that `m` violates, each of weight 1. */
  function Cost(m: set<int>, cs: seq<Clause>): (r: nat)
    ensures r <= |cs|
  {
    if cs == [] then 0
    else Cost(m, cs[..|cs| - 1]) + (if Satisfies(m, cs[|cs| - 1]) then 0 else 1)
  }

  /** Person p attends the meeting of group g in no slot. */
  ghost predicate MissesMeeting(d: ScrumData, m: set<int>, p: Person, g: GroupName)
  {
    forall s :: 1 <= s <= d.numSlots && ((p, g), s) in d.attendVar ==> d.attendVar[((p, g), s)] !in m
  }

  /** A membership's soft clause is violated exactly when the person misses the meeting. */
  lemma SoftClauseMeaning(d: ScrumData, m: set<int>, p: Person, g: GroupName)
    requires Lookups(d) && p in d.people && g in d.people[p]
    ensures !Satisfies(m, AttendSlots(d, p, g)) <==> MissesMeeting(d, m, p, g)
  {
    var c := AttendSlots(d, p, g);
    if Satisfies(m, c) {
      var l :| l in c && l in m;
      var i :| 0 <= i < |c| && c[i] == l;
      assert d.attendVar[((p, g), i + 1)] in m;
    }
    if !MissesMeeting(d, m, p, g) {
      var s :| 1 <= s <= d.numSlots && d.attendVar[((p, g), s)] in m;
      assert c[s - 1] == d.attendVar[((p, g), s)];
      assert c[s - 1] in c;
    }
  }

  /** The memberships of p, in the order their soft clauses are emitted. */
  function PersonKeys(d: ScrumData, p: Person): seq<(Person, GroupName)>
    requires p in d.people
  {
    var gs := PersonGroups(d, p);
    seq(|gs|, k requires 0 <= k < |gs| => (p, gs[k]))
  }

  /** The memberships of the first j people, in the order their soft clauses are emitted. */
  function SoftKeys(d: ScrumData, j: nat): seq<(Person, GroupName)>
    requires Lookups(d) && j <= |d.personOrder|
  {
    if j == 0 then [] else SoftKeys(d, j - 1) + PersonKeys(d, d.personOrder[j - 1])
  }

  /** The i-th soft clause is the clause of the i-th membership. */
  lemma {:induction false} SoftKeysMatch(d: ScrumData, j: nat)
    requires Lookups(d) && j <= |d.personOrder|
    ensures |SoftPeople(d, j)| == |SoftKeys(d, j)|
    ensures forall i :: 0 <= i < |SoftKeys(d, j)| ==>
              SoftKeys(d, j)[i].0 in d.people && SoftKeys(d, j)[i].1 in d.people[SoftKeys(d, j)[i].0]
    ensures forall i :: 0 <= i < |SoftKeys(d, j)| ==>
              SoftPeople(d, j)[i] == AttendSlots(d, SoftKeys(d, j)[i].0, SoftKeys(d, j)[i].1)
  {
    if j > 0 {
      SoftKeysMatch(d, j - 1);
      var p := d.personOrder[j - 1];
      var gs := PersonGroups(d, p);
      forall k | 0 <= k < |gs| ensures gs[k] in d.people[p] {
        assert gs[k] in gs;
      }
    }
  }

  /** The keys are exactly the memberships of the first j people. */
  lemma {:induction false} SoftKeysCover(d: ScrumData, j: nat)
    requires Lookups(d) && Listed(d) && j <= |d.personOrder|
    ensures forall p, g :: (p, g) in SoftKeys(d, j) <==>
              (exists k :: 0 <= k < j && d.personOrder[k] == p) && g in d.people[p]
  {
    if j > 0 {
      SoftKeysCover(d, j - 1);
      var q := d.personOrder[j - 1];
      forall p, g ensures (p, g) in PersonKeys(d, q) <==> p == q && g in d.people[q] {
        var gs := PersonGroups(d, q);
        if p == q && g in d.people[q] {
          var k :| 0 <= k < |gs| && gs[k] == g;
          assert PersonKeys(d, q)[k] == (p, g);
        }
      }
    }
  }

  /** No membership has two soft clauses. */
  lemma {:induction false} SoftKeysDistinct(d: ScrumData, j: nat)
    requires Lookups(d) && Listed(d) && j <= |d.personOrder| && Distinct(d.personOrder) && Distinct(Names(d.groups))
    ensures Distinct(SoftKeys(d, j))
  {
    if j > 0 {
      SoftKeysDistinct(d, j - 1);
      SoftKeysCover(d, j - 1);
      var q := d.personOrder[j - 1];
      var a: seq<(Person, GroupName)>, b: seq<(Person, GroupName)> := SoftKeys(d, j - 1), PersonKeys(d, q);
      forall x, y | 0 <= x < y < |a + b| ensures (a + b)[x] != (a + b)[y] {
        if y >= |a| && x < |a| {
          assert (a + b)[y].0 == q;
        } else if x >= |a| {
          assert PersonGroups(d, q)[x - |a|] != PersonGroups(d, q)[y - |a|];
        }
      }
    }
  }

  /** The keys of `keys` whose person misses the meeting. */
  ghost function MissedKeys(d: ScrumData, m: set<int>, keys: seq<(Person, GroupName)>): set<(Person, GroupName)>
  {
    if keys == [] then {}
    else
      var k := keys[|keys| - 1];
      MissedKeys(d, m, keys[..|keys| - 1]) + (if MissesMeeting(d, m, k.0, k.1) then {k} else {})
  }

  /** A key is a missed key exactly when it is listed and its meeting is missed. */
  lemma {:induction false} MissedKeysMeaning(d: ScrumData, m: set<int>, keys: seq<(Person, GroupName)>)
    ensures forall k :: k in MissedKeys(d, m, keys) ==> k in keys
    ensures forall k :: k in keys ==> (k in MissedKeys(d, m, keys) <==> MissesMeeting(d, m, k.0, k.1))
  {
    if keys != [] {
      var n := |keys| - 1;
      MissedKeysMeaning(d, m, keys[..n]);
      assert forall k :: k in keys ==> k in keys[..n] || k == keys[n];
    }
  }

  /** The cost of clauses paired one to one with distinct memberships, each violated exactly
      when its membership's meeting is missed, is the number of those missed meetings. */
  lemma {:induction false} CostCounts(d: ScrumData, m: set<int>, cs: seq<Clause>, keys: seq<(Person, GroupName)>)
    requires |cs| == |keys| && Distinct(keys)
    requires forall i :: 0 <= i < |keys| ==> (!Satisfies(m, cs[i]) <==> MissesMeeting(d, m, keys[i].0, keys[i].1))
    ensures Cost(m, cs) == |MissedKeys(d, m, keys)|
    decreases |cs|
  {
    if cs != [] {
      var n := |cs| - 1;
      var k := keys[n];
      CostCounts(d, m, cs[..n], keys[..n]);
      MissedKeysMeaning(d, m, keys[..n]);
      assert k !in keys[..n];
      CountStep(MissedKeys(d, m, keys[..n]), k, MissesMeeting(d, m, k.0, k.1));
    }
  }

  /** Adding a key not counted yet raises the count by one. */
  lemma CountStep<K>(prev: set<K>, k: K, add: bool)
    requires k !in prev
    ensures |prev + (if add then {k} else {})| == |prev| + (if add then 1 else 0)
  {
    if !add {
      assert prev + {} == prev;
    }
  }

  /** The memberships whose meeting the person attends in no slot. */
  ghost function MissedMeetings(d: ScrumData, m: set<int>): set<(Person, GroupName)>
    requires Lookups(d)
  {
    set p, g | p in d.people && g in d.people[p] && MissesMeeting(d, m, p, g) :: (p, g)
  }

  /** Keys that list every membership once pick out all missed meetings. */
  lemma MissedKeysAll(d: ScrumData, m: set<int>, keys: seq<(Person, GroupName)>)
    requires Lookups(d)
    requires forall i :: 0 <= i < |keys| ==> keys[i].0 in d.people && keys[i].1 in d.people[keys[i].0]
    requires forall p, g :: (p, g) in keys <==> p in d.people && g in d.people[p]
    ensures MissedKeys(d, m, keys) == MissedMeetings(d, m)
  {
    MissedKeysMeaning(d, m, keys);
    forall k | k in MissedMeetings(d, m) ensures k in MissedKeys(d, m, keys) {
      assert (k.0, k.1) in keys;
    }
  }

  /** The cost of a model is the number of memberships whose meeting the person misses, for
      data whose people and groups are listed once each. */
  lemma CostCountsMissed(d: ScrumData, m: set<int>)
    requires Lookups(d) && Listed(d) && Distinct(d.personOrder) && Distinct(Names(d.groups))
    ensures Cost(m, SoftClauses(d)) == |MissedMeetings(d, m)|
  {
    var j := |d.personOrder|;
    SoftKeysMatch(d, j);
    SoftKeysCover(d, j);
    SoftKeysDistinct(d, j);
    var keys := SoftKeys(d, j);
    forall i | 0 <= i < |keys|
      ensures !Satisfies(m, SoftClauses(d)[i]) <==> MissesMeeting(d, m, keys[i].0, keys[i].1)
    {
      SoftClauseMeaning(d, m, keys[i].0, keys[i].1);
    }
    CostCounts(d, m, SoftClauses(d), keys);
    MissedKeysAll(d, m, keys);
  }

  /** The cost RC2 reports for a model is the number of memberships whose meeting the person
      attends in no slot. */
  lemma CostIsMissedMeetings(d: ScrumData, m: set<int>)
    requires Built(d)
    ensures Lookups(d)
    ensures Cost(m, SoftClauses(d)) == |MissedMeetings(d, m)|
  {
    BuiltLookups(d);
    InverseMap(d);
    CostCountsMissed(d, m);
  }
}
