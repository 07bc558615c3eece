/** Reading a timetable back out of a solver model (`interpret_model`): the slot of each
    group's meeting, and for each person the group whose meeting they attend in each slot.
    The source checks with `assert` that each group meets exactly once and that nobody attends
    two meetings in one slot; a failed check is an error result here. */
module Decoder {
  import opened Cnf
  import opened Scrum
  import opened Encoder
  import opened Meaning

  /** Why a model cannot be read as a timetable. */
  datatype DecodeError =
    | GroupSlotCount(group: GroupName, slots: seq<int>)
    | DoubleBooked(person: Person, slot: int, groups: seq<GroupName>)

  datatype Result<T> = Ok(value: T) | Err(error: DecodeError)

  /** The decoded timetable: the slot of each group's meeting, and per person the slots they
      attend a meeting in, each with that meeting's group. */
  datatype Schedule = Schedule(meeting: map<GroupName, int>, attending: map<Person, map<int, GroupName>>)

  /** The literals the solver reports, as a set. */
  function ModelSet(model: seq<int>): (r: set<int>)
    ensures forall l :: l in r <==> l in model
  {
    set l | l in model
  }

  /** The slots among 1 .. n in which group g's slot variable is true, in increasing order. */
  function MeetingTimes(d: ScrumData, m: set<int>, g: GroupName, n: nat): (r: seq<int>)
    requires Lookups(d) && g in Names(d.groups) && n <= d.numSlots
    ensures forall s :: s in r <==> 1 <= s <= n && d.groupSlotVar[(g, s)] in m
    ensures forall i, j :: 0 <= i < j < |r| ==> r[i] < r[j]
  {
    if n == 0 then []
    else
      var r0 := MeetingTimes(d, m, g, n - 1);
      assert forall i :: 0 <= i < |r0| ==> r0[i] in r0;
      assert forall i :: 0 <= i < |r0| ==> r0[i] < n;
      if d.groupSlotVar[(g, n)] in m then r0 + [n] else r0
  }

  /** The groups among `gs` whose meeting in slot s person p attends, in the order of `gs`. */
  function Attended(d: ScrumData, m: set<int>, p: Person, s: int, gs: seq<GroupName>): (r: seq<GroupName>)
    requires Lookups(d) && p in d.people && 1 <= s <= d.numSlots
    requires forall i :: 0 <= i < |gs| ==> gs[i] in d.people[p]
    ensures forall g :: g in r <==> g in gs && d.attendVar[((p, g), s)] in m
    ensures Distinct(gs) ==> Distinct(r)
  {
    if gs == [] then []
    else
      var g := gs[|gs| - 1];
      var r0 := Attended(d, m, p, s, gs[..|gs| - 1]);
      assert forall x :: x in gs <==> x in gs[..|gs| - 1] || x == g;
      if d.attendVar[((p, g), s)] in m then
        assert Distinct(gs) ==> g !in gs[..|gs| - 1];
        r0 + [g]
      else r0
  }

  /** The groups of p whose meeting in slot s p attends. */
  function Participation(d: ScrumData, m: set<int>, p: Person, s: int): (r: seq<GroupName>)
    requires Lookups(d) && Listed(d) && p in d.people && 1 <= s <= d.numSlots
    ensures forall g :: g in r <==> g in d.people[p] && d.attendVar[((p, g), s)] in m
    ensures Distinct(Names(d.groups)) ==> Distinct(r)
  {
    Attended(d, m, p, s, PersonGroups(d, p))
  }

  /** The model reads as a timetable: every group meets in exactly one slot and nobody
      attends two meetings in one slot. */
  ghost predicate Decodable(d: ScrumData, m: set<int>)
    requires Lookups(d) && Listed(d)
  {
    && (forall g :: g in Names(d.groups) ==> |MeetingTimes(d, m, g, d.numSlots)| == 1)
    && (forall p, s :: p in d.people && 1 <= s <= d.numSlots ==> |Participation(d, m, p, s)| <= 1)
  }

  /** p's personal schedule: exactly the slots in which p attends one of their meetings, each
      mapped to that meeting's group. */
  ghost predicate PersonalSchedule(d: ScrumData, m: set<int>, p: Person, sched: map<int, GroupName>)
    requires Lookups(d) && p in d.people
  {
    && (forall s :: s in sched <==>
          1 <= s <= d.numSlots && exists g :: g in d.people[p] && d.attendVar[((p, g), s)] in m)
    && (forall s :: s in sched ==> sched[s] in d.people[p] && d.attendVar[((p, sched[s]), s)] in m)
  }

  /** The schedule of one person, slot by slot. */
  method PersonSchedule(d: ScrumData, m: set<int>, p: Person) returns (r: Result<map<int, GroupName>>)
    requires Lookups(d) && Listed(d) && p in d.people
    ensures r.Ok? <==> forall s :: 1 <= s <= d.numSlots ==> |Participation(d, m, p, s)| <= 1
    ensures r.Ok? ==> PersonalSchedule(d, m, p, r.value)
    ensures r.Err? ==> r.error.DoubleBooked? && r.error.person == p && 1 <= r.error.slot <= d.numSlots &&
                       r.error.groups == Participation(d, m, p, r.error.slot) && |r.error.groups| > 1
  {
    var sched: map<int, GroupName> := map[];
    var s := 1;
    while s <= d.numSlots
      invariant 1 <= s <= d.numSlots + 1
      invariant forall u :: 1 <= u < s ==> |Participation(d, m, p, u)| <= 1
      invariant forall u :: u in sched <==> 1 <= u < s && |Participation(d, m, p, u)| == 1
      invariant forall u :: u in sched ==> sched[u] in d.people[p] && d.attendVar[((p, sched[u]), u)] in m
    {
      var groups := Participation(d, m, p, s);
      if |groups| > 1 {
        return Err(DoubleBooked(p, s, groups));
      }
      if |groups| == 1 {
        assert groups[0] in groups;
        sched := sched[s := groups[0]];
      }
      s := s + 1;
    }
    forall u | 1 <= u <= d.numSlots && exists g :: g in d.people[p] && d.attendVar[((p, g), u)] in m
      ensures u in sched
    {
      var g :| g in d.people[p] && d.attendVar[((p, g), u)] in m;
      assert g in Participation(d, m, p, u);
    }
    r := Ok(sched);
  }

  /** Each group meets in the slot `meeting` gives it, and in no other. */
  ghost predicate MeetingSlots(d: ScrumData, m: set<int>, meeting: map<GroupName, int>)
    requires Lookups(d)
  {
    && (forall g :: g in meeting <==> g in Names(d.groups))
    && (forall g :: g in Names(d.groups) ==>
          1 <= meeting[g] <= d.numSlots &&
          forall s :: 1 <= s <= d.numSlots ==> (d.groupSlotVar[(g, s)] in m <==> s == meeting[g]))
  }

  /** The error names a real violation: a group whose slot variables do not name exactly one
      slot, or a person attending more than one meeting in a slot. */
  ghost predicate Genuine(d: ScrumData, m: set<int>, e: DecodeError)
    requires Lookups(d) && Listed(d)
  {
    match e
    case GroupSlotCount(g, slots) =>
      g in Names(d.groups) && slots == MeetingTimes(d, m, g, d.numSlots) && |slots| != 1
    case DoubleBooked(p, s, groups) =>
      p in d.people && 1 <= s <= d.numSlots && groups == Participation(d, m, p, s) && |groups| > 1
  }

  /** The group loop: the meeting slot of each group, in the order of the groups dictionary. */
  method GroupMeetings(d: ScrumData, m: set<int>) returns (r: Result<map<GroupName, int>>)
    requires Lookups(d) && Listed(d)
    ensures r.Ok? <==> forall g :: g in Names(d.groups) ==> |MeetingTimes(d, m, g, d.numSlots)| == 1
    ensures r.Ok? ==> MeetingSlots(d, m, r.value)
    ensures r.Err? ==> r.error.GroupSlotCount? && Genuine(d, m, r.error)
  {
    var names := Names(d.groups);
    var meeting: map<GroupName, int> := map[];
    var i := 0;
    while i < |names|
      invariant 0 <= i <= |names|
      invariant forall g :: g in meeting <==> exists k :: 0 <= k < i && names[k] == g
      invariant forall g :: g in meeting ==> MeetingTimes(d, m, g, d.numSlots) == [meeting[g]]
    {
      var times := MeetingTimes(d, m, names[i], d.numSlots);
      if |times| != 1 {
        return Err(GroupSlotCount(names[i], times));
      }
      meeting := meeting[names[i] := times[0]];
      i := i + 1;
    }
    GroupsDecoded(d, m, meeting);
    r := Ok(meeting);
  }

  /** The person loop: each person's schedule, in the order of the people dictionary. */
  method PeopleSchedules(d: ScrumData, m: set<int>) returns (r: Result<map<Person, map<int, GroupName>>>)
    requires Lookups(d) && Listed(d)
    ensures r.Ok? <==> forall p, s :: p in d.people && 1 <= s <= d.numSlots ==> |Participation(d, m, p, s)| <= 1
    ensures r.Ok? ==> r.value.Keys == d.people.Keys &&
                      forall p :: p in r.value ==> PersonalSchedule(d, m, p, r.value[p])
    ensures r.Err? ==> r.error.DoubleBooked? && Genuine(d, m, r.error)
  {
    var attending: map<Person, map<int, GroupName>> := map[];
    var j := 0;
    while j < |d.personOrder|
      invariant 0 <= j <= |d.personOrder|
      invariant forall p :: p in attending <==> exists k :: 0 <= k < j && d.personOrder[k] == p
      invariant forall k, s :: 0 <= k < j && 1 <= s <= d.numSlots ==> |Participation(d, m, d.personOrder[k], s)| <= 1
      invariant forall p :: p in attending ==> p in d.people && PersonalSchedule(d, m, p, attending[p])
    {
      var p := d.personOrder[j];
      var sched := PersonSchedule(d, m, p);
      if sched.Err? {
        return Err(sched.error);
      }
      attending := attending[p := sched.value];
      j := j + 1;
    }
    r := Ok(attending);
  }

  /** Reads the timetable out of the model the solver reports: groups first, then people. */
  method InterpretModel(model: seq<int>, d: ScrumData) returns (r: Result<Schedule>)
    requires Lookups(d) && Listed(d)
    ensures r.Ok? <==> Decodable(d, ModelSet(model))
    ensures r.Ok? ==> MeetingSlots(d, ModelSet(model), r.value.meeting)
    ensures r.Ok? ==> r.value.attending.Keys == d.people.Keys &&
                      forall p :: p in r.value.attending ==>
                        PersonalSchedule(d, ModelSet(model), p, r.value.attending[p])
    ensures r.Err? ==> Genuine(d, ModelSet(model), r.error)
  {
    var m := ModelSet(model);
    var meeting := GroupMeetings(d, m);
    if meeting.Err? {
      return Err(meeting.error);
    }
    var attending := PeopleSchedules(d, m);
    if attending.Err? {
      return Err(attending.error);
    }
    r := Ok(Schedule(meeting.value, attending.value));
  }

  /** A group whose slot variables name exactly one slot meets in that slot alone. */
  lemma GroupsDecoded(d: ScrumData, m: set<int>, meeting: map<GroupName, int>)
    requires Lookups(d)
    requires forall g :: g in meeting <==> g in Names(d.groups)
    requires forall g :: g in meeting ==> MeetingTimes(d, m, g, d.numSlots) == [meeting[g]]
    ensures MeetingSlots(d, m, meeting)
  {
    forall g | g in meeting
      ensures 1 <= meeting[g] <= d.numSlots
      ensures forall s :: 1 <= s <= d.numSlots ==> (d.groupSlotVar[(g, s)] in m <==> s == meeting[g])
    {
      assert meeting[g] in MeetingTimes(d, m, g, d.numSlots);
    }
  }

  /** A strictly increasing sequence whose elements are exactly one value has length one. */
  lemma {:induction false} SingletonTimes(r: seq<int>, v: int)
    requires forall i, j :: 0 <= i < j < |r| ==> r[i] < r[j]
    requires forall s :: s in r <==> s == v
    ensures |r| == 1
  {
    assert v in r;
    if |r| > 1 {
      FirstTwo(r);
    }
  }

  /** A sequence without repeats, no two of whose elements can both hold, has at most one. */
  lemma AtMostOneAttended(r: seq<GroupName>, attended: set<GroupName>)
    requires Distinct(r)
    requires forall g :: g in r ==> g in attended
    requires forall g, h :: g in attended && h in attended ==> g == h
    ensures |r| <= 1
  {
    if |r| > 1 {
      FirstTwo(r);
    }
  }

  lemma FirstTwo<T>(r: seq<T>)
    requires |r| > 1
    ensures r[0] in r && r[1] in r
  {
  }

  /** Every model of the hard clauses reads as a timetable: neither check of `interpret_model`
      fails on what the solver returns. */
  lemma SolutionsDecode(d: ScrumData, m: set<int>)
    requires Lookups(d) && Listed(d) && Distinct(Names(d.groups))
    requires Consistent(m) && SatisfiesAll(m, HardClauses(d))
    ensures Decodable(d, m)
  {
    HardClausesSound(d, m);
    forall g | g in Names(d.groups) ensures |MeetingTimes(d, m, g, d.numSlots)| == 1 {
      var s :| 1 <= s <= d.numSlots && d.groupSlotVar[(g, s)] in m;
      forall u | 1 <= u <= d.numSlots && d.groupSlotVar[(g, u)] in m ensures u == s {
      }
      SingletonTimes(MeetingTimes(d, m, g, d.numSlots), s);
    }
    forall p, s | p in d.people && 1 <= s <= d.numSlots ensures |Participation(d, m, p, s)| <= 1 {
      var attended := set g | g in d.people[p] && d.attendVar[((p, g), s)] in m;
      AtMostOneAttended(Participation(d, m, p, s), attended);
    }
  }

  lemma AgreeingDecodable(d: ScrumData, slot: map<GroupName, int>, attends: set<((Person, GroupName), int)>,
                          m: set<int>)
    requires Lookups(d) && Listed(d) && Distinct(Names(d.groups))
    requires Timetable(d, slot, attends) && Agrees(d, slot, attends, m)
    ensures Decodable(d, m)
  {
    forall g | g in Names(d.groups) ensures |MeetingTimes(d, m, g, d.numSlots)| == 1 {
      SingletonTimes(MeetingTimes(d, m, g, d.numSlots), slot[g]);
    }
    forall p, s | p in d.people && 1 <= s <= d.numSlots ensures |Participation(d, m, p, s)| <= 1 {
      AgreeingParticipation(d, slot, attends, m, p, s);
    }
  }

  lemma AgreeingParticipation(d: ScrumData, slot: map<GroupName, int>, attends: set<((Person, GroupName), int)>,
                              m: set<int>, p: Person, s: int)
    requires Lookups(d) && Listed(d) && Distinct(Names(d.groups))
    requires Timetable(d, slot, attends) && Agrees(d, slot, attends, m)
    requires p in d.people && 1 <= s <= d.numSlots
    ensures |Participation(d, m, p, s)| <= 1
  {
    var attended := set g | g in d.people[p] && ((p, g), s) in attends;
    forall g | g in Participation(d, m, p, s) ensures g in attended {
      assert d.attendVar[((p, g), s)] in m;
    }
    AtMostOneAttended(Participation(d, m, p, s), attended);
  }

  lemma AgreeingMeetings(d: ScrumData, slot: map<GroupName, int>, attends: set<((Person, GroupName), int)>,
                         m: set<int>, meeting: map<GroupName, int>)
    requires Lookups(d) && Timetable(d, slot, attends) && Agrees(d, slot, attends, m)
    requires MeetingSlots(d, m, meeting)
    ensures forall g :: g in Names(d.groups) ==> meeting[g] == slot[g]
  {
    forall g | g in Names(d.groups) ensures meeting[g] == slot[g] {
      assert d.groupSlotVar[(g, slot[g])] in m;
    }
  }

  lemma AgreeingSchedule(d: ScrumData, slot: map<GroupName, int>, attends: set<((Person, GroupName), int)>,
                         m: set<int>, p: Person, sched: map<int, GroupName>)
    requires Lookups(d) && Listed(d) && Timetable(d, slot, attends) && Agrees(d, slot, attends, m)
    requires p in d.people && PersonalSchedule(d, m, p, sched)
    ensures forall s :: (s in sched <==> exists g :: ((p, g), s) in attends) &&
                        (s in sched ==> ((p, sched[s]), s) in attends)
  {
    forall s ensures (s in sched <==> exists g :: ((p, g), s) in attends) &&
                     (s in sched ==> ((p, sched[s]), s) in attends)
    {
      if g :| ((p, g), s) in attends {
        assert g in d.people[p] && g in Names(d.groups) && 1 <= s <= d.numSlots;
        assert d.attendVar[((p, g), s)] in m;
      }
    }
  }

  /** Round trip: a model that extends a timetable's assignment reads back as that timetable.
      Each group meets in its timetabled slot, and each person's schedule lists exactly the
      timetabled attendances. */
  lemma DecodesTimetable(d: ScrumData, slot: map<GroupName, int>, attends: set<((Person, GroupName), int)>,
                         m: set<int>)
    requires Built(d) && Timetable(d, slot, attends)
    requires Assignment(d, slot, attends) <= m && Consistent(m)
    ensures Lookups(d) && Listed(d)
    ensures Decodable(d, m)
    ensures forall meeting :: MeetingSlots(d, m, meeting) ==>
              forall g :: g in Names(d.groups) ==> meeting[g] == slot[g]
    ensures forall p, sched :: p in d.people && PersonalSchedule(d, m, p, sched) ==>
              forall s :: (s in sched <==> exists g :: ((p, g), s) in attends) &&
                          (s in sched ==> ((p, sched[s]), s) in attends)
  {
    BuiltLookups(d);
    BuiltNumbered(d);
    AgreesWithTimetable(d, slot, attends, m);
    AgreeingDecodable(d, slot, attends, m);
    forall meeting | MeetingSlots(d, m, meeting)
      ensures forall g :: g in Names(d.groups) ==> meeting[g] == slot[g]
    {
      AgreeingMeetings(d, slot, attends, m, meeting);
    }
    forall p, sched | p in d.people && PersonalSchedule(d, m, p, sched)
      ensures forall s :: (s in sched <==> exists g :: ((p, g), s) in attends) &&
                          (s in sched ==> ((p, sched[s]), s) in attends)
    {
      AgreeingSchedule(d, slot, attends, m, p, sched);
    }
  }
}
