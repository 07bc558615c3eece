# Scrum meeting scheduler, modelled in Dafny

`scrum_scheduler.py` schedules the daily meetings of scrum groups whose members overlap. A
group is a name with a list of members, and there are `num_slots` time slots. Every group
should meet in exactly one slot, and nobody can attend two meetings in the same slot. The
program turns this into a weighted MaxSAT problem, hands it to the RC2 solver and reads a
timetable back out of the model the solver returns. This project models the three parts of
that pipeline and proves what each promises:

- **Variable allocation** (`create_scrum_data`, module `Scrum`, file `scrum.dfy`). The
  program inverts the group → members dictionary into a person → groups dictionary and
  records that dictionary's insertion order. It then hands out consecutive IDs: first one per
  (group, slot), then one per (member, group, slot). The methods `InvertGroups`,
  `NumberGroupSlots` and `NumberAttendance` do this with the source's loops and counter. They
  are proved against the closed-form specification `ScrumDataOf`. The lemmas show that the
  people dictionary is exactly the inverse of the membership relation. They show that both
  ID families are complete, gap-free and injective. They also show that the families use
  exactly 1 .. `highest_var` between them, with `highest_var = num_slots · (#groups + Σ#members)`.
- **Clause store and cardinality encoding** (modules `Cnf`, `SeqCounter` and `Cardinality`).
  `Cnf.Wcnf` is a class that mirrors pysat's `WCNF`. It keeps the hard clauses, the soft
  clauses with their weights, and `nv`, the largest variable seen so far. `SeqCounter.AtMostOne`
  is a bound-1 sequential-counter encoding (Sinz, CP 2005) with counters numbered from
  top+1. It stands in for pysat's `CardEnc.atmost(..., encoding=EncType.seqcounter)`, whose
  exact clauses are not part of this model. The encoding is proved sound, and proved complete
  using fresh counter variables only. `Cardinality` describes the sequence of emitted
  encodings as a fold over "blocks". A block is a literal list plus whether an "at least one"
  clause comes first. The fold threads the watermark `top_var` through the blocks, and its
  lemmas prove that the counters of different blocks never collide.
- **Encoder** (`schedule_scrum_meetings` up to the solver call, module `Encoder`). The method
  `ScheduleScrumMeetings` fills a fresh `Wcnf` loop by loop. It emits each group's "exactly
  one slot" constraint, each person's "at most one meeting per slot" constraint, the
  "attending implies the meeting is held" clauses and one weight-1 soft clause per
  membership. It is proved to produce exactly `HardClauses(d)` and `SoftClauses(d)`. Module
  `Meaning` (file `meaning.dfy`) proves two directions about these clauses. Every consistent
  model of the hard clauses is a timetable (soundness). Every timetable extends, by setting
  only counter variables, to such a model (completeness). Module `Missed` proves that the
  cost of a model equals the number of memberships whose meeting the person attends in no
  slot. That cost is the weight of its violated soft clauses.
- **Decoder** (`interpret_model`, module `Decoder`). `InterpretModel` reads the meeting slot
  of each group and each person's slot → group schedule. Where the source would fail an
  `assert`, it returns an error. The method's result is proved to succeed exactly when the
  model can be read as a timetable, and every error it returns names a real violation. The
  lemmas prove that every model of the hard clauses decodes, and that decoding a model of a
  timetable gives back that timetable.

Dictionaries become Dafny `map`s. The groups dictionary is a `seq<Group>` in insertion order,
and the people dictionary carries its insertion order `personOrder`. Python iterates a set in
hash order. Here a person's set of groups is visited in the order of the groups dictionary
(`Encoder.PersonGroups`). The attendance variable of (person, group, slot) is keyed
`((person, group), slot)`, so that both ID families share one numbering function,
`Scrum.Family`. The source's `top_var = cnf.nv` at lines 100 and 110 can lower the watermark.
The model follows the evidently intended `top_var = max(top_var, cnf.nv)` and records the
code as written under "Findings".

## Model

| member | source | states |
|---|---|---|
| Scrum.InvertGroup | scrum_scheduler.py:34-35 | visiting one group's members in order turns the people dictionary and its insertion order for the memberships seen so far into those for the memberships seen plus this group's |
| Scrum.InvertGroups | scrum_scheduler.py:32-35 | the loop over all groups builds exactly `PeopleOf` and `PersonOrder` of every membership, group-major and member-minor |
| Scrum.NumberSlot | scrum_scheduler.py:44-46 | handing out the next ID to slot s of the k-th key adds exactly the entry `base + k·n + s` to the numbering so far |
| Scrum.NumberSlots | scrum_scheduler.py:44-46 | the slot loop for one key extends the numbering from the key's first slot to the next key's, and the counter grows by `num_slots` |
| Scrum.NumberGroupSlots | scrum_scheduler.py:39-46 | the (group, slot) IDs are `Family(group names, num_slots, 0)`, and the counter ends at `#groups·num_slots` |
| Scrum.NumberAttendance | scrum_scheduler.py:49-54 | the ((member, group), slot) IDs are `Family(memberships, num_slots, base)`, the memberships are distinct, and the counter ends at `base + #memberships·num_slots` |
| Scrum.CreateScrumData | scrum_scheduler.py:30-59 | the data built equals the closed form `ScrumDataOf(num_slots, groups)` |
| Scrum.InverseMap | scrum_scheduler.py:32-35 | `p` is a key of the people dictionary iff p is a member of some group, and `g ∈ people[p]` iff p is listed in group g; the insertion order lists each key exactly once |
| Scrum.GroupSlotIds | scrum_scheduler.py:39-46 | every (group, slot) with slot in 1 .. num_slots has an ID, there are no other keys, group i's slot s gets `i·num_slots + s`, the IDs are exactly 1 .. `#groups·num_slots`, and no two keys share one |
| Scrum.AttendanceIds | scrum_scheduler.py:49-54 | every ((member, group), slot) has an ID, there are no other keys, the IDs continue right after the group-slot family without gaps, and no two keys share one |
| Scrum.HighestVar | scrum_scheduler.py:56-59 | `highest_var = num_slots·(#groups + Σ#members)`; the two families together use exactly 1 .. highest_var, and no ID is in both |
| Scrum.FamilyAt | scrum_scheduler.py:43-54 | slot t of the k-th key of a family is a key, and its ID is `base + k·n + t` |
| Scrum.FamilyValues | scrum_scheduler.py:43-54 | the IDs of a family are exactly base+1 .. base + #keys·n |
| Scrum.FamilyInjective | scrum_scheduler.py:43-54 | no two keys of a family with distinct keys share an ID |
| Scrum.MembershipsMeaning | scrum_scheduler.py:50-51 | the enumeration of the memberships lists exactly the (member, group) pairs of the groups |
| Scrum.MembershipsDistinct | scrum_scheduler.py:50-51 | for well-formed groups no membership is enumerated twice |
| Scrum.BuiltLookups | scrum_scheduler.py:92-94 | on the data `create_scrum_data` builds, every dictionary lookup the encoder makes succeeds, every ID lies in 1 .. highest_var, and every person has a group that the groups dictionary lists |
| Scrum.BuiltNumbered | scrum_scheduler.py:43-54 | built data has positive IDs at most highest_var and no ID shared by two keys |
| Cnf.NvAtMost | scrum_scheduler.py:100 | `nv` is the least bound of the variables of the clauses: any bound of all of them is at least `nv` |
| Cnf.NvBounds | scrum_scheduler.py:100 | every variable of every clause is at most `nv` |
| Cnf.NvConcat | scrum_scheduler.py:99 | `nv` of a concatenation is the larger of the two parts' |
| Cnf.Wcnf.constructor | scrum_scheduler.py:87 | a new clause store is empty with `nv = 0` |
| Cnf.Wcnf.Append | scrum_scheduler.py:96 | appending a hard clause adds it at the end, leaves the soft part alone and raises `nv` to cover the clause |
| Cnf.Wcnf.AppendSoft | scrum_scheduler.py:124 | appending a soft clause adds it and its weight at the end, leaves the hard part alone and raises `nv` to cover it |
| Cnf.Wcnf.Extend | scrum_scheduler.py:99 | extending appends the clauses in order and sets `nv` to the larger of the old `nv` and the new clauses' |
| SeqCounter.AtMostOneShape | scrum_scheduler.py:98 | every clause of the encoding is its first clause, a link clause or its last clause |
| SeqCounter.AtMostOneVariables | scrum_scheduler.py:98 | the encoding mentions only the negated input literals and the fresh counters top+1 .. top+n-1 |
| SeqCounter.AtMostOneSize | scrum_scheduler.py:98 | the encoding of n literals has no clause for n ≤ 1 and 3n − 4 clauses otherwise |
| SeqCounter.AtMostOneNv | scrum_scheduler.py:98-100 | with the literals at or below `top`, the largest variable of the encoding is 0 for n ≤ 1 literals and its last counter top+n−1 otherwise |
| SeqCounter.AtMostOneSound | scrum_scheduler.py:98 | in every consistent model of the encoding at most one of the literals is true |
| SeqCounter.AtMostOneComplete | scrum_scheduler.py:98 | when at most one literal is true, values for the counter variables alone extend the model to satisfy every clause |
| SeqCounter.CounterModelFresh | scrum_scheduler.py:98 | the counter values use only the fresh variables and never set a variable both ways |
| Cardinality.FoldContains | scrum_scheduler.py:96-100 | block i's clauses appear whole in the emitted clauses, allocated above the watermark reached after the blocks before it |
| Cardinality.FoldHas | scrum_scheduler.py:91-110 | every block of the list is emitted whole, at a watermark at or above the starting one |
| Cardinality.ApplyCovers | scrum_scheduler.py:98-100 | after a block the watermark is at least the previous watermark plus the number of counters the block allocated, so it covers all of them |
| Cardinality.FoldTopGrows | scrum_scheduler.py:88-110 | the watermark never falls over a sequence of blocks |
| Cardinality.FoldKeeps | scrum_scheduler.py:88-110 | later blocks only add clauses after those of earlier blocks and only raise the watermark |
| Cardinality.ApplyWatermark | scrum_scheduler.py:98-100 | when nothing so far lies above the watermark, a block takes exactly the next `Counters(b)` IDs and the watermark ends on the last of them |
| Cardinality.CountersDisjoint | scrum_scheduler.py:88-110 | the counters of block i lie strictly between the watermark before it and the watermark from which any later block j allocates, so no two encodings share an auxiliary ID |
| Cardinality.AsWrittenAgrees | scrum_scheduler.py:98-110 | once the first block draws a counter, `cnf.nv` never falls below the watermark it replaces: the watermark as written and `max(top, cnf.nv)` give the same clauses and the same watermark, which is then the largest variable used |
| Cardinality.BlockMeaning | scrum_scheduler.py:96-98 | in a model of a block's clauses one literal is true if the block asks for one, and no two are |
| Cardinality.ApplyComplete | scrum_scheduler.py:96-100 | values for one block's counters extend a model of the clauses so far that the block admits |
| Encoder.AttendLitsNonEmpty | scrum_scheduler.py:105-107 | on built data every attendance lookup succeeds and a person's literal list for a slot is never empty |
| Encoder.Enumerate | scrum_scheduler.py:103-105 | a person's groups are visited each once, and exactly the groups of the person that the groups dictionary lists |
| Encoder.PersonGroupsOwn | scrum_scheduler.py:114 | every group visited for a person is one of theirs and is listed in the groups dictionary |
| Encoder.ScheduleScrumMeetings | scrum_scheduler.py:86-124 | a fresh store holds exactly the hard clauses `HardClauses(d)` and the soft clauses `SoftClauses(d)`, each of weight 1 |
| Encoder.EmitGroupBlocks | scrum_scheduler.py:88-100 | the group loop leaves the clauses and watermark of the fold of the groups' "exactly one slot" blocks from `top_var = highest_var` |
| Encoder.ApplyAtLeastOne | scrum_scheduler.py:96-99 | appending the "at least one" clause and then the at-most-one encoding is the "exactly one" block |
| Encoder.EmitAtMostOne | scrum_scheduler.py:98-100 | one encoding appended above `top_var`, then `top_var = max(top_var, cnf.nv)` |
| Encoder.EmitPersonBlocks | scrum_scheduler.py:103-110 | the person loop continues the fold through every person's slot blocks, ending at the fold of all blocks |
| Encoder.EmitChunks | scrum_scheduler.py:103-110 | emitting the chunks in order is the fold over their concatenation |
| Encoder.EmitAtMostOnes | scrum_scheduler.py:104-110 | the slot loop is the fold over that person's slot blocks |
| Encoder.PersonChunksConcat | scrum_scheduler.py:103-104 | the chunks of the first j people, concatenated, are their blocks |
| Encoder.EmitPhantom | scrum_scheduler.py:113-117 | the loop appends exactly `[G(g,s), −A(p,g,s)]` per person, group of theirs and slot, in that order |
| Encoder.EmitPhantomGroups | scrum_scheduler.py:114-117 | for one person, the clauses of each listed group in turn |
| Encoder.EmitPhantomSlots | scrum_scheduler.py:115-117 | for one person and group, one clause per slot 1 .. num_slots |
| Encoder.EmitSoft | scrum_scheduler.py:120-124 | the soft clauses are one per (person, group), each the attendance variables of slots 1 .. num_slots, all of weight 1; the hard clauses stay as they were |
| Encoder.EmitSoftGroups | scrum_scheduler.py:121-124 | for one person, one soft clause per group of theirs |
| Meaning.BlockHolds | scrum_scheduler.py:91-110 | every emitted block holds in a model of the hard clauses |
| Meaning.GroupMeetsOnce | scrum_scheduler.py:91-100 | a group meets in exactly one slot when exactly one of its slot variables is true |
| Meaning.NoDoubleBooking | scrum_scheduler.py:103-110 | a person attends at most one of their meetings in a slot |
| Meaning.NoPhantom | scrum_scheduler.py:113-117 | in a model of the hard clauses, attending g's meeting in slot s implies g meets in slot s |
| Meaning.PhantomIsHard | scrum_scheduler.py:113-117 | each "attending implies held" clause is among the hard clauses |
| Meaning.PhantomPeopleDistinct | scrum_scheduler.py:113-117 | when IDs are injective and neither people nor groups repeat, no "attending implies held" clause is emitted twice |
| Meaning.PhantomOnce | scrum_scheduler.py:113-117 | on the data `create_scrum_data` builds, the clause "p attends g in slot s implies g meets in s" occurs exactly once, for every person p, group g of p and slot s |
| Meaning.HardClausesSound | scrum_scheduler.py:86-117 | every consistent model of the hard clauses gives each group at least one and at most one slot, books nobody twice in a slot, and has nobody attend a meeting that is not held |
| Meaning.HardClausesComplete | scrum_scheduler.py:86-117 | every timetable extends to a consistent model of the hard clauses, and any consistent extension agrees with the timetable on every slot and attendance variable |
| Meaning.BlocksBelow | scrum_scheduler.py:88-108 | every literal of every at-most-one block is a problem variable, at most `highest_var` |
| Meaning.EncodingCountersDisjoint | scrum_scheduler.py:86-110 | on the data `create_scrum_data` builds, every block's counters lie above `highest_var`, and no two blocks share one |
| Meaning.AssignmentConsistent | scrum_scheduler.py:43-54 | a timetable's assignment never sets a variable both ways and stays within 1 .. highest_var |
| Meaning.BlocksAdmitted | scrum_scheduler.py:91-110 | a timetable decides every literal of every block and gives each block the required number of true literals |
| Meaning.AdmitsSlotBlock | scrum_scheduler.py:105-108 | a timetable gives each person's slot block at most one true literal, all within the problem variables |
| Meaning.PhantomSlotsHold | scrum_scheduler.py:115-117 | a timetable satisfies every "attending implies held" clause of a group of a person |
| Missed.SoftClauseMeaning | scrum_scheduler.py:123-124 | a membership's soft clause is violated exactly when the person attends that group's meeting in no slot |
| Missed.CostCountsMissed | scrum_scheduler.py:120-124 | the cost of a model is the number of memberships it misses |
| Missed.CostIsMissedMeetings | scrum_scheduler.py:120-129 | the cost of a model on built data is the number of memberships whose meeting the person attends in no slot |
| Decoder.MeetingTimes | scrum_scheduler.py:67 | the slots among 1 .. n whose slot variable is true, strictly increasing |
| Decoder.Participation | scrum_scheduler.py:77 | exactly the groups of p whose attendance variable for slot s is true, each once when group names are distinct |
| Decoder.PersonSchedule | scrum_scheduler.py:75-82 | fails iff some slot has more than one attended group, with that slot and those groups; otherwise the schedule maps exactly the slots with one attended group to that group |
| Decoder.GroupMeetings | scrum_scheduler.py:66-71 | fails iff some group does not have exactly one slot, naming that group and its slots; otherwise gives each group its only slot |
| Decoder.PeopleSchedules | scrum_scheduler.py:74-83 | fails iff some person is double-booked; otherwise every person of the dictionary has their schedule |
| Decoder.InterpretModel | scrum_scheduler.py:62-84 | succeeds iff the model reads as a timetable, and then returns every group's only slot and every person's schedule; every error names a real violation |
| Decoder.SolutionsDecode | scrum_scheduler.py:66-82 | every consistent model of the hard clauses passes both checks of `interpret_model` |
| Decoder.DecodesTimetable | scrum_scheduler.py:62-84 | a model that extends a timetable's assignment decodes to that timetable: each group's slot and each person's schedule |
| AsWrittenWatermark.AsWrittenClauses | scrum_scheduler.py:100 | with the watermark as written, `top_var = highest_var = 6` and the stand-in sequential counter, the instance's blocks give exactly [[1], [2], [-3, 3], [-5, -3], [-4, 6], [-6, -6]]: B's counter is variable 6, an attendance variable |
| AsWrittenWatermark.AsWrittenExcludesB | scrum_scheduler.py:110 | in every consistent model of those clauses, variables 4 and 6 (B's attendances) are both false |
| AsWrittenWatermark.AsWrittenLosesB | scrum_scheduler.py:100 | with the watermark as written and the stand-in sequential counter, no model of the hard clauses lets B attend a meeting |
| AsWrittenWatermark.CorrectedKeepsB | scrum_scheduler.py:100 | with the corrected watermark, a model of the hard clauses has A and B both attending g1 |
| AsWrittenWatermark.AsWrittenAgreesFromTwoSlots | scrum_scheduler.py:98-110 | with two slots or more and at least one group, the watermark as written emits exactly the clauses of the corrected one: the counter collision needs a single slot |
| AsWrittenWatermark.ExampleDataShaped | scrum_scheduler.py:30-59 | `create_scrum_data(1, {g1: [A, B], g2: [A, B]})` has slot variables 1 and 2 and attendance variables 3 to 6 |

## Left out

- The RC2 MaxSAT solve (lines 126-130) is an external optimiser. Its model and cost are inputs: the decoder takes any model, and `Missed.Cost` is the weight of the soft clauses a model violates.
- All printing is left out: `print_non_sat_info` (lines 21-26), the prints in `interpret_model` and the `__main__` demo data (lines 134-147). This includes the debug print at lines 78-79, which refers to stale variables from the group loop and affects only output.
- `interpret_model`'s `assert`s (lines 70 and 80) become `Decoder.DecodeError` results, because Dafny has no exceptions.
- pysat's `CardEnc.atmost` is a library this model cannot see. It is replaced by a hand-written bound-1 sequential counter, `SeqCounter.AtMostOne`, with fresh IDs top+1 .. top+n−1. A library that numbers or orders clauses differently would change the clause lists. Soundness, completeness and disjoint counters rely only on the encoding's contract: only negated inputs plus counters above `top_id` (`SeqCounter.AtMostOneVariables`), at most one true literal (`AtMostOneSound`), and extension by counters alone (`AtMostOneComplete`). The concrete clauses and the loss of B in the example under "Findings" are specific to this numbering.
- Python's iteration order over sets is hash-dependent. A person's groups are visited in the order of the groups dictionary, and the people dictionary in insertion order.
- `defaultdict` default values are not modelled. Every lookup is proved to find its key (`Scrum.BuiltLookups`, `Encoder.AttendLitsNonEmpty`), so the `None` checks at lines 94 and 106 and the check at line 107 always hold.
- Groups must have distinct names and members that do not repeat (`Scrum.WellFormed`). This is what dictionary keys and the demo's member sets guarantee.
- A negative `num_slots` is not modelled. Slot counts are `nat`.
- Missed.MissesMeeting: it is stated for every slot whose attendance key is present, rather than assuming every key is present. On built data the two readings agree.

## Findings

| source | as written | input that shows it | evidently intended | confidence | as-written member | corrected member |
|---|---|---|---|---|---|---|
| scrum_scheduler.py:100, scrum_scheduler.py:110 | `top_var = cnf.nv` replaces the watermark by the largest variable in the clauses so far. That can be below `highest_var` when some problem variables appear in no clause yet, so the next at-most-one encoding, which allocates its counters above `top_var`, takes attendance variables as counters. | `num_slots = 1`, groups `{g1: [A, B], g2: [A, B]}`: `highest_var = 6`, and after the group loop the watermark is 2 < 6. With the stand-in sequential counter (counters numbered from top+1) the watermark then becomes 5, B's encoding over [4, 6] takes counter 6 = A(B, g2, 1), and the clauses [-4, 6] and [-6, -6] leave B no meeting in any model. An encoding that numbers its counters differently collides with other attendance variables. | `top_var = max(top_var, cnf.nv)`: counters are always fresh | high that counters collide; the loss of B holds for the stand-in encoding (not executed) | AsWrittenWatermark.AsWrittenLosesB | AsWrittenWatermark.CorrectedKeepsB |
