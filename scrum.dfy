/** The scheduling problem (slots, people, groups) and the numbering of its boolean variables,
    as `create_scrum_data` builds them: the inverse person -> groups map, one variable per
    (group, slot) and one per (person, group, slot) membership, numbered consecutively. */
module Scrum {
  type Person = string
  type GroupName = string

  /** A group and its members, in the order the groups dictionary lists them. */
  datatype Group = Group(name: GroupName, members: seq<Person>)

  /** The problem and its variable numbering. `personOrder` is the insertion order of the
      people dictionary; `attendVar` is keyed by ((person, group), slot). */
  datatype ScrumData = ScrumData(
    numSlots: nat,
    people: map<Person, set<GroupName>>,
    personOrder: seq<Person>,
    groups: seq<Group>,
    groupSlotVar: map<(GroupName, int), int>,
    attendVar: map<((Person, GroupName), int), int>,
    highestVar: nat)

  predicate Distinct<T(==)>(s: seq<T>)
  {
    forall i, j :: 0 <= i < j < |s| ==> s[i] != s[j]
  }

  function Names(groups: seq<Group>): seq<GroupName>
  {
    seq(|groups|, i requires 0 <= i < |groups| => groups[i].name)
  }

  /** Group names are dictionary keys and a group's members form a set: neither repeats. */
  predicate WellFormed(groups: seq<Group>)
  {
    Distinct(Names(groups)) && forall i :: 0 <= i < |groups| ==> Distinct(groups[i].members)
  }

  /** Person `p` is listed as a member of the group named `g`. */
  ghost predicate IsMember(groups: seq<Group>, p: Person, g: GroupName)
  {
    exists i :: 0 <= i < |groups| && groups[i].name == g && p in groups[i].members
  }

  /** The (member, group) pairs of one group, in member order. */
  function Pairs(g: Group): seq<(Person, GroupName)>
  {
    seq(|g.members|, j requires 0 <= j < |g.members| => (g.members[j], g.name))
  }

  /** All (member, group) pairs, group-major and member-minor: the order in which
      `create_scrum_data` visits them. */
  function Memberships(groups: seq<Group>): seq<(Person, GroupName)>
  {
    if groups == [] then [] else Memberships(groups[..|groups| - 1]) + Pairs(groups[|groups| - 1])
  }

  /** The total number of listed members, summed over the groups. */
  function MemberCount(groups: seq<Group>): nat
  {
    if groups == [] then 0 else MemberCount(groups[..|groups| - 1]) + |groups[|groups| - 1].members|
  }

  lemma {:induction false} MembershipsLength(groups: seq<Group>)
    ensures |Memberships(groups)| == MemberCount(groups)
  {
    if groups != [] {
      MembershipsLength(groups[..|groups| - 1]);
    }
  }

  lemma PairsMeaning(g: Group)
    ensures forall p, n :: (p, n) in Pairs(g) <==> n == g.name && p in g.members
  {
    forall p | p in g.members ensures (p, g.name) in Pairs(g) {
      var j :| 0 <= j < |g.members| && g.members[j] == p;
      assert Pairs(g)[j] == (p, g.name);
    }
  }

  /** The enumeration lists exactly the memberships. */
  lemma {:induction false} MembershipsMeaning(groups: seq<Group>)
    ensures forall p, g :: (p, g) in Memberships(groups) <==> IsMember(groups, p, g)
  {
    if groups != [] {
      var g0 := groups[..|groups| - 1];
      var last := groups[|groups| - 1];
      MembershipsMeaning(g0);
      PairsMeaning(last);
      forall p, g ensures (p, g) in Memberships(groups) <==> IsMember(groups, p, g) {
        if IsMember(groups, p, g) {
          var i :| 0 <= i < |groups| && groups[i].name == g && p in groups[i].members;
          if i < |groups| - 1 {
            assert g0[i] == groups[i];
          }
        }
        if IsMember(g0, p, g) {
          var i :| 0 <= i < |g0| && g0[i].name == g && p in g0[i].members;
          assert groups[i] == g0[i];
        }
      }
    }
  }

  lemma {:induction false} WellFormedPrefix(groups: seq<Group>, i: nat)
    requires WellFormed(groups) && i <= |groups|
    ensures WellFormed(groups[..i])
  {
    var g0 := groups[..i];
    forall a, b | 0 <= a < b < |g0| ensures Names(g0)[a] != Names(g0)[b] {
      assert Names(g0)[a] == Names(groups)[a] && Names(g0)[b] == Names(groups)[b];
    }
  }

  /** No membership is enumerated twice. */
  lemma {:induction false} MembershipsDistinct(groups: seq<Group>)
    requires WellFormed(groups)
    ensures Distinct(Memberships(groups))
  {
    if groups != [] {
      var g0 := groups[..|groups| - 1];
      var last := groups[|groups| - 1];
      WellFormedPrefix(groups, |groups| - 1);
      MembershipsDistinct(g0);
      MembershipsMeaning(g0);
      var a := Memberships(g0);
      var b := Pairs(last);
      assert Distinct(last.members);
      forall x | x in a ensures x.1 != last.name {
        assert IsMember(g0, x.0, x.1);
        var i :| 0 <= i < |g0| && g0[i].name == x.1 && x.0 in g0[i].members;
        assert Names(groups)[i] == x.1 && Names(groups)[|groups| - 1] == last.name;
      }
      forall i, j | 0 <= i < j < |a + b| ensures (a + b)[i] != (a + b)[j] {
        if j < |a| {
        } else if i < |a| {
          assert (a + b)[i] in a;
        } else {
          assert (a + b)[i] == b[i - |a|] && (a + b)[j] == b[j - |a|];
        }
      }
    }
  }

  /** The enumeration of a prefix of the groups is a prefix of the enumeration. */
  lemma {:induction false} MembershipsPrefix(groups: seq<Group>, i: nat)
    requires i <= |groups|
    ensures |Memberships(groups[..i])| <= |Memberships(groups)|
    ensures Memberships(groups)[..|Memberships(groups[..i])|] == Memberships(groups[..i])
    decreases |groups|
  {
    if i == |groups| {
      assert groups[..i] == groups;
    } else {
      var g0 := groups[..|groups| - 1];
      MembershipsPrefix(g0, i);
      assert g0[..i] == groups[..i];
    }
  }

  /** Member j of group i has index |Memberships(groups[..i])| + j in the enumeration. */
  lemma MembershipAt(groups: seq<Group>, i: nat, j: nat)
    requires i < |groups| && j < |groups[i].members|
    ensures |Memberships(groups[..i])| + j < |Memberships(groups)|
    ensures Memberships(groups)[|Memberships(groups[..i])| + j] == (groups[i].members[j], groups[i].name)
  {
    MembershipsPrefix(groups, i + 1);
    assert groups[..i + 1][..i] == groups[..i];
    var pre := Memberships(groups[..i + 1]);
    assert pre == Memberships(groups[..i]) + Pairs(groups[i]);
    assert pre[|Memberships(groups[..i])| + j] == (groups[i].members[j], groups[i].name);
  }

  /** The people dictionary after visiting the memberships `ms` in order. */
  function PeopleOf(ms: seq<(Person, GroupName)>): map<Person, set<GroupName>>
  {
    if ms == [] then map[]
    else
      var m := PeopleOf(ms[..|ms| - 1]);
      var (p, g) := ms[|ms| - 1];
      m[p := (if p in m then m[p] else {}) + {g}]
  }

  /** The insertion order of the people dictionary: people by first appearance. */
  function PersonOrder(ms: seq<(Person, GroupName)>): seq<Person>
  {
    if ms == [] then []
    else
      var o := PersonOrder(ms[..|ms| - 1]);
      var p := ms[|ms| - 1].0;
      if p in o then o else o + [p]
  }

  /** The people dictionary is the inverse of the membership relation, and nothing else. */
  lemma {:induction false} PeopleOfInverse(ms: seq<(Person, GroupName)>)
    ensures forall p :: p in PeopleOf(ms) <==> exists g :: (p, g) in ms
    ensures forall p, g :: p in PeopleOf(ms) ==> (g in PeopleOf(ms)[p] <==> (p, g) in ms)
  {
    if ms != [] {
      var m0 := ms[..|ms| - 1];
      PeopleOfInverse(m0);
      assert forall x :: x in ms <==> x in m0 || x == ms[|ms| - 1];
    }
  }

  /** The insertion order lists every person of the dictionary once. */
  lemma {:induction false} PersonOrderEnumerates(ms: seq<(Person, GroupName)>)
    ensures Distinct(PersonOrder(ms))
    ensures forall p :: p in PersonOrder(ms) <==> exists g :: (p, g) in ms
  {
    if ms != [] {
      var m0 := ms[..|ms| - 1];
      PersonOrderEnumerates(m0);
      assert forall x :: x in ms <==> x in m0 || x == ms[|ms| - 1];
    }
  }

  lemma MulMono(a: nat, b: nat, n: nat)
    requires a <= b
    ensures a * n <= b * n
  {
    assert b * n == a * n + (b - a) * n;
  }

  /** Position (k, s), with slot s in 1 .. n, is the (k * n + s)-th of a family. */
  lemma PackInjective(n: nat, k1: nat, s1: int, k2: nat, s2: int)
    requires 1 <= s1 <= n && 1 <= s2 <= n && k1 * n + s1 == k2 * n + s2
    ensures k1 == k2 && s1 == s2
  {
    if k1 < k2 {
      MulMono(k1 + 1, k2, n);
    } else if k2 < k1 {
      MulMono(k2 + 1, k1, n);
    }
  }

  lemma PackBound(n: nat, k: nat, s: int, count: nat)
    requires 1 <= s <= n && k < count
    ensures 1 <= k * n + s <= count * n
  {
    MulMono(k + 1, count, n);
  }

  /** The position of `x` in `keys` (its first, and with distinct keys its only, position). */
  function IndexOf<K(==)>(keys: seq<K>, x: K): (i: nat)
    requires x in keys
    ensures i < |keys| && keys[i] == x
    ensures forall j :: 0 <= j < i ==> keys[j] != x
  {
    if keys[0] == x then 0 else 1 + IndexOf(keys[1..], x)
  }

  /** The 0-based offset w of a family of `count` keys by n slots is slot t of the k-th key. */
  lemma Unpack(n: nat, count: nat, w: int) returns (k: nat, t: int)
    requires 0 <= w < count * n
    ensures k < count && 1 <= t <= n && w + 1 == k * n + t
  {
    if n == 0 {
      assert false;
    }
    k, t := w / n, w % n + 1;
    if count <= k {
      MulMono(count, k, n);
    }
  }

  /** The numbering of one family of variables: IDs base+1, base+2, ... handed out key by key
      and, within a key, for slots 1 .. n, so that slot s of the k-th key gets base + k * n + s.
      `Filled(keys, n, base, k, s)` holds the IDs handed out before slot s of the k-th key. */
  function Filled<K(==)>(keys: seq<K>, n: nat, base: int, k: int, s: int): map<(K, int), int>
  {
    map x, t | x in keys && 1 <= t <= n && (IndexOf(keys, x) < k || (IndexOf(keys, x) == k && t < s))
      :: (x, t) := base + IndexOf(keys, x) * n + t
  }

  /** The whole family. */
  function Family<K(==)>(keys: seq<K>, n: nat, base: int): map<(K, int), int>
  {
    Filled(keys, n, base, |keys|, 1)
  }

  /** Handing out the ID of slot s of the k-th key adds exactly that entry. */
  lemma FilledStep<K>(keys: seq<K>, n: nat, base: int, k: nat, s: int)
    requires Distinct(keys) && k < |keys| && 1 <= s <= n
    ensures Filled(keys, n, base, k, s + 1)
         == Filled(keys, n, base, k, s)[(keys[k], s) := base + k * n + s]
  {
    var a := Filled(keys, n, base, k, s + 1);
    var b := Filled(keys, n, base, k, s)[(keys[k], s) := base + k * n + s];
    assert IndexOf(keys, keys[k]) == k;
    forall key | key in a || key in b ensures key in a && key in b {
      assert key == (key.0, key.1);
    }
    forall key | key in a ensures a[key] == b[key] {
      assert key == (key.0, key.1);
    }
  }

  /** After the last slot of one key comes the first slot of the next. */
  lemma FilledNextKey<K>(keys: seq<K>, n: nat, base: int, k: nat)
    ensures Filled(keys, n, base, k, n + 1) == Filled(keys, n, base, k + 1, 1)
  {
    var a := Filled(keys, n, base, k, n + 1);
    var b := Filled(keys, n, base, k + 1, 1);
    forall key | key in a || key in b ensures key in a && key in b {
      assert key == (key.0, key.1);
    }
  }

  /** Key (x, t) is in the family exactly for listed x and slots 1 .. n, and slot t of the k-th
      key gets base + k * n + t. */
  lemma FamilyAt<K>(keys: seq<K>, n: nat, base: int)
    requires Distinct(keys)
    ensures forall k, t :: 0 <= k < |keys| && 1 <= t <= n ==>
              (keys[k], t) in Family(keys, n, base) && Family(keys, n, base)[(keys[k], t)] == base + k * n + t
    ensures forall x, t :: (x, t) in Family(keys, n, base) <==> x in keys && 1 <= t <= n
  {
    forall k | 0 <= k < |keys| ensures IndexOf(keys, keys[k]) == k {
    }
  }

  /** The family is gap-free: its IDs are exactly base+1 .. base + |keys| * n. */
  lemma FamilyValues<K>(keys: seq<K>, n: nat, base: int)
    requires Distinct(keys)
    ensures forall v :: v in Family(keys, n, base).Values <==> base < v <= base + |keys| * n
  {
    var f := Family(keys, n, base);
    FamilyAt(keys, n, base);
    forall v | v in f.Values ensures base < v <= base + |keys| * n {
      var key :| key in f && f[key] == v;
      assert key == (key.0, key.1);
      var k := IndexOf(keys, key.0);
      assert f[key] == base + k * n + key.1;
      PackBound(n, k, key.1, |keys|);
    }
    forall v | base < v <= base + |keys| * n ensures v in f.Values {
      var k, t := Unpack(n, |keys|, v - base - 1);
      assert (keys[k], t) in f;
    }
  }

  /** No two keys of the family share an ID. */
  lemma FamilyInjective<K>(keys: seq<K>, n: nat, base: int)
    requires Distinct(keys)
    ensures forall a, b :: a in Family(keys, n, base) && b in Family(keys, n, base) && a != b
              ==> Family(keys, n, base)[a] != Family(keys, n, base)[b]
  {
    var f := Family(keys, n, base);
    forall a, b | a in f && b in f && f[a] == f[b] ensures a == b {
      assert a == (a.0, a.1) && b == (b.0, b.1);
      var k1, k2 := IndexOf(keys, a.0), IndexOf(keys, b.0);
      assert f[a] == base + k1 * n + a.1 && f[b] == base + k2 * n + b.1;
      PackInjective(n, k1, a.1, k2, b.1);
    }
  }

  /** What `create_scrum_data(numSlots, groups)` returns. */
  function ScrumDataOf(numSlots: nat, groups: seq<Group>): ScrumData
    requires WellFormed(groups)
  {
    MembershipsDistinct(groups);
    var ms := Memberships(groups);
    ScrumData(numSlots, PeopleOf(ms), PersonOrder(ms), groups,
              Family(Names(groups), numSlots, 0),
              Family(ms, numSlots, |groups| * numSlots),
              |groups| * numSlots + |ms| * numSlots)
  }

  /** The data was built by `create_scrum_data` from well-formed groups. */
  ghost predicate Built(d: ScrumData)
  {
    WellFormed(d.groups) && d == ScrumDataOf(d.numSlots, d.groups)
  }

  /** Visiting one more membership: the person's group set gains the group (starting from the
      empty set for a newcomer), and a newcomer is appended to the insertion order. */
  lemma PeopleSnoc(ms: seq<(Person, GroupName)>, p: Person, g: GroupName)
    ensures p in PersonOrder(ms) <==> p in PeopleOf(ms)
    ensures PeopleOf(ms + [(p, g)])
         == PeopleOf(ms)[p := (if p in PeopleOf(ms) then PeopleOf(ms)[p] else {}) + {g}]
    ensures PersonOrder(ms + [(p, g)])
         == if p in PeopleOf(ms) then PersonOrder(ms) else PersonOrder(ms) + [p]
  {
    PeopleOfInverse(ms);
    PersonOrderEnumerates(ms);
    assert (ms + [(p, g)])[..|ms|] == ms;
  }

  /** Records one group's members in the inverse map: after the memberships `seen`, visiting
      the group's members in order. */
  method InvertGroup(people: map<Person, set<GroupName>>, order: seq<Person>, g: Group,
                     ghost seen: seq<(Person, GroupName)>)
    returns (people': map<Person, set<GroupName>>, order': seq<Person>)
    requires people == PeopleOf(seen) && order == PersonOrder(seen)
    ensures people' == PeopleOf(seen + Pairs(g)) && order' == PersonOrder(seen + Pairs(g))
  {
    people', order' := people, order;
    assert seen + Pairs(g)[..0] == seen;
    var mi := 0;
    while mi < |g.members|
      invariant mi <= |g.members|
      invariant people' == PeopleOf(seen + Pairs(g)[..mi]) && order' == PersonOrder(seen + Pairs(g)[..mi])
    {
      var person := g.members[mi];
      PairsStep(seen, g, mi);
      PeopleSnoc(seen + Pairs(g)[..mi], person, g.name);
      // the people dictionary creates an empty set for a newcomer
      if person !in people' {
        order' := order' + [person];
      }
      var current := if person in people' then people'[person] else {};
      people' := people'[person := current + {g.name}];
      mi := mi + 1;
    }
    assert Pairs(g)[..|g.members|] == Pairs(g);
  }

  /** The memberships up to member mi + 1 of g extend those up to mi by one pair. */
  lemma PairsStep(seen: seq<(Person, GroupName)>, g: Group, mi: nat)
    requires mi < |g.members|
    ensures seen + Pairs(g)[..mi + 1] == seen + Pairs(g)[..mi] + [(g.members[mi], g.name)]
  {
    assert Pairs(g)[..mi + 1] == Pairs(g)[..mi] + [(g.members[mi], g.name)];
  }

  /** Builds the inverse map, person -> groups they belong to, and the people dictionary's
      insertion order. */
  method InvertGroups(groups: seq<Group>) returns (people: map<Person, set<GroupName>>, order: seq<Person>)
    ensures people == PeopleOf(Memberships(groups))
    ensures order == PersonOrder(Memberships(groups))
  {
    people, order := map[], [];
    var gi := 0;
    while gi < |groups|
      invariant 0 <= gi <= |groups|
      invariant people == PeopleOf(Memberships(groups[..gi]))
      invariant order == PersonOrder(Memberships(groups[..gi]))
    {
      people, order := InvertGroup(people, order, groups[gi], Memberships(groups[..gi]));
      assert groups[..gi + 1][..gi] == groups[..gi];
      gi := gi + 1;
    }
    assert groups[..|groups|] == groups;
  }

  lemma MulSucc(k: int, n: int)
    ensures (k + 1) * n == k * n + n
  {
  }

  /** Numbers the (group, slot) variables 1, 2, ..., group-major and slot-minor. */
  method NumberGroupSlots(numSlots: nat, groups: seq<Group>) returns (slotVars: map<(GroupName, int), int>, highest: nat)
    requires WellFormed(groups)
    ensures slotVars == Family(Names(groups), numSlots, 0)
    ensures highest == |groups| * numSlots
  {
    highest := 0;
    slotVars := map[];
    ghost var names := Names(groups);
    var gi := 0;
    while gi < |groups|
      invariant 0 <= gi <= |groups|
      invariant highest == gi * numSlots
      invariant slotVars == Filled(names, numSlots, 0, gi, 1)
    {
      slotVars, highest := NumberSlots(names, numSlots, 0, gi, groups[gi].name, slotVars, highest);
      gi := gi + 1;
    }
  }

  /** Hands out the ID of slot s of the k-th key: the next one after `h`. */
  method NumberSlot<K(==)>(ghost keys: seq<K>, n: nat, ghost base: int, ghost k: nat, key: K, s: int,
                           ids0: map<(K, int), int>, h: int)
    returns (ids: map<(K, int), int>, highest: int)
    requires Distinct(keys) && k < |keys| && keys[k] == key && 1 <= s <= n
    requires ids0 == Filled(keys, n, base, k, s) && h == base + k * n + s - 1
    ensures ids == Filled(keys, n, base, k, s + 1) && highest == h + 1
  {
    FilledStep(keys, n, base, k, s);
    highest := h + 1;
    ids := ids0[(key, s) := highest];
  }

  /** Hands out the IDs of slots 1 .. n of the k-th key, one after another. */
  method NumberSlots<K(==)>(ghost keys: seq<K>, n: nat, ghost base: nat, ghost k: nat, key: K,
                            ids0: map<(K, int), int>, highest0: nat)
    returns (ids: map<(K, int), int>, highest: nat)
    requires Distinct(keys) && k < |keys| && keys[k] == key
    requires ids0 == Filled(keys, n, base, k, 1) && highest0 == base + k * n
    ensures ids == Filled(keys, n, base, k + 1, 1) && highest == base + (k + 1) * n
  {
    ids := ids0;
    var h: int := highest0;
    ghost var start := base + k * n;
    var s := 1;
    while s <= n
      invariant 1 <= s <= n + 1
      invariant h == start + s - 1
      invariant ids == Filled(keys, n, base, k, s)
    {
      ids, h := NumberSlot(keys, n, base, k, key, s, ids, h);
      s := s + 1;
    }
    FilledNextKey(keys, n, base, k);
    MulSucc(k, n);
    highest := h;
  }

  /** Numbers the (member, group, slot) variables from `base` + 1 on, group-major, then
      member, then slot. */
  method NumberAttendance(numSlots: nat, groups: seq<Group>, base: nat)
    returns (attend: map<((Person, GroupName), int), int>, highest: nat)
    requires WellFormed(groups)
    ensures Distinct(Memberships(groups))
    ensures attend == Family(Memberships(groups), numSlots, base)
    ensures highest == base + |Memberships(groups)| * numSlots
  {
    MembershipsDistinct(groups);
    ghost var ms := Memberships(groups);
    ghost var k := 0;
    highest := base;
    attend := map[];
    var gi := 0;
    while gi < |groups|
      invariant 0 <= gi <= |groups|
      invariant k == |Memberships(groups[..gi])|
      invariant highest == base + k * numSlots
      invariant attend == Filled(ms, numSlots, base, k, 1)
    {
      var g := groups[gi];
      assert groups[..gi + 1][..gi] == groups[..gi];
      assert Memberships(groups[..gi + 1]) == Memberships(groups[..gi]) + Pairs(g);
      var mi := 0;
      while mi < |g.members|
        invariant 0 <= mi <= |g.members|
        invariant k == |Memberships(groups[..gi])| + mi
        invariant highest == base + k * numSlots
        invariant attend == Filled(ms, numSlots, base, k, 1)
      {
        MembershipAt(groups, gi, mi);
        attend, highest := NumberSlots(ms, numSlots, base, k, (g.members[mi], g.name), attend, highest);
        k := k + 1;
        mi := mi + 1;
      }
      gi := gi + 1;
    }
    assert groups[..|groups|] == groups;
  }

  /** Builds the inverse map and the two families of variable IDs. */
  method CreateScrumData(numSlots: nat, groups: seq<Group>) returns (d: ScrumData)
    requires WellFormed(groups)
    ensures d == ScrumDataOf(numSlots, groups)
    ensures Built(d)
  {
    var people, order := InvertGroups(groups);
    var slotVars, highest := NumberGroupSlots(numSlots, groups);
    var attend;
    attend, highest := NumberAttendance(numSlots, groups, highest);
    d := ScrumData(numSlots, people, order, groups, slotVars, attend, highest);
  }

  /** Inverse map: `p` is a key of the people dictionary exactly when it is a member of some
      group, and `g` is among its groups exactly when `p` is listed in group `g`. */
  lemma InverseMap(d: ScrumData)
    requires Built(d)
    ensures forall p :: p in d.people <==> exists g :: IsMember(d.groups, p, g)
    ensures forall p, g :: p in d.people ==> (g in d.people[p] <==> IsMember(d.groups, p, g))
    ensures Distinct(d.personOrder) && forall p :: p in d.personOrder <==> p in d.people
  {
    var ms := Memberships(d.groups);
    MembershipsMeaning(d.groups);
    PeopleOfInverse(ms);
    PersonOrderEnumerates(ms);
  }

  /** Group-slot IDs: every (group, slot) with slot in 1 .. numSlots gets one; the i-th group's
      slot s gets i * numSlots + s; the IDs are exactly 1 .. |groups| * numSlots and distinct. */
  lemma GroupSlotIds(d: ScrumData)
    requires Built(d)
    ensures forall g, s :: (g, s) in d.groupSlotVar <==> g in Names(d.groups) && 1 <= s <= d.numSlots
    ensures forall i, s :: 0 <= i < |d.groups| && 1 <= s <= d.numSlots ==>
              (d.groups[i].name, s) in d.groupSlotVar && d.groupSlotVar[(d.groups[i].name, s)] == i * d.numSlots + s
    ensures forall v :: v in d.groupSlotVar.Values <==> 1 <= v <= |d.groups| * d.numSlots
    ensures forall a, b :: a in d.groupSlotVar && b in d.groupSlotVar && a != b ==> d.groupSlotVar[a] != d.groupSlotVar[b]
  {
    var names := Names(d.groups);
    FamilyAt(names, d.numSlots, 0);
    FamilyValues(names, d.numSlots, 0);
    FamilyInjective(names, d.numSlots, 0);
    forall i, s | 0 <= i < |d.groups| && 1 <= s <= d.numSlots
      ensures (d.groups[i].name, s) in d.groupSlotVar && d.groupSlotVar[(d.groups[i].name, s)] == i * d.numSlots + s
    {
      assert names[i] == d.groups[i].name;
    }
  }

  /** Attendance IDs: every (person, group, slot) with the person a member of the group and
      the slot in 1 .. numSlots gets one; they continue right after the group-slot IDs, are
      exactly |groups| * numSlots + 1 .. highestVar, and are distinct. */
  lemma AttendanceIds(d: ScrumData)
    requires Built(d)
    ensures forall p, g, s :: ((p, g), s) in d.attendVar <==> IsMember(d.groups, p, g) && 1 <= s <= d.numSlots
    ensures forall v :: v in d.attendVar.Values <==> |d.groups| * d.numSlots < v <= d.highestVar
    ensures forall a, b :: a in d.attendVar && b in d.attendVar && a != b ==> d.attendVar[a] != d.attendVar[b]
  {
    var ms := Memberships(d.groups);
    MembershipsDistinct(d.groups);
    MembershipsMeaning(d.groups);
    FamilyAt(ms, d.numSlots, |d.groups| * d.numSlots);
    FamilyValues(ms, d.numSlots, |d.groups| * d.numSlots);
    FamilyInjective(ms, d.numSlots, |d.groups| * d.numSlots);
  }

  /** The highest ID is numSlots * (|groups| + total members); the two families together use
      exactly the IDs 1 .. highestVar, and no ID is used by both. */
  lemma HighestVar(d: ScrumData)
    requires Built(d)
    ensures d.highestVar == d.numSlots * (|d.groups| + MemberCount(d.groups))
    ensures forall v :: v in d.groupSlotVar.Values || v in d.attendVar.Values <==> 1 <= v <= d.highestVar
    ensures forall v :: !(v in d.groupSlotVar.Values && v in d.attendVar.Values)
  {
    MembershipsLength(d.groups);
    GroupSlotIds(d);
    AttendanceIds(d);
    Distrib(d.numSlots, |d.groups|, MemberCount(d.groups));
    var top := |d.groups| * d.numSlots;
    RangeUnion(d.groupSlotVar.Values, d.attendVar.Values, top, d.highestVar);
  }

  /** Two adjacent ranges of IDs 1 .. top and top+1 .. h make up 1 .. h without overlap. */
  lemma RangeUnion(a: set<int>, b: set<int>, top: int, h: int)
    requires forall v :: v in a <==> 1 <= v <= top
    requires forall v :: v in b <==> top < v <= h
    requires 0 <= top <= h
    ensures forall v :: v in a || v in b <==> 1 <= v <= h
    ensures forall v :: !(v in a && v in b)
  {
  }

  lemma Distrib(n: int, a: int, b: int)
    ensures n * (a + b) == a * n + b * n
  {
  }

  /** Every lookup the encoder and the decoder make finds its ID: the listed people are keys
      of the people dictionary, every (group, slot) has a slot variable and every (person,
      one of their groups, slot) an attendance variable. */
  ghost predicate Lookups(d: ScrumData)
  {
    && (forall p :: p in d.personOrder ==> p in d.people)
    && (forall g, s :: g in Names(d.groups) && 1 <= s <= d.numSlots ==> (g, s) in d.groupSlotVar)
    && (forall p, g, s :: p in d.people && g in d.people[p] && 1 <= s <= d.numSlots ==> ((p, g), s) in d.attendVar)
  }

  /** What the encoder relies on in the data `create_scrum_data` builds: every lookup succeeds,
      every ID lies in 1 .. highestVar, everyone belongs to a group and only to listed groups. */
  lemma BuiltLookups(d: ScrumData)
    requires Built(d)
    ensures Lookups(d)
    ensures forall k :: k in d.groupSlotVar ==> 1 <= d.groupSlotVar[k] <= d.highestVar
    ensures forall k :: k in d.attendVar ==> 1 <= d.attendVar[k] <= d.highestVar
    ensures forall p :: p in d.people ==> d.people[p] != {}
    ensures forall p, g :: p in d.people && g in d.people[p] ==> g in Names(d.groups)
    ensures forall p :: p in d.people ==> p in d.personOrder
  {
    InverseMap(d);
    GroupSlotIds(d);
    AttendanceIds(d);
    HighestVar(d);
    forall p | p in d.people ensures d.people[p] != {} {
      var g :| IsMember(d.groups, p, g);
    }
    forall p, g | p in d.people && g in d.people[p] ensures g in Names(d.groups) {
      var i :| 0 <= i < |d.groups| && d.groups[i].name == g && p in d.groups[i].members;
      assert Names(d.groups)[i] == g;
    }
    forall k | k in d.groupSlotVar ensures 1 <= d.groupSlotVar[k] <= d.highestVar {
      assert d.groupSlotVar[k] in d.groupSlotVar.Values;
    }
    forall k | k in d.attendVar ensures 1 <= d.attendVar[k] <= d.highestVar {
      assert d.attendVar[k] in d.attendVar.Values;
    }
  }

  /** Every ID is positive and at most highestVar, and no two (group, slot) or
      ((person, group), slot) keys share an ID. */
  ghost predicate Numbered(d: ScrumData)
  {
    && (forall k :: k in d.groupSlotVar ==> 1 <= d.groupSlotVar[k] <= d.highestVar)
    && (forall k :: k in d.attendVar ==> 1 <= d.attendVar[k] <= d.highestVar)
    && (forall a, b :: a in d.groupSlotVar && b in d.groupSlotVar && d.groupSlotVar[a] == d.groupSlotVar[b] ==> a == b)
    && (forall a, b :: a in d.attendVar && b in d.attendVar && d.attendVar[a] == d.attendVar[b] ==> a == b)
    && (forall a, b :: a in d.groupSlotVar && b in d.attendVar ==> d.groupSlotVar[a] != d.attendVar[b])
  }

  lemma BuiltNumbered(d: ScrumData)
    requires Built(d)
    ensures Numbered(d)
  {
    BuiltLookups(d);
    GroupSlotIds(d);
    AttendanceIds(d);
    HighestVar(d);
    forall a, b | a in d.groupSlotVar && b in d.attendVar ensures d.groupSlotVar[a] != d.attendVar[b] {
      assert d.groupSlotVar[a] in d.groupSlotVar.Values;
      assert d.attendVar[b] in d.attendVar.Values;
    }
  }
}
