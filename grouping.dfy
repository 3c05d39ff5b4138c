/**
 * The two table operations `create_features` starts with
 * (src/feature_engineering.py, lines 15 and 18): `sort_values` by
 * (Patient ID, date), then `groupby('Patient ID')`, whose groups come out in
 * ascending key order and list each patient's rows in table order.
 */
module Grouping {
  import opened PatientOrder

  /** One cleaned reading: the four columns `create_features` uses. */
  datatype Reading = Reading(patientId: string, date: int, heartRate: real, systolicBp: real)

  // ---------------------------------------------------------------------------
  // sort_values(by=['Patient ID', 'date'])
  // ---------------------------------------------------------------------------

  /** Strictly before in the (Patient ID, date) order. */
  predicate KeyLess(a: Reading, b: Reading) {
    Less(a.patientId, b.patientId) || (a.patientId == b.patientId && a.date < b.date)
  }

  predicate SameKey(a: Reading, b: Reading) {
    a.patientId == b.patientId && a.date == b.date
  }

  predicate Sorted(s: seq<Reading>) {
    forall i, j :: 0 <= i < j < |s| ==> !KeyLess(s[j], s[i])
  }

  lemma KeyLessTotal(a: Reading, b: Reading)
    ensures KeyLess(a, b) || KeyLess(b, a) || SameKey(a, b)
  {
    LessTotal(a.patientId, b.patientId);
  }

  lemma KeyLessTransitive(a: Reading, b: Reading, c: Reading)
    requires KeyLess(a, b) && KeyLess(b, c)
    ensures KeyLess(a, c)
  {
    if Less(a.patientId, b.patientId) && Less(b.patientId, c.patientId) {
      LessTransitive(a.patientId, b.patientId, c.patientId);
    }
  }

  lemma KeyLessIrreflexive(a: Reading)
    ensures !KeyLess(a, a)
  {
    LessIrreflexive(a.patientId);
  }

  lemma KeyLessAsymmetric(a: Reading, b: Reading)
    ensures KeyLess(a, b) ==> !KeyLess(b, a)
  {
    LessAsymmetric(a.patientId, b.patientId);
    LessIrreflexive(a.patientId);
  }

  /** "Not after" is transitive. */
  lemma NotAfterTransitive(a: Reading, b: Reading, c: Reading)
    requires !KeyLess(b, a) && !KeyLess(c, b)
    ensures !KeyLess(c, a)
  {
    KeyLessTotal(a, b);
    KeyLessTotal(b, c);
    LessAsymmetric(a.patientId, b.patientId);
    LessAsymmetric(b.patientId, c.patientId);
    LessAsymmetric(a.patientId, c.patientId);
    LessIrreflexive(a.patientId);
    if KeyLess(a, b) && KeyLess(b, c) {
      KeyLessTransitive(a, b, c);
    }
    if Less(a.patientId, b.patientId) && Less(b.patientId, c.patientId) {
      LessTransitive(a.patientId, b.patientId, c.patientId);
    }
  }

  /** Insert `x` after every reading that is not after it, which keeps the sort stable. */
  function Insert(x: Reading, s: seq<Reading>): (r: seq<Reading>)
    ensures multiset(r) == multiset(s) + multiset{x}
    decreases |s|
  {
    if s == [] then [x]
    else if KeyLess(x, s[0]) then [x] + s
    else
      assert s == [s[0]] + s[1..];
      [s[0]] + Insert(x, s[1..])
  }

  lemma {:induction false} InsertSorted(x: Reading, s: seq<Reading>)
    requires Sorted(s)
    ensures Sorted(Insert(x, s))
    decreases |s|
  {
    if s != [] && !KeyLess(x, s[0]) {
      InsertSorted(x, s[1..]);
      InsertPast(x, s);
      HeadBeforeInsert(x, s);
      ConsSorted(s[0], Insert(x, s[1..]));
    } else if s != [] {
      PrependSorted(x, s);
    }
  }

  /** Inserting `x` past the head leaves the head first: nothing in the rest comes before it. */
  lemma HeadBeforeInsert(x: Reading, s: seq<Reading>)
    requires Sorted(s) && s != [] && !KeyLess(x, s[0])
    ensures forall j :: 0 <= j < |Insert(x, s[1..])| ==> !KeyLess(Insert(x, s[1..])[j], s[0])
  {
    var rest := Insert(x, s[1..]);
    forall j | 0 <= j < |rest|
      ensures !KeyLess(rest[j], s[0])
    {
      assert rest[j] in multiset(rest);
      if rest[j] != x {
        assert rest[j] in multiset(s[1..]);
        var m :| 0 <= m < |s[1..]| && s[1..][m] == rest[j];
        assert s[m + 1] == rest[j];
      }
    }
  }

  /** A sorted table stays sorted under a head that nothing in it comes before. */
  lemma ConsSorted(h: Reading, rest: seq<Reading>)
    requires Sorted(rest) && forall j :: 0 <= j < |rest| ==> !KeyLess(rest[j], h)
    ensures Sorted([h] + rest)
  {
    var r := [h] + rest;
    forall i, j | 0 <= i < j < |r|
      ensures !KeyLess(r[j], r[i])
    {
      assert r[j] == rest[j - 1];
      if i > 0 {
        assert r[i] == rest[i - 1];
      }
    }
  }

  /** A reading before the head of a sorted table can go in front of it. */
  lemma PrependSorted(x: Reading, s: seq<Reading>)
    requires Sorted(s) && s != [] && KeyLess(x, s[0])
    ensures Sorted([x] + s)
  {
    var r := [x] + s;
    forall i, j | 0 <= i < j < |r|
      ensures !KeyLess(r[j], r[i])
    {
      if i == 0 {
        KeyLessAsymmetric(x, s[0]);
        KeyLessIrreflexive(s[0]);
        NotAfterTransitive(x, s[0], s[j - 1]);
      } else {
        assert r[i] == s[i - 1] && r[j] == s[j - 1];
      }
    }
  }

  /** `sort_values`: a stable sort by (Patient ID, date). */
  function SortReadings(s: seq<Reading>): (r: seq<Reading>)
    ensures multiset(r) == multiset(s)
    decreases |s|
  {
    if s == [] then []
    else
      assert s == s[..|s| - 1] + [s[|s| - 1]];
      Insert(s[|s| - 1], SortReadings(s[..|s| - 1]))
  }

  lemma {:induction false} SortReadingsSorted(s: seq<Reading>)
    ensures Sorted(SortReadings(s))
    decreases |s|
  {
    if s != [] {
      SortReadingsSorted(s[..|s| - 1]);
      InsertSorted(s[|s| - 1], SortReadings(s[..|s| - 1]));
    }
  }

  /** `[r]` when `r` has Patient ID `id` and date `date`, else nothing. */
  function Hit(r: Reading, id: string, date: int): seq<Reading> {
    if r.patientId == id && r.date == date then [r] else []
  }

  /** The readings with Patient ID `id` and date `date`, in table order. */
  function WithKey(s: seq<Reading>, id: string, date: int): seq<Reading>
    decreases |s|
  {
    if s == [] then [] else Hit(s[0], id, date) + WithKey(s[1..], id, date)
  }

  lemma {:induction false} WithKeyAppend(a: seq<Reading>, b: seq<Reading>, id: string, date: int)
    ensures WithKey(a + b, id, date) == WithKey(a, id, date) + WithKey(b, id, date)
    decreases |a|
  {
    if a == [] {
      assert a + b == b;
    } else {
      assert (a + b)[0] == a[0];
      assert (a + b)[1..] == a[1..] + b;
      WithKeyAppend(a[1..], b, id, date);
      var h := Hit(a[0], id, date);
      assert WithKey(a + b, id, date) == h + WithKey(a[1..] + b, id, date);
      assert h + (WithKey(a[1..], id, date) + WithKey(b, id, date)) ==
             (h + WithKey(a[1..], id, date)) + WithKey(b, id, date);
    }
  }

  lemma {:induction false} WithKeyNone(s: seq<Reading>, id: string, date: int)
    requires forall i :: 0 <= i < |s| ==> !(s[i].patientId == id && s[i].date == date)
    ensures WithKey(s, id, date) == []
    decreases |s|
  {
    if s != [] {
      assert forall i :: 1 <= i < |s| ==> s[1..][i - 1] == s[i];
      WithKeyNone(s[1..], id, date);
      assert Hit(s[0], id, date) == [];
    }
  }

  /** In a sorted table that starts after `x`, no reading shares `x`'s key. */
  lemma NoneWithKeyAfter(x: Reading, s: seq<Reading>)
    requires Sorted(s) && s != [] && KeyLess(x, s[0])
    ensures WithKey(s, x.patientId, x.date) == []
  {
    forall i | 0 <= i < |s|
      ensures !(s[i].patientId == x.patientId && s[i].date == x.date)
    {
      if i > 0 {
        KeyLessTotal(s[0], s[i]);
        if KeyLess(s[0], s[i]) {
          KeyLessTransitive(x, s[0], s[i]);
        }
      }
      LessIrreflexive(x.patientId);
    }
    WithKeyNone(s, x.patientId, x.date);
  }

  lemma WithKeyCons(r: Reading, s: seq<Reading>, id: string, date: int)
    ensures WithKey([r] + s, id, date) == Hit(r, id, date) + WithKey(s, id, date)
  {
    assert ([r] + s)[1..] == s;
  }

  /** Inserting `x` into a sorted table places it after every reading of its own key. */
  lemma {:induction false} InsertWithKey(x: Reading, s: seq<Reading>, id: string, date: int)
    requires Sorted(s)
    ensures WithKey(Insert(x, s), id, date) == WithKey(s, id, date) + Hit(x, id, date)
    decreases |s|
  {
    if s == [] {
      WithKeyCons(x, [], id, date);
    } else if KeyLess(x, s[0]) {
      WithKeyCons(x, s, id, date);
      if x.patientId == id && x.date == date {
        NoneWithKeyAfter(x, s);
      } else {
        assert Hit(x, id, date) == [];
      }
    } else {
      InsertWithKey(x, s[1..], id, date);
      InsertWithKeyStep(x, s, id, date);
    }
  }

  /** One reading of InsertWithKey: `x` goes past `s[0]`, and the rest is the induction hypothesis. */
  lemma InsertWithKeyStep(x: Reading, s: seq<Reading>, id: string, date: int)
    requires s != [] && !KeyLess(x, s[0])
    requires WithKey(Insert(x, s[1..]), id, date) == WithKey(s[1..], id, date) + Hit(x, id, date)
    ensures WithKey(Insert(x, s), id, date) == WithKey(s, id, date) + Hit(x, id, date)
  {
    InsertPast(x, s);
    WithKeyCons(s[0], Insert(x, s[1..]), id, date);
    ConcatAssociative(Hit(s[0], id, date), WithKey(s[1..], id, date), Hit(x, id, date));
  }

  lemma InsertPast(x: Reading, s: seq<Reading>)
    requires s != [] && !KeyLess(x, s[0])
    ensures Insert(x, s) == [s[0]] + Insert(x, s[1..])
  {
  }

  lemma ConcatAssociative(a: seq<Reading>, b: seq<Reading>, c: seq<Reading>)
    ensures a + (b + c) == (a + b) + c
  {
  }

  /**
   * The sort is stable: the readings of any one (Patient ID, date) key keep
   * their input order, so that order reaches the trend of a patient with two
   * readings on the same day.
   */
  lemma {:induction false} SortReadingsStable(s: seq<Reading>, id: string, date: int)
    ensures WithKey(SortReadings(s), id, date) == WithKey(s, id, date)
    decreases |s|
  {
    if s != [] {
      assert s[..|s| - 1] + [s[|s| - 1]] == s;
      SortReadingsStable(s[..|s| - 1], id, date);
      SortReadingsSorted(s[..|s| - 1]);
      InsertWithKey(s[|s| - 1], SortReadings(s[..|s| - 1]), id, date);
      WithKeyAppend(s[..|s| - 1], [s[|s| - 1]], id, date);
      WithKeyCons(s[|s| - 1], [], id, date);
    }
  }

  // ---------------------------------------------------------------------------
  // groupby('Patient ID') on the sorted table
  // ---------------------------------------------------------------------------

  /** Length of the leading run of readings of patient `id`. */
  function RunLength(s: seq<Reading>, id: string): (k: nat)
    ensures k <= |s|
    ensures forall i :: 0 <= i < k ==> s[i].patientId == id
    ensures k < |s| ==> s[k].patientId != id
    decreases |s|
  {
    if s == [] || s[0].patientId != id then 0 else 1 + RunLength(s[1..], id)
  }

  /** The maximal runs of readings that share a Patient ID, in table order. */
  function Groups(s: seq<Reading>): (gs: seq<seq<Reading>>)
    ensures forall j :: 0 <= j < |gs| ==> |gs[j]| > 0
    ensures forall j, i :: 0 <= j < |gs| && 0 <= i < |gs[j]| ==> gs[j][i].patientId == gs[j][0].patientId
    decreases |s|
  {
    if s == [] then []
    else
      var k := RunLength(s, s[0].patientId);
      [s[..k]] + Groups(s[k..])
  }

  /** The key of a group. */
  function GroupId(g: seq<Reading>): string
    requires |g| > 0
  {
    g[0].patientId
  }

  function Concat(gs: seq<seq<Reading>>): seq<Reading> {
    if gs == [] then [] else gs[0] + Concat(gs[1..])
  }

  /** Grouping loses and invents no reading: the groups, concatenated, are the table. */
  lemma {:induction false} GroupsPartition(s: seq<Reading>)
    ensures Concat(Groups(s)) == s
    decreases |s|
  {
    if s != [] {
      var k := RunLength(s, s[0].patientId);
      assert s == s[..k] + s[k..];
      GroupsPartition(s[k..]);
      ConcatCons(s[..k], Groups(s[k..]));
    }
  }

  lemma ConcatCons(g: seq<Reading>, gs: seq<seq<Reading>>)
    ensures Concat([g] + gs) == g + Concat(gs)
  {
    assert ([g] + gs)[1..] == gs;
  }

  /** The set of Patient IDs of a table. */
  function Ids(s: seq<Reading>): set<string> {
    set i | 0 <= i < |s| :: s[i].patientId
  }

  predicate StrictlyAscending(ids: seq<string>) {
    forall i, j :: 0 <= i < j < |ids| ==> Less(ids[i], ids[j])
  }

  /** The keys of the groups, in group order. */
  function GroupIds(gs: seq<seq<Reading>>): (ids: seq<string>)
    requires forall j :: 0 <= j < |gs| ==> |gs[j]| > 0
    ensures |ids| == |gs|
  {
    seq(|gs|, j requires 0 <= j < |gs| => GroupId(gs[j]))
  }

  lemma SortedTail(s: seq<Reading>, k: nat)
    requires Sorted(s) && k <= |s|
    ensures Sorted(s[k..]) && Sorted(s[..k])
  {
    assert forall i :: 0 <= i < |s| - k ==> s[k..][i] == s[k + i];
  }

  /** In a sorted table, every reading after the first run has a larger Patient ID. */
  lemma AfterFirstRun(s: seq<Reading>, m: nat)
    requires Sorted(s) && s != []
    requires RunLength(s, s[0].patientId) <= m < |s|
    ensures Less(s[0].patientId, s[m].patientId)
  {
    var k := RunLength(s, s[0].patientId);
    LessTotal(s[0].patientId, s[k].patientId);
    LessTotal(s[k].patientId, s[m].patientId);
    if Less(s[0].patientId, s[k].patientId) && Less(s[k].patientId, s[m].patientId) {
      LessTransitive(s[0].patientId, s[k].patientId, s[m].patientId);
    }
  }

  /** One group per Patient ID: on a sorted table the group keys strictly ascend. */
  lemma {:induction false} GroupIdsAscending(s: seq<Reading>)
    requires Sorted(s)
    ensures StrictlyAscending(GroupIds(Groups(s)))
    decreases |s|
  {
    if s != [] {
      var k := RunLength(s, s[0].patientId);
      var gs, tail := Groups(s), Groups(s[k..]);
      SortedTail(s, k);
      GroupIdsAscending(s[k..]);
      assert gs[1..] == tail;
      var ids, rest := GroupIds(gs), GroupIds(tail);
      forall i, j | 0 <= i < j < |ids|
        ensures Less(ids[i], ids[j])
      {
        assert ids[j] == rest[j - 1];
        if i == 0 {
          GroupStartsAt(s[k..], j - 1);
          var m :| 0 <= m < |s[k..]| && s[k..][m] == tail[j - 1][0];
          AfterFirstRun(s, k + m);
        } else {
          assert ids[i] == rest[i - 1];
        }
      }
    }
  }

  /** The first reading of every group is a reading of the table. */
  lemma {:induction false} GroupStartsAt(s: seq<Reading>, j: nat)
    requires j < |Groups(s)|
    ensures exists m :: 0 <= m < |s| && s[m] == Groups(s)[j][0]
    decreases |s|
  {
    var k := RunLength(s, s[0].patientId);
    if j == 0 {
      assert s[0] == Groups(s)[0][0];
    } else {
      assert Groups(s)[j] == Groups(s[k..])[j - 1];
      GroupStartsAt(s[k..], j - 1);
      var m :| 0 <= m < |s[k..]| && s[k..][m] == Groups(s[k..])[j - 1][0];
      assert s[k + m] == Groups(s)[j][0];
    }
  }

  /** The keys of the groups of a table, as a set. */
  function GroupKeys(s: seq<Reading>): set<string> {
    set j | 0 <= j < |Groups(s)| :: GroupId(Groups(s)[j])
  }

  lemma GroupKeysCons(s: seq<Reading>)
    requires s != []
    ensures GroupKeys(s) == {s[0].patientId} + GroupKeys(s[RunLength(s, s[0].patientId)..])
  {
    var k := RunLength(s, s[0].patientId);
    var gs, tail := Groups(s), Groups(s[k..]);
    assert gs[1..] == tail;
    forall id | id in GroupKeys(s) ensures id in {s[0].patientId} + GroupKeys(s[k..]) {
      var j :| 0 <= j < |gs| && GroupId(gs[j]) == id;
      if j > 0 {
        assert GroupId(tail[j - 1]) == id;
      }
    }
    forall id | id in GroupKeys(s[k..]) ensures id in GroupKeys(s) {
      var j :| 0 <= j < |tail| && GroupId(tail[j]) == id;
      assert GroupId(gs[j + 1]) == id;
    }
    assert GroupId(gs[0]) == s[0].patientId;
  }

  lemma IdsSplit(s: seq<Reading>, k: nat)
    requires 0 < k <= |s|
    requires forall i :: 0 <= i < k ==> s[i].patientId == s[0].patientId
    ensures Ids(s) == {s[0].patientId} + Ids(s[k..])
  {
    forall id | id in Ids(s) ensures id in {s[0].patientId} + Ids(s[k..]) {
      var i :| 0 <= i < |s| && s[i].patientId == id;
      if i >= k {
        assert s[k..][i - k].patientId == id;
      }
    }
    forall id | id in Ids(s[k..]) ensures id in Ids(s) {
      var i :| 0 <= i < |s[k..]| && s[k..][i].patientId == id;
      assert s[k + i].patientId == id;
    }
    assert s[0].patientId in Ids(s);
  }

  /** The group keys are exactly the Patient IDs of the table. */
  lemma {:induction false} GroupIdsCover(s: seq<Reading>)
    ensures GroupKeys(s) == Ids(s)
    decreases |s|
  {
    if s != [] {
      var k := RunLength(s, s[0].patientId);
      GroupIdsCover(s[k..]);
      GroupKeysCons(s);
      IdsSplit(s, k);
    }
  }

  // ---------------------------------------------------------------------------
  // A group is the patient's readings
  // ---------------------------------------------------------------------------

  /** The readings of patient `id`, in table order (what `df[df['Patient ID'] == id]` selects). */
  function OfPatient(s: seq<Reading>, id: string): (r: seq<Reading>)
    ensures |r| <= |s|
    ensures forall i :: 0 <= i < |r| ==> r[i].patientId == id
    decreases |s|
  {
    if s == [] then []
    else (if s[0].patientId == id then [s[0]] else []) + OfPatient(s[1..], id)
  }

  lemma {:induction false} OfPatientAppend(a: seq<Reading>, b: seq<Reading>, id: string)
    ensures OfPatient(a + b, id) == OfPatient(a, id) + OfPatient(b, id)
    decreases |a|
  {
    if a != [] {
      var head := if a[0].patientId == id then [a[0]] else [];
      assert (a + b)[0] == a[0];
      assert (a + b)[1..] == a[1..] + b;
      OfPatientAppend(a[1..], b, id);
      assert OfPatient(a + b, id) == head + (OfPatient(a[1..], id) + OfPatient(b, id));
      assert OfPatient(a, id) == head + OfPatient(a[1..], id);
    } else {
      assert a + b == b;
    }
  }

  lemma {:induction false} OfPatientNone(s: seq<Reading>, id: string)
    requires forall i :: 0 <= i < |s| ==> s[i].patientId != id
    ensures OfPatient(s, id) == []
    decreases |s|
  {
    if s != [] {
      OfPatientNone(s[1..], id);
    }
  }

  lemma {:induction false} OfPatientAll(s: seq<Reading>, id: string)
    requires forall i :: 0 <= i < |s| ==> s[i].patientId == id
    ensures OfPatient(s, id) == s
    decreases |s|
  {
    if s != [] {
      OfPatientAll(s[1..], id);
    }
  }

  /** How many copies of `r` the patient's selection holds. */
  lemma {:induction false} OfPatientCount(s: seq<Reading>, id: string, r: Reading)
    ensures multiset(OfPatient(s, id))[r] == if r.patientId == id then multiset(s)[r] else 0
    decreases |s|
  {
    if s != [] {
      OfPatientCount(s[1..], id, r);
      assert s == [s[0]] + s[1..];
    }
  }

  /** Selecting a patient commutes with reordering the table. */
  lemma OfPatientPermutation(a: seq<Reading>, b: seq<Reading>, id: string)
    requires multiset(a) == multiset(b)
    ensures multiset(OfPatient(a, id)) == multiset(OfPatient(b, id))
  {
    forall r ensures multiset(OfPatient(a, id))[r] == multiset(OfPatient(b, id))[r] {
      OfPatientCount(a, id, r);
      OfPatientCount(b, id, r);
    }
  }

  /** On a sorted table, the first run is all of its patient's readings. */
  lemma {:induction false} FirstGroupIsPatient(s: seq<Reading>)
    requires Sorted(s) && s != []
    ensures var k := RunLength(s, s[0].patientId);
      OfPatient(s, s[0].patientId) == s[..k] && OfPatient(s[k..], s[0].patientId) == []
  {
    var k := RunLength(s, s[0].patientId);
    var id := s[0].patientId;
    assert s == s[..k] + s[k..];
    OfPatientAppend(s[..k], s[k..], id);
    OfPatientAll(s[..k], id);
    forall m | 0 <= m < |s[k..]| ensures s[k..][m].patientId != id {
      AfterFirstRun(s, k + m);
      LessIrreflexive(id);
    }
    OfPatientNone(s[k..], id);
  }

  /** On a sorted table, a patient of a later group has no reading in the first run. */
  lemma LaterGroupIsPatient(s: seq<Reading>, id: string)
    requires Sorted(s) && s != [] && Less(s[0].patientId, id)
    ensures OfPatient(s, id) == OfPatient(s[RunLength(s, s[0].patientId)..], id)
  {
    var k := RunLength(s, s[0].patientId);
    assert s == s[..k] + s[k..];
    OfPatientAppend(s[..k], s[k..], id);
    LessIrreflexive(id);
    OfPatientNone(s[..k], id);
  }

  /** On a sorted table, group j holds exactly the readings of its patient, in table order. */
  lemma {:induction false} GroupIsPatient(s: seq<Reading>, j: nat)
    requires Sorted(s) && j < |Groups(s)|
    ensures Groups(s)[j] == OfPatient(s, GroupId(Groups(s)[j]))
    decreases |s|
  {
    if j == 0 {
      FirstGroupIsPatient(s);
    } else {
      var k := RunLength(s, s[0].patientId);
      LaterGroup(s, j);
      SortedTail(s, k);
      GroupIsPatient(s[k..], j - 1);
      LaterGroupIsPatient(s, GroupId(Groups(s)[j]));
    }
  }

  /** A later group is a group of the rest of the table, of a patient after the first one. */
  lemma {:induction false} LaterGroup(s: seq<Reading>, j: nat)
    requires Sorted(s) && 0 < j < |Groups(s)|
    ensures s != []
    ensures var k := RunLength(s, s[0].patientId);
      Groups(s)[j] == Groups(s[k..])[j - 1] && Less(s[0].patientId, GroupId(Groups(s)[j]))
  {
    var k := RunLength(s, s[0].patientId);
    var gs := Groups(s);
    assert gs[j] == Groups(s[k..])[j - 1];
    GroupStartsAt(s[k..], j - 1);
    var m :| 0 <= m < |s[k..]| && s[k..][m] == gs[j][0];
    AfterFirstRun(s, k + m);
  }

  /** A group of a sorted table is sorted, so its readings ascend by date. */
  lemma {:induction false} GroupSorted(s: seq<Reading>, j: nat)
    requires Sorted(s) && j < |Groups(s)|
    ensures Sorted(Groups(s)[j])
    ensures forall a, b :: 0 <= a < b < |Groups(s)[j]| ==> Groups(s)[j][a].date <= Groups(s)[j][b].date
    decreases |s|
  {
    var k := RunLength(s, s[0].patientId);
    SortedTail(s, k);
    if j > 0 {
      assert Groups(s)[j] == Groups(s[k..])[j - 1];
      GroupSorted(s[k..], j - 1);
    }
    var g := Groups(s)[j];
    forall a, b | 0 <= a < b < |g| ensures g[a].date <= g[b].date {
      assert !KeyLess(g[b], g[a]);
      LessIrreflexive(g[a].patientId);
    }
  }
}
