/** The integrity audit's search for duplicate teacher assignments: one pass with sets of composite
    text keys. */
module DuplicateScan {
  import opened Wrappers
  import opened Text

  type Id = string

  datatype TeacherAssignment = TeacherAssignment(id: Id, year: Id, staffId: Id, section: Id, isClassTeacher: bool,
                                                 offering: Option<Id>, subject: Option<Id>)

  datatype Issue = DuplicateClassTeacher | DuplicateAssignment

  datatype Finding = Finding(id: Id, issue: Issue)

  // ----- The keys -----

  /** What is taught: the offering if there is one, else the subject, else nothing in particular. */
  datatype Target = Offered(id: Id) | Taught(id: Id) | Anything

  function TargetOf(t: TeacherAssignment): Target {
    if t.offering.Some? && t.offering.value != "" then Offered(t.offering.value)
    else if t.subject.Some? && t.subject.value != "" then Taught(t.subject.value)
    else Anything
  }

  function TargetKey(target: Target): seq<string> {
    match target
    case Offered(id) => ["OFF", id]
    case Taught(id) => ["SUB", id]
    case Anything => ["NONE"]
  }

  function ClassTeacherKey(t: TeacherAssignment): string {
    t.year + ":" + t.section
  }

  function AssignmentKey(t: TeacherAssignment): string {
    t.year + ":" + t.staffId + ":" + t.section + ":" + Join(TargetKey(TargetOf(t)), ':')
  }

  /** What is taught comes last in the key. */
  const LAST: set<Place> := {InTarget}

  datatype Place = InYear | InStaff | InSection | InTarget

  predicate OnlyIn(t: TeacherAssignment, places: set<Place>) {
    && (':' in t.year ==> InYear in places)
    && (':' in t.staffId ==> InStaff in places)
    && (':' in t.section ==> InSection in places)
    && (t.offering.Some? && ':' in t.offering.value ==> InTarget in places)
    && (t.subject.Some? && ':' in t.subject.value ==> InTarget in places)
  }

  predicate Clash(a: TeacherAssignment, b: TeacherAssignment) {
    AssignmentKey(a) == AssignmentKey(b) && !SameAssignment(a, b)
  }

  lemma SplitKey(t: TeacherAssignment)
    requires ':' !in t.year && ':' !in t.staffId && ':' !in t.section
    ensures Split(AssignmentKey(t), ':')
         == [t.year, t.staffId, t.section] + Split(Join(TargetKey(TargetOf(t)), ':'), ':')
  {
    hide Split, TargetKey, TargetOf, Join;
    var target := Join(TargetKey(TargetOf(t)), ':');
    SplitLeading(t.section, target, ':');
    SplitLeading(t.staffId, t.section + ":" + target, ':');
    SplitLeading(t.year, t.staffId + ":" + t.section + ":" + target, ':');
    assert t.section + [':'] + target == t.section + ":" + target;
    assert t.staffId + [':'] + (t.section + ":" + target) == t.staffId + ":" + t.section + ":" + target;
    assert t.year + [':'] + (t.staffId + ":" + t.section + ":" + target) == AssignmentKey(t);
  }

  function TargetText(target: Target): string {
    match target
    case Offered(id) => "OFF:" + id
    case Taught(id) => "SUB:" + id
    case Anything => "NONE"
  }

  lemma TargetTextIs(target: Target)
    ensures Join(TargetKey(target), ':') == TargetText(target)
  {
    if !target.Anything? { assert TargetKey(target)[1..] == [target.id]; }
  }

  lemma TargetTextsDiffer(p: Target, q: Target)
    requires TargetText(p) == TargetText(q)
    ensures p == q
  {
    assert TargetText(p)[0] == TargetText(q)[0];
    if !p.Anything? { assert TargetText(p)[4..] == p.id && TargetText(q)[4..] == q.id; }
  }

  predicate SameAssignment(a: TeacherAssignment, b: TeacherAssignment) {
    a.year == b.year && a.staffId == b.staffId && a.section == b.section && TargetOf(a) == TargetOf(b)
  }

  /** With year, staff and section free of the separator, keys are equal exactly if year, staff, section and
      what is taught are. */
  lemma SameKeyIffSameAssignment(a: TeacherAssignment, b: TeacherAssignment)
    requires OnlyIn(a, LAST) && OnlyIn(b, LAST)
    ensures AssignmentKey(a) == AssignmentKey(b) <==> SameAssignment(a, b)
  {
    if AssignmentKey(a) == AssignmentKey(b) {
      SplitKey(a);
      SplitKey(b);
      hide Split, TargetKey, TargetOf, Join, TargetText, AssignmentKey;
      var p, q := Split(AssignmentKey(a), ':'), Split(AssignmentKey(b), ':');
      assert p[0] == q[0] && p[1] == q[1] && p[2] == q[2];
      var s, t := Join(TargetKey(TargetOf(a)), ':'), Join(TargetKey(TargetOf(b)), ':');
      assert p[3..] == Split(s, ':') && q[3..] == Split(t, ':');
      JoinSplit(s, ':');
      JoinSplit(t, ':');
      TargetTextIs(TargetOf(a));
      TargetTextIs(TargetOf(b));
      TargetTextsDiffer(TargetOf(a), TargetOf(b));
    }
  }

  lemma SameClassTeacherKeyIff(a: TeacherAssignment, b: TeacherAssignment)
    requires OnlyIn(a, LAST) && OnlyIn(b, LAST)
    ensures ClassTeacherKey(a) == ClassTeacherKey(b) <==> a.year == b.year && a.section == b.section
  {
    TwoParts(a.year, a.section);
    TwoParts(b.year, b.section);
    hide Split;
    if ClassTeacherKey(a) == ClassTeacherKey(b) {
      assert [a.year, a.section][0] == [b.year, b.section][0] && [a.year, a.section][1] == [b.year, b.section][1];
    }
  }

  lemma TwoParts(x: string, y: string)
    requires ':' !in x && ':' !in y
    ensures Split(x + ":" + y, ':') == [x, y]
  {
    SplitLeading(x, y, ':');
    SplitNone(y, ':');
    assert x + [':'] + y == x + ":" + y;
  }

  // ----- Where the separator does harm -----

  /** The offering or subject may hold the separator without harm. */
  lemma TargetMayHoldSeparator(a: TeacherAssignment, b: TeacherAssignment)
    requires OnlyIn(a, LAST) && OnlyIn(b, LAST)
    ensures !Clash(a, b)
  {
    SameKeyIffSameAssignment(a, b);
  }

  const OFFERED: TeacherAssignment := TeacherAssignment("2", "y", "t", "s", false, Some("NONE"), None)

  /** A separator in year, staff or section each makes two different assignments look alike. */
  lemma ClashExamples()
    ensures Clash(TeacherAssignment("1", "y:t", "s", "OFF", false, None, None), OFFERED)
    ensures Clash(TeacherAssignment("1", "y", "t:s", "OFF", false, None, None), OFFERED)
    ensures Clash(TeacherAssignment("1", "y", "t", "s:OFF", false, None, None), OFFERED)
  {
    OfferedKey();
    YearClashes();
    StaffClashes();
    SectionClashes();
  }

  lemma OfferedKey()
    ensures AssignmentKey(OFFERED) == "y:t:s:OFF:NONE"
  {
    TargetTextIs(TargetOf(OFFERED));
  }

  lemma YearClashes()
    requires AssignmentKey(OFFERED) == "y:t:s:OFF:NONE"
    ensures Clash(TeacherAssignment("1", "y:t", "s", "OFF", false, None, None), OFFERED)
  {
    assert AssignmentKey(TeacherAssignment("1", "y:t", "s", "OFF", false, None, None)) == "y:t:s:OFF:NONE";
    assert |OFFERED.year| == 1;
  }

  lemma StaffClashes()
    requires AssignmentKey(OFFERED) == "y:t:s:OFF:NONE"
    ensures Clash(TeacherAssignment("1", "y", "t:s", "OFF", false, None, None), OFFERED)
  {
    assert AssignmentKey(TeacherAssignment("1", "y", "t:s", "OFF", false, None, None)) == "y:t:s:OFF:NONE";
    assert |OFFERED.staffId| == 1;
  }

  lemma SectionClashes()
    requires AssignmentKey(OFFERED) == "y:t:s:OFF:NONE"
    ensures Clash(TeacherAssignment("1", "y", "t", "s:OFF", false, None, None), OFFERED)
  {
    assert AssignmentKey(TeacherAssignment("1", "y", "t", "s:OFF", false, None, None)) == "y:t:s:OFF:NONE";
    assert |OFFERED.section| == 1;
  }

  /** Ids that hold the separator only in given places admit a clash if and only if year, staff or section
      is among these places. */
  lemma SeparatorClashIff(places: set<Place>)
    ensures (exists a, b :: OnlyIn(a, places) && OnlyIn(b, places) && Clash(a, b)) <==>
              InYear in places || InStaff in places || InSection in places
  {
    hide Clash;
    ClashExamples();
    var byYear := TeacherAssignment("1", "y:t", "s", "OFF", false, None, None);
    var byStaff := TeacherAssignment("1", "y", "t:s", "OFF", false, None, None);
    var bySection := TeacherAssignment("1", "y", "t", "s:OFF", false, None, None);
    assert OnlyIn(OFFERED, places);
    if InYear in places {
      assert OnlyIn(byYear, places) && Clash(byYear, OFFERED);
    } else if InStaff in places {
      assert OnlyIn(byStaff, places) && Clash(byStaff, OFFERED);
    } else if InSection in places {
      assert OnlyIn(bySection, places) && Clash(bySection, OFFERED);
    } else {
      forall a, b | OnlyIn(a, places) && OnlyIn(b, places) ensures !Clash(a, b) {
        TargetMayHoldSeparator(a, b);
      }
    }
  }

  // ----- The pass -----

  predicate RepeatsTeacher(rows: seq<TeacherAssignment>, i: nat)
    requires i < |rows|
  {
    rows[i].isClassTeacher && exists j :: 0 <= j < i && rows[j].isClassTeacher
                                          && ClassTeacherKey(rows[j]) == ClassTeacherKey(rows[i])
  }

  predicate Repeats(rows: seq<TeacherAssignment>, i: nat)
    requires i < |rows|
  {
    exists j :: 0 <= j < i && AssignmentKey(rows[j]) == AssignmentKey(rows[i])
  }

  function Reported(rows: seq<TeacherAssignment>, n: nat): seq<Finding>
    requires n <= |rows|
  {
    if n == 0 then []
    else
      Reported(rows, n - 1)
      + (if RepeatsTeacher(rows, n - 1) then [Finding(rows[n - 1].id, DuplicateClassTeacher)] else [])
      + (if Repeats(rows, n - 1) then [Finding(rows[n - 1].id, DuplicateAssignment)] else [])
  }

  /** The pass reports exactly the rows whose key an earlier row has, in order. */
  method AuditDuplicates(rows: seq<TeacherAssignment>) returns (findings: seq<Finding>)
    ensures findings == Reported(rows, |rows|)
  {
    hide ClassTeacherKey, AssignmentKey;
    findings := [];
    var teacherKeys: set<string>, assignmentKeys: set<string> := {}, {};
    var i := 0;
    while i < |rows|
      invariant i <= |rows|
      invariant findings == Reported(rows, i)
      invariant forall k :: k in assignmentKeys <==> exists j :: 0 <= j < i && AssignmentKey(rows[j]) == k
      invariant forall k :: k in teacherKeys <==>
                              exists j :: 0 <= j < i && rows[j].isClassTeacher && ClassTeacherKey(rows[j]) == k
    {
      var t := rows[i];
      if t.isClassTeacher {
        if ClassTeacherKey(t) in teacherKeys {
          findings := findings + [Finding(t.id, DuplicateClassTeacher)];
        }
        teacherKeys := teacherKeys + {ClassTeacherKey(t)};
      }
      if AssignmentKey(t) in assignmentKeys {
        findings := findings + [Finding(t.id, DuplicateAssignment)];
      }
      assignmentKeys := assignmentKeys + {AssignmentKey(t)};
      i := i + 1;
    }
  }

  /** Nothing is reported exactly if, as far as their ids tell, no two rows assign the same thing and no
      section of a year has two class teachers. */
  lemma SilentIffNoDuplicates(rows: seq<TeacherAssignment>)
    requires forall t | t in rows :: OnlyIn(t, LAST)
    ensures Reported(rows, |rows|) == [] <==>
              forall i, j :: 0 <= j < i < |rows| ==> !SameAssignment(rows[j], rows[i]) && !SamePost(rows[j], rows[i])
  {
    hide Reported, OnlyIn, SameAssignment, SamePost, Repeats, RepeatsTeacher;
    SilentBelow(rows, |rows|);
    forall i | 0 <= i < |rows|
      ensures (!RepeatsTeacher(rows, i) && !Repeats(rows, i)) <==>
                forall j | 0 <= j < i :: !SameAssignment(rows[j], rows[i]) && !SamePost(rows[j], rows[i])
    {
      RowSilent(rows, i);
    }
  }

  lemma RowSilent(rows: seq<TeacherAssignment>, i: nat)
    requires i < |rows| && forall t | t in rows :: OnlyIn(t, LAST)
    ensures (!RepeatsTeacher(rows, i) && !Repeats(rows, i)) <==>
              forall j | 0 <= j < i :: !SameAssignment(rows[j], rows[i]) && !SamePost(rows[j], rows[i])
  {
    hide OnlyIn, ClassTeacherKey, AssignmentKey, SameAssignment, SamePost;
    forall j | 0 <= j < i
      ensures AssignmentKey(rows[j]) == AssignmentKey(rows[i]) <==> SameAssignment(rows[j], rows[i])
      ensures (rows[j].isClassTeacher && rows[i].isClassTeacher && ClassTeacherKey(rows[j]) == ClassTeacherKey(rows[i]))
          <==> SamePost(rows[j], rows[i])
    {
      SameRow(rows[j], rows[i]);
    }
  }

  lemma SameRow(a: TeacherAssignment, b: TeacherAssignment)
    requires OnlyIn(a, LAST) && OnlyIn(b, LAST)
    ensures AssignmentKey(a) == AssignmentKey(b) <==> SameAssignment(a, b)
    ensures (a.isClassTeacher && b.isClassTeacher && ClassTeacherKey(a) == ClassTeacherKey(b)) <==> SamePost(a, b)
  {
    SameKeyIffSameAssignment(a, b);
    SameClassTeacherKeyIff(a, b);
    hide OnlyIn, ClassTeacherKey, AssignmentKey, TargetOf;
  }

  predicate SamePost(a: TeacherAssignment, b: TeacherAssignment) {
    a.isClassTeacher && b.isClassTeacher && a.year == b.year && a.section == b.section
  }

  lemma {:induction false} SilentBelow(rows: seq<TeacherAssignment>, n: nat)
    requires n <= |rows|
    ensures Reported(rows, n) == [] <==> forall i | 0 <= i < n :: !RepeatsTeacher(rows, i) && !Repeats(rows, i)
  {
    hide RepeatsTeacher, Repeats;
    if n > 0 { SilentBelow(rows, n - 1); }
  }

  ghost function Given(id: Option<Id>): Option<Id> {
    if id == Some("") then None else id
  }

  /** The same thing is taught exactly if the offerings agree and, when neither row has one, the subjects do. */
  lemma SameTargetIff(a: TeacherAssignment, b: TeacherAssignment)
    ensures TargetOf(a) == TargetOf(b) <==>
              && Given(a.offering) == Given(b.offering)
              && (Given(a.offering).None? ==> Given(a.subject) == Given(b.subject))
  {
  }

  /** An earlier row gives the row at `i` this issue. */
  ghost predicate Duplicates(rows: seq<TeacherAssignment>, i: nat, issue: Issue)
    requires i < |rows|
  {
    match issue
    case DuplicateClassTeacher => exists j :: 0 <= j < i && SamePost(rows[j], rows[i])
    case DuplicateAssignment => exists j :: 0 <= j < i && SameAssignment(rows[j], rows[i])
  }

  /** As far as ids tell, a row is reported exactly if an earlier one has its post, or assigns the same thing. */
  lemma ReportedIff(rows: seq<TeacherAssignment>, f: Finding)
    requires forall t | t in rows :: OnlyIn(t, LAST)
    ensures f in Reported(rows, |rows|) <==>
              exists i :: 0 <= i < |rows| && rows[i].id == f.id && Duplicates(rows, i, f.issue)
  {
    ReportedBelow(rows, |rows|, f);
    hide Reported, Duplicates, OnlyIn;
  }

  lemma {:induction false} ReportedBelow(rows: seq<TeacherAssignment>, n: nat, f: Finding)
    requires n <= |rows| && forall t | t in rows :: OnlyIn(t, LAST)
    ensures f in Reported(rows, n) <==> exists i :: 0 <= i < n && rows[i].id == f.id && Duplicates(rows, i, f.issue)
  {
    hide OnlyIn, RepeatsTeacher, Repeats, Duplicates;
    if n > 0 {
      ReportedBelow(rows, n - 1, f);
      DuplicatesAt(rows, n - 1);
      var last := rows[n - 1].id == f.id && Duplicates(rows, n - 1, f.issue);
      assert f.issue == DuplicateClassTeacher || f.issue == DuplicateAssignment;
      assert last <==> || (RepeatsTeacher(rows, n - 1) && f == Finding(rows[n - 1].id, DuplicateClassTeacher))
                       || (Repeats(rows, n - 1) && f == Finding(rows[n - 1].id, DuplicateAssignment));
      assert f in Reported(rows, n) <==> f in Reported(rows, n - 1) || last;
    }
  }

  lemma DuplicatesAt(rows: seq<TeacherAssignment>, i: nat)
    requires i < |rows| && forall t | t in rows :: OnlyIn(t, LAST)
    ensures RepeatsTeacher(rows, i) <==> Duplicates(rows, i, DuplicateClassTeacher)
    ensures Repeats(rows, i) <==> Duplicates(rows, i, DuplicateAssignment)
  {
    hide OnlyIn, ClassTeacherKey, AssignmentKey, SameAssignment, SamePost;
    forall j | 0 <= j < i
      ensures AssignmentKey(rows[j]) == AssignmentKey(rows[i]) <==> SameAssignment(rows[j], rows[i])
      ensures (rows[j].isClassTeacher && rows[i].isClassTeacher && ClassTeacherKey(rows[j]) == ClassTeacherKey(rows[i]))
          <==> SamePost(rows[j], rows[i])
    {
      SameRow(rows[j], rows[i]);
    }
  }
}
