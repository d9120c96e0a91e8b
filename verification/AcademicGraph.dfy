/** The rows an assignment refers to, and the integrity audit of assignments against them. */
module AcademicGraph {
  import opened Wrappers
  import opened GradeResolver

  type Id = string

  datatype Year = Year(school: Id, isActive: bool, isLocked: bool)
  datatype Class = Class(school: Id, year: Id, numericLevel: int, name: string)
  datatype Section = Section(classId: Id)
  datatype Subject = Subject(school: Id)
  datatype Staff = Staff(school: Id, userId: Option<Id>, isActive: bool)
  datatype Offering = Offering(school: Id, year: Id, isOffered: bool, gradeFrom: int, gradeTo: int,
                               legacySubject: Option<Id>)

  /** The reference tables. `activeYear` and `staffOf` are the rows the database picks when a query
      without an id matches several. */
  datatype References = References(
    years: map<Id, Year>,
    classes: map<Id, Class>,
    sections: map<Id, Section>,
    subjects: map<Id, Subject>,
    staff: map<Id, Staff>,
    offerings: map<Id, Offering>,
    activeYear: map<Id, Id>,
    staffOf: map<(Id, Id), Id>
  )

  ghost predicate ActiveYearOf(refs: References, school: Id, y: Id) {
    y in refs.years && refs.years[y].school == school && refs.years[y].isActive
  }

  ghost predicate StaffFor(refs: References, school: Id, user: Id, s: Id) {
    && s in refs.staff && refs.staff[s].school == school && refs.staff[s].isActive
    && (s == user || refs.staff[s].userId == Some(user))
  }

  /** The picked rows match their query, and there is one exactly if some row matches. */
  ghost predicate PicksMatch(refs: References) {
    && (forall school | school in refs.activeYear :: ActiveYearOf(refs, school, refs.activeYear[school]))
    && (forall school, y | ActiveYearOf(refs, school, y) :: school in refs.activeYear)
    && (forall q | q in refs.staffOf :: StaffFor(refs, q.0, q.1, refs.staffOf[q]))
    && (forall school, user, s | StaffFor(refs, school, user, s) :: (school, user) in refs.staffOf)
  }

  datatype Assignment = Assignment(
    school: Id,
    year: Id,
    classId: Id,
    section: Option<Id>,
    offering: Option<Id>,
    subject: Option<Id>,
    staffId: Id,
    title: string
  )

  // ----- The audit -----

  datatype Severity = P0 | P1

  datatype Issue =
    | CrossSchoolYear
    | CrossSchoolClass | CrossYearClass
    | SectionOfOtherClass | CrossSchoolSection | CrossYearSection
    | CrossSchoolStaff | InactiveStaff
    | CrossSchoolOffering | CrossYearOffering | GradeOutOfBand | Contradiction
    | CrossSchoolSubject

  datatype Finding = Finding(severity: Severity, id: Id, issue: Issue)

  function SeverityOf(issue: Issue): Severity {
    match issue
    case InactiveStaff => P1
    case GradeOutOfBand => P1
    case Contradiction => P1
    case _ => P0
  }

  function When(broken: bool, issue: Issue): seq<Issue> {
    if broken then [issue] else []
  }

  function YearIssues(refs: References, a: Assignment): seq<Issue> {
    if a.year !in refs.years then []
    else When(refs.years[a.year].school != a.school, CrossSchoolYear)
  }

  function ClassIssues(refs: References, a: Assignment): seq<Issue> {
    if a.classId !in refs.classes then []
    else
      var c := refs.classes[a.classId];
      When(c.school != a.school, CrossSchoolClass) + When(c.year != a.year, CrossYearClass)
  }

  function SectionIssues(refs: References, a: Assignment): seq<Issue> {
    if a.section.None? || a.section.value !in refs.sections then []
    else
      var owner := refs.sections[a.section.value].classId;
      When(owner != a.classId, SectionOfOtherClass)
      + (if owner !in refs.classes then []
         else When(refs.classes[owner].school != a.school, CrossSchoolSection)
              + When(refs.classes[owner].year != a.year, CrossYearSection))
  }

  function StaffIssues(refs: References, a: Assignment): seq<Issue> {
    if a.staffId !in refs.staff then []
    else
      var s := refs.staff[a.staffId];
      When(s.school != a.school, CrossSchoolStaff) + When(!s.isActive, InactiveStaff)
  }

  function OfferingIssues(refs: References, a: Assignment): seq<Issue> {
    if a.offering.None? || a.offering.value !in refs.offerings then []
    else
      var o := refs.offerings[a.offering.value];
      When(o.school != a.school, CrossSchoolOffering)
      + When(o.year != a.year, CrossYearOffering)
      + When(a.classId in refs.classes && !InBand(o, AuditGradeOf(refs.classes[a.classId])), GradeOutOfBand)
      + When(a.subject.Some? && o.legacySubject.Some? && a.subject != o.legacySubject, Contradiction)
  }

  function SubjectIssues(refs: References, a: Assignment): seq<Issue> {
    if a.subject.None? || a.subject.value !in refs.subjects then []
    else When(refs.subjects[a.subject.value].school != a.school, CrossSchoolSubject)
  }

  predicate InBand(o: Offering, grade: int) {
    o.gradeFrom <= grade <= o.gradeTo
  }

  function AuditGradeOf(c: Class): int {
    AuditGrade(c.numericLevel, c.name)
  }

  function ServiceGradeOf(c: Class): int {
    ResolveGradeLevel(c.numericLevel, c.name)
  }

  function Issues(refs: References, a: Assignment): seq<Issue> {
    YearIssues(refs, a) + ClassIssues(refs, a) + SectionIssues(refs, a) + StaffIssues(refs, a)
    + OfferingIssues(refs, a) + SubjectIssues(refs, a)
  }

  function Findings(id: Id, issues: seq<Issue>): seq<Finding> {
    seq(|issues|, i requires 0 <= i < |issues| => Finding(SeverityOf(issues[i]), id, issues[i]))
  }

  function AllFindings(refs: References, rows: seq<(Id, Assignment)>): seq<Finding> {
    if rows == [] then []
    else
      var last := rows[|rows| - 1];
      AllFindings(refs, rows[..|rows| - 1]) + Findings(last.0, Issues(refs, last.1))
  }

  method Report(before: seq<Finding>, id: Id, issues: seq<Issue>) returns (findings: seq<Finding>)
    ensures findings == before + Findings(id, issues)
  {
    findings := before;
    var k := 0;
    while k < |issues|
      invariant k <= |issues|
      invariant findings == before + Findings(id, issues[..k])
    {
      findings := findings + [Finding(SeverityOf(issues[k]), id, issues[k])];
      k := k + 1;
      assert Findings(id, issues[..k])
          == Findings(id, issues[..k - 1]) + [Finding(SeverityOf(issues[k - 1]), id, issues[k - 1])];
    }
    assert issues[..k] == issues;
  }

  /** The audit's pass over the assignments: it reports exactly the issues of every row, in order. */
  method AuditAssignments(refs: References, rows: seq<(Id, Assignment)>)
    returns (findings: seq<Finding>, totalChecked: nat)
    ensures findings == AllFindings(refs, rows) && totalChecked == |rows|
    ensures findings == [] <==> forall i | 0 <= i < |rows| :: Issues(refs, rows[i].1) == []
  {
    hide Issues, Findings;
    findings, totalChecked := [], |rows|;
    var i := 0;
    while i < |rows|
      invariant i <= |rows|
      invariant findings == AllFindings(refs, rows[..i])
    {
      findings := Report(findings, rows[i].0, Issues(refs, rows[i].1));
      assert rows[..i + 1][..i] == rows[..i];
      i := i + 1;
    }
    assert rows[..i] == rows;
    NothingFoundIff(refs, rows);
  }

  lemma {:induction false} NothingFoundIff(refs: References, rows: seq<(Id, Assignment)>)
    ensures AllFindings(refs, rows) == [] <==> forall i | 0 <= i < |rows| :: Issues(refs, rows[i].1) == []
  {
    hide Issues;
    if rows != [] {
      var last := |rows| - 1;
      NothingFoundIff(refs, rows[..last]);
      assert |Findings(rows[last].0, Issues(refs, rows[last].1))| == |Issues(refs, rows[last].1)|;
      assert forall i | 0 <= i < last :: rows[..last][i] == rows[i];
    }
  }

  // ----- What a clean row means -----

  ghost predicate YearFits(refs: References, a: Assignment) {
    a.year in refs.years ==> refs.years[a.year].school == a.school
  }

  ghost predicate ClassFits(refs: References, a: Assignment) {
    a.classId in refs.classes ==> refs.classes[a.classId].school == a.school && refs.classes[a.classId].year == a.year
  }

  ghost predicate SectionFits(refs: References, a: Assignment) {
    a.section.Some? && a.section.value in refs.sections ==>
      && refs.sections[a.section.value].classId == a.classId
      && ClassFits(refs, a)
  }

  ghost predicate StaffFits(refs: References, a: Assignment) {
    a.staffId in refs.staff ==> refs.staff[a.staffId].school == a.school && refs.staff[a.staffId].isActive
  }

  ghost predicate OfferingFits(refs: References, a: Assignment) {
    a.offering.Some? && a.offering.value in refs.offerings ==>
      var o := refs.offerings[a.offering.value];
      && o.school == a.school && o.year == a.year
      && (a.classId in refs.classes ==> InBand(o, AuditGradeOf(refs.classes[a.classId])))
      && (a.subject.Some? && o.legacySubject.Some? ==> a.subject == o.legacySubject)
  }

  ghost predicate SubjectFits(refs: References, a: Assignment) {
    a.subject.Some? && a.subject.value in refs.subjects ==> refs.subjects[a.subject.value].school == a.school
  }

  ghost predicate Fits(refs: References, a: Assignment) {
    && YearFits(refs, a) && ClassFits(refs, a) && SectionFits(refs, a) && StaffFits(refs, a)
    && OfferingFits(refs, a) && SubjectFits(refs, a)
  }

  /** The audit reports nothing about a row exactly if school, year, class, section, staff, offering and
      subject all fit together. */
  lemma CleanIffFits(refs: References, a: Assignment)
    ensures Issues(refs, a) == [] <==> Fits(refs, a)
  {
    hide AuditGrade;
    assert YearIssues(refs, a) == [] <==> YearFits(refs, a);
    assert ClassIssues(refs, a) == [] <==> ClassFits(refs, a);
    assert ClassFits(refs, a) ==> (SectionIssues(refs, a) == [] <==> SectionFits(refs, a));
    assert SectionFits(refs, a) && !ClassFits(refs, a) ==> ClassIssues(refs, a) != [];
    assert StaffIssues(refs, a) == [] <==> StaffFits(refs, a);
    assert OfferingIssues(refs, a) == [] <==> OfferingFits(refs, a);
    assert SubjectIssues(refs, a) == [] <==> SubjectFits(refs, a);
    hide YearIssues, ClassIssues, SectionIssues, StaffIssues, OfferingIssues, SubjectIssues;
    hide YearFits, ClassFits, SectionFits, StaffFits, OfferingFits, SubjectFits;
  }

  // ----- What each issue says -----

  /** What is wrong with a row, issue by issue; a reference to a missing row is never an issue. */
  ghost predicate Breaks(refs: References, a: Assignment, issue: Issue) {
    match issue
    case CrossSchoolYear => a.year in refs.years && refs.years[a.year].school != a.school
    case CrossSchoolClass => a.classId in refs.classes && refs.classes[a.classId].school != a.school
    case CrossYearClass => a.classId in refs.classes && refs.classes[a.classId].year != a.year
    case SectionOfOtherClass =>
      exists s | a.section == Some(s) :: s in refs.sections && refs.sections[s].classId != a.classId
    case CrossSchoolSection => exists c | SectionsClass(refs, a, c) :: refs.classes[c].school != a.school
    case CrossYearSection => exists c | SectionsClass(refs, a, c) :: refs.classes[c].year != a.year
    case CrossSchoolStaff => a.staffId in refs.staff && refs.staff[a.staffId].school != a.school
    case InactiveStaff => a.staffId in refs.staff && !refs.staff[a.staffId].isActive
    case CrossSchoolOffering => exists o | OfferingOf(refs, a, o) :: o.school != a.school
    case CrossYearOffering => exists o | OfferingOf(refs, a, o) :: o.year != a.year
    case GradeOutOfBand =>
      exists o, c | OfferingOf(refs, a, o) && ClassOf(refs, a, c) ::
        !(o.gradeFrom <= AuditGrade(c.numericLevel, c.name) <= o.gradeTo)
    case Contradiction =>
      exists o | OfferingOf(refs, a, o) :: a.subject.Some? && o.legacySubject.Some? && a.subject != o.legacySubject
    case CrossSchoolSubject =>
      exists s | a.subject == Some(s) :: s in refs.subjects && refs.subjects[s].school != a.school
  }

  ghost predicate SectionsClass(refs: References, a: Assignment, c: Id) {
    && c in refs.classes && a.section.Some? && a.section.value in refs.sections
    && refs.sections[a.section.value].classId == c
  }

  ghost predicate OfferingOf(refs: References, a: Assignment, o: Offering) {
    a.offering.Some? && a.offering.value in refs.offerings && refs.offerings[a.offering.value] == o
  }

  ghost predicate ClassOf(refs: References, a: Assignment, c: Class) {
    a.classId in refs.classes && refs.classes[a.classId] == c
  }

  ghost function Times(broken: bool): nat {
    if broken then 1 else 0
  }

  lemma WhenCount(broken: bool, issue: Issue, i: Issue)
    ensures multiset(When(broken, issue))[i] == Times(broken && i == issue)
  {
  }

  lemma PlaceIssues(refs: References, a: Assignment, issue: Issue)
    ensures multiset(YearIssues(refs, a))[issue] == Times(issue == CrossSchoolYear && Breaks(refs, a, issue))
    ensures multiset(ClassIssues(refs, a))[issue]
         == Times(issue in {CrossSchoolClass, CrossYearClass} && Breaks(refs, a, issue))
  {
  }

  lemma SectionBreaks(refs: References, a: Assignment, owner: Id)
    requires a.section.Some? && a.section.value in refs.sections && refs.sections[a.section.value].classId == owner
    ensures Breaks(refs, a, SectionOfOtherClass) <==> owner != a.classId
    ensures Breaks(refs, a, CrossSchoolSection) <==> owner in refs.classes && refs.classes[owner].school != a.school
    ensures Breaks(refs, a, CrossYearSection) <==> owner in refs.classes && refs.classes[owner].year != a.year
  {
    if owner in refs.classes { assert SectionsClass(refs, a, owner); }
  }

  lemma NoSectionBreaks(refs: References, a: Assignment, issue: Issue)
    requires a.section.None? || a.section.value !in refs.sections
    requires OfSection(issue)
    ensures !Breaks(refs, a, issue)
  {
  }

  predicate OfSection(issue: Issue) {
    issue == SectionOfOtherClass || issue == CrossSchoolSection || issue == CrossYearSection
  }

  lemma SectionCounts(refs: References, a: Assignment, issue: Issue)
    ensures multiset(SectionIssues(refs, a))[issue] == Times(OfSection(issue) && Breaks(refs, a, issue))
  {
    hide Breaks, When;
    if a.section.None? || a.section.value !in refs.sections {
      if OfSection(issue) { NoSectionBreaks(refs, a, issue); }
    } else {
      var owner := refs.sections[a.section.value].classId;
      SectionBreaks(refs, a, owner);
      WhenCount(owner != a.classId, SectionOfOtherClass, issue);
      if owner in refs.classes {
        WhenCount(refs.classes[owner].school != a.school, CrossSchoolSection, issue);
        WhenCount(refs.classes[owner].year != a.year, CrossYearSection, issue);
      }
    }
  }

  lemma StaffCounts(refs: References, a: Assignment, issue: Issue)
    ensures multiset(StaffIssues(refs, a))[issue]
         == Times(issue in {CrossSchoolStaff, InactiveStaff} && Breaks(refs, a, issue))
  {
  }

  lemma SubjectCounts(refs: References, a: Assignment, issue: Issue)
    ensures multiset(SubjectIssues(refs, a))[issue] == Times(issue == CrossSchoolSubject && Breaks(refs, a, issue))
  {
  }

  predicate OfOffering(issue: Issue) {
    issue == CrossSchoolOffering || issue == CrossYearOffering || issue == GradeOutOfBand || issue == Contradiction
  }

  lemma OfferingBreaks(refs: References, a: Assignment, o: Offering)
    requires OfferingOf(refs, a, o)
    ensures Breaks(refs, a, CrossSchoolOffering) <==> o.school != a.school
    ensures Breaks(refs, a, CrossYearOffering) <==> o.year != a.year
    ensures Breaks(refs, a, Contradiction) <==>
              a.subject.Some? && o.legacySubject.Some? && a.subject != o.legacySubject
    ensures Breaks(refs, a, GradeOutOfBand) <==>
              a.classId in refs.classes && !InBand(o, AuditGradeOf(refs.classes[a.classId]))
  {
    hide AuditGrade;
    if a.classId in refs.classes { assert ClassOf(refs, a, refs.classes[a.classId]); }
  }

  lemma NoOfferingBreaks(refs: References, a: Assignment, issue: Issue)
    requires (a.offering.None? || a.offering.value !in refs.offerings) && OfOffering(issue)
    ensures !Breaks(refs, a, issue)
  {
    hide AuditGrade;
  }

  lemma OfferingCounts(refs: References, a: Assignment, issue: Issue)
    ensures multiset(OfferingIssues(refs, a))[issue] == Times(OfOffering(issue) && Breaks(refs, a, issue))
  {
    if a.offering.None? || a.offering.value !in refs.offerings {
      assert OfferingIssues(refs, a) == [];
      hide Breaks, OfferingIssues;
      if OfOffering(issue) { NoOfferingBreaks(refs, a, issue); }
    } else {
      OfferedCounts(refs, a, refs.offerings[a.offering.value], issue);
    }
  }

  lemma OfferedCounts(refs: References, a: Assignment, o: Offering, issue: Issue)
    requires OfferingOf(refs, a, o)
    ensures multiset(OfferingIssues(refs, a))[issue] == Times(OfOffering(issue) && Breaks(refs, a, issue))
  {
    hide *;
    var outOfBand := a.classId in refs.classes && !InBand(o, AuditGradeOf(refs.classes[a.classId]));
    var contradicts := a.subject.Some? && o.legacySubject.Some? && a.subject != o.legacySubject;
    OfferingIssuesAre(refs, a, o, outOfBand, contradicts);
    FourCounts(o.school != a.school, o.year != a.year, outOfBand, contradicts, issue);
    OfferingBreaks(refs, a, o);
    BreaksOf(refs, a, issue, o.school != a.school, o.year != a.year, outOfBand, contradicts);
  }

  lemma BreaksOf(refs: References, a: Assignment, i: Issue, school: bool, year: bool, outOfBand: bool,
                 contradicts: bool)
    requires Breaks(refs, a, CrossSchoolOffering) <==> school
    requires Breaks(refs, a, CrossYearOffering) <==> year
    requires Breaks(refs, a, GradeOutOfBand) <==> outOfBand
    requires Breaks(refs, a, Contradiction) <==> contradicts
    ensures OfOffering(i) && Breaks(refs, a, i) <==>
              || (i == CrossSchoolOffering && school) || (i == CrossYearOffering && year)
              || (i == GradeOutOfBand && outOfBand) || (i == Contradiction && contradicts)
  {
    hide Breaks;
  }

  function FourIssues(school: bool, year: bool, outOfBand: bool, contradicts: bool): seq<Issue> {
    When(school, CrossSchoolOffering) + When(year, CrossYearOffering)
    + When(outOfBand, GradeOutOfBand) + When(contradicts, Contradiction)
  }

  lemma OfferingIssuesAre(refs: References, a: Assignment, o: Offering, outOfBand: bool, contradicts: bool)
    requires OfferingOf(refs, a, o)
    requires outOfBand <==> a.classId in refs.classes && !InBand(o, AuditGradeOf(refs.classes[a.classId]))
    requires contradicts <==> a.subject.Some? && o.legacySubject.Some? && a.subject != o.legacySubject
    ensures OfferingIssues(refs, a) == FourIssues(o.school != a.school, o.year != a.year, outOfBand, contradicts)
  {
    hide AuditGradeOf, InBand, When;
  }

  lemma FourCounts(school: bool, year: bool, outOfBand: bool, contradicts: bool, i: Issue)
    ensures multiset(FourIssues(school, year, outOfBand, contradicts))[i]
         == Times((i == CrossSchoolOffering && school) || (i == CrossYearOffering && year)
                  || (i == GradeOutOfBand && outOfBand) || (i == Contradiction && contradicts))
  {
    hide When;
    WhenCount(school, CrossSchoolOffering, i);
    WhenCount(year, CrossYearOffering, i);
    WhenCount(outOfBand, GradeOutOfBand, i);
    WhenCount(contradicts, Contradiction, i);
  }

  /** An issue is reported once if the row has it and not at all otherwise. */
  lemma IssueIff(refs: References, a: Assignment, issue: Issue)
    ensures multiset(Issues(refs, a))[issue] == if Breaks(refs, a, issue) then 1 else 0
  {
    PlaceIssues(refs, a, issue);
    SectionCounts(refs, a, issue);
    StaffCounts(refs, a, issue);
    SubjectCounts(refs, a, issue);
    OfferingCounts(refs, a, issue);
    hide YearIssues, ClassIssues, SectionIssues, StaffIssues, OfferingIssues, SubjectIssues, Breaks;
  }

  /** Wrong grades, contradicting subjects and inactive staff are the lesser findings. */
  lemma Severities(issue: Issue)
    ensures SeverityOf(issue) == P1 <==> issue in {InactiveStaff, GradeOutOfBand, Contradiction}
  {
  }

  /** The report goes through the rows in order. */
  lemma {:induction false} FindingsAppend(refs: References, a: seq<(Id, Assignment)>, b: seq<(Id, Assignment)>)
    ensures AllFindings(refs, a + b) == AllFindings(refs, a) + AllFindings(refs, b)
    decreases |b|
  {
    hide Issues, Findings;
    if b == [] {
      assert a + b == a;
    } else {
      var k := |b| - 1;
      assert (a + b)[..|a + b| - 1] == a + b[..k];
      FindingsAppend(refs, a, b[..k]);
    }
  }

  /** A finding is reported exactly if some row with its id has its issue. */
  lemma {:induction false} FindingIff(refs: References, rows: seq<(Id, Assignment)>, f: Finding)
    ensures f in AllFindings(refs, rows) <==>
              f.severity == SeverityOf(f.issue)
              && exists i | 0 <= i < |rows| :: rows[i].0 == f.id && Breaks(refs, rows[i].1, f.issue)
  {
    hide Issues, Findings, Breaks, SeverityOf;
    if rows != [] {
      var k := |rows| - 1;
      FindingIff(refs, rows[..k], f);
      RowFinding(refs, rows[k].0, rows[k].1, f);
      assert forall i | 0 <= i < k :: rows[..k][i] == rows[i];
    }
  }

  lemma RowFinding(refs: References, id: Id, a: Assignment, f: Finding)
    ensures f in Findings(id, Issues(refs, a)) <==>
              f.severity == SeverityOf(f.issue) && f.id == id && Breaks(refs, a, f.issue)
  {
    hide Issues, Breaks, SeverityOf;
    IssueIff(refs, a, f.issue);
    var issues := Issues(refs, a);
    assert f.issue in issues <==> f.issue in multiset(issues);
    if f.issue in issues {
      var i :| 0 <= i < |issues| && issues[i] == f.issue;
      assert Findings(id, issues)[i] == Finding(SeverityOf(f.issue), id, f.issue);
    }
  }
}
