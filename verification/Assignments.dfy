/** The assignment service: how it resolves the session, the staff member and the academic context of
    an assignment, and what its writes keep of the audit's view of the data. */
module Assignments {
  import opened Wrappers
  import opened GradeResolver
  import opened AcademicGraph

  type Error = string

  /** An absent field and an empty string count alike. */
  function Given(id: Option<Id>): Option<Id> {
    if id == Some("") then None else id
  }

  // ----- Resolving -----

  function ResolveAcademicYear(refs: References, school: Id, provided: Option<Id>): Result<Id, Error> {
    var found: Option<Id> :=
      match Given(provided)
      case Some(y) => if y in refs.years && refs.years[y].school == school then Some(y) else None
      case None =>
        if school in refs.activeYear && refs.activeYear[school] in refs.years then Some(refs.activeYear[school])
        else None;
    match found
    case None =>
      Failure(if Given(provided).Some? then "Academic year not found for this school"
              else "No active Academic Year found for this school")
    case Some(y) => if refs.years[y].isLocked then Failure("Academic session is locked") else Success(y)
  }

  /** The resolved session is an unlocked one of the school: the one asked for, or else an active one and
      never any other. It fails exactly if that session does not exist or is locked. */
  lemma ResolvedYearFits(refs: References, school: Id, provided: Option<Id>)
    requires PicksMatch(refs)
    ensures var r := ResolveAcademicYear(refs, school, provided);
            && (r.Success? ==> r.value in refs.years && refs.years[r.value].school == school
                               && !refs.years[r.value].isLocked
                               && (Given(provided).None? ==> refs.years[r.value].isActive)
                               && (Given(provided).Some? ==> Given(provided) == Some(r.value)))
            && (r.Failure? && Given(provided).None? ==>
                  (forall y :: !ActiveYearOf(refs, school, y))
                  || (exists y :: ActiveYearOf(refs, school, y) && refs.years[y].isLocked))
  {
    var r := ResolveAcademicYear(refs, school, provided);
    if Given(provided).None? && school in refs.activeYear {
      assert ActiveYearOf(refs, school, refs.activeYear[school]);
    }
  }

  function ResolveStaff(refs: References, school: Id, explicit: Option<Id>, user: Option<Id>): Result<Id, Error> {
    match Given(explicit)
    case Some(s) =>
      if s in refs.staff && refs.staff[s].school == school && refs.staff[s].isActive then Success(s)
      else Failure("Active staff record not found for this school")
    case None =>
      if Given(user).None? then Failure("Unable to resolve active staff profile")
      else if (school, Given(user).value) in refs.staffOf then Success(refs.staffOf[(school, Given(user).value)])
      else Failure("Authenticated user has no active staff profile in this school")
  }

  /** The resolved staff member is active in the school: the one named, or else the user's own record and
      never any other. Without an explicit name it fails exactly if the user has no such record. */
  lemma ResolvedStaffFits(refs: References, school: Id, explicit: Option<Id>, user: Option<Id>)
    requires PicksMatch(refs)
    ensures var r := ResolveStaff(refs, school, explicit, user);
            && (r.Success? ==> r.value in refs.staff && refs.staff[r.value].school == school
                               && refs.staff[r.value].isActive)
            && (r.Success? && Given(explicit).Some? ==> Given(explicit) == Some(r.value))
            && (Given(explicit).None? ==>
                  (r.Success? <==> Given(user).Some? && exists s :: StaffFor(refs, school, Given(user).value, s)))
            && (r.Success? && Given(explicit).None? ==> StaffFor(refs, school, Given(user).value, r.value))
  {
    if Given(explicit).None? && Given(user).Some? && (school, Given(user).value) in refs.staffOf {
      assert StaffFor(refs, school, Given(user).value, refs.staffOf[(school, Given(user).value)]);
    }
  }

  datatype Resolved = Resolved(offering: Option<Id>, subject: Option<Id>)

  function CheckClass(refs: References, school: Id, year: Id, classId: Id): Result<Class, Error> {
    if classId !in refs.classes || refs.classes[classId].school != school then
      Failure("Class not found in this school")
    else if refs.classes[classId].year != year then Failure("Class belongs to another academic session")
    else Success(refs.classes[classId])
  }

  function CheckSection(refs: References, school: Id, year: Id, classId: Id, section: Option<Id>): Result<(), Error> {
    match Given(section)
    case None => Success(())
    case Some(s) =>
      if s !in refs.sections then Failure("Section not found")
      else if refs.sections[s].classId != classId then Failure("Section does not belong to specified Class")
      else if classId in refs.classes && refs.classes[classId].school != school then
        Failure("Section does not belong to this school")
      else if classId in refs.classes && refs.classes[classId].year != year then
        Failure("Section belongs to a different academic session than assignment")
      else Success(())
  }

  /** The offered offerings of a subject in a session that cover a grade. */
  function Matching(refs: References, school: Id, year: Id, grade: int, subject: Id): set<Id> {
    set o | o in refs.offerings && refs.offerings[o].school == school && refs.offerings[o].year == year
            && refs.offerings[o].legacySubject == Some(subject) && InBand(refs.offerings[o], grade)
            && refs.offerings[o].isOffered
  }

  function OnlyMember(s: set<Id>): (o: Option<Id>)
    ensures o.Some? <==> |s| == 1
    ensures o.Some? ==> s == {o.value}
  {
    if |s| != 1 then None
    else
      AtMostOne(s);
      var x :| x in s;
      Some(x)
  }

  lemma AtMostOne(s: set<Id>)
    requires |s| == 1
    ensures exists x :: x in s
    ensures forall x, y | x in s && y in s :: x == y
    ensures forall x | x in s :: s == {x}
  {
    assert s != {};
    forall x, y | x in s && y in s ensures x == y && s == {x} {
      assert |s - {x}| == 0;
    }
  }

  function CheckOffering(refs: References, school: Id, year: Id, grade: int, offering: Id, subject: Option<Id>,
                         requireActive: bool): Result<Resolved, Error> {
    if offering !in refs.offerings || refs.offerings[offering].school != school then
      Failure("School subject offering not found in this school")
    else
      var o := refs.offerings[offering];
      if o.year != year then Failure("School subject offering belongs to a different academic session")
      else if requireActive && !o.isOffered then Failure("School subject offering is inactive")
      else if !InBand(o, grade) then Failure("Offering is not compatible with class grade")
      else if subject.Some? && Given(o.legacySubject).Some? && subject != o.legacySubject then
        Failure("Subject contradicts canonical offering legacySubjectId")
      else Success(Resolved(Some(offering), if subject.Some? then subject else Given(o.legacySubject)))
  }

  function CheckSubject(refs: References, school: Id, year: Id, grade: int, subject: Id): Result<Resolved, Error> {
    if subject !in refs.subjects || refs.subjects[subject].school != school then
      Failure("Subject not found in this school")
    else Success(Resolved(OnlyMember(Matching(refs, school, year, grade, subject)), Some(subject)))
  }

  function ValidateAcademicContext(refs: References, school: Id, year: Id, classId: Id, section: Option<Id>,
                                   offering: Option<Id>, subject: Option<Id>, requireActive: bool)
    : Result<Resolved, Error>
  {
    var c :- CheckClass(refs, school, year, classId);
    var _ :- CheckSection(refs, school, year, classId, section);
    if Given(offering).Some? then
      CheckOffering(refs, school, year, ServiceGradeOf(c), Given(offering).value, Given(subject), requireActive)
    else if Given(subject).Some? then CheckSubject(refs, school, year, ServiceGradeOf(c), Given(subject).value)
    else Failure("Either schoolSubjectOfferingId or subjectId must be provided")
  }

  // ----- The writes -----

  datatype CreateData = CreateData(year: Option<Id>, classId: Id, section: Option<Id>, offering: Option<Id>,
                                   subject: Option<Id>, staffId: Option<Id>, title: string)

  /** An update leaves a field alone or puts a value, which may be null. */
  datatype Patch = Keep | Put(value: Option<Id>)

  datatype UpdateData = UpdateData(year: Option<Id>, classId: Option<Id>, section: Patch, offering: Patch,
                                   subject: Patch, staffId: Option<Id>, title: Option<string>)

  function Patched(p: Patch, previous: Option<Id>): Option<Id> {
    if p.Put? then p.value else previous
  }

  function OrElse(id: Option<Id>, previous: Id): Id {
    if Given(id).Some? then Given(id).value else previous
  }

  // ----- What the database refuses -----

  function RefuseIf(broken: bool, error: Error): Result<(), Error> {
    if broken then Failure(error) else Success(())
  }

  function TriggerYear(refs: References, a: Assignment): Result<(), Error> {
    if a.year !in refs.years then Failure("Assignment references invalid or non-existent academic year")
    else if refs.years[a.year].school != a.school then Failure("Cross-school assignment academic year")
    else RefuseIf(refs.years[a.year].isLocked, "Academic session is locked")
  }

  function TriggerClass(refs: References, a: Assignment): Result<(), Error> {
    if a.classId !in refs.classes then Failure("Assignment references invalid or non-existent class")
    else if refs.classes[a.classId].school != a.school then Failure("Cross-school assignment class")
    else RefuseIf(refs.classes[a.classId].year != a.year, "Cross-year assignment class")
  }

  /** The section is joined with its class, so a section without one counts as missing. */
  function TriggerSection(refs: References, a: Assignment): Result<(), Error> {
    match a.section
    case None => Success(())
    case Some(s) =>
      if s !in refs.sections || refs.sections[s].classId !in refs.classes then
        Failure("Assignment references invalid or non-existent section")
      else
        var owner := refs.sections[s].classId;
        if owner != a.classId then Failure("Section does not belong to assignment class")
        else if refs.classes[owner].school != a.school then Failure("Section belongs to different school")
        else RefuseIf(refs.classes[owner].year != a.year, "Section belongs to different academic year")
  }

  function TriggerStaff(refs: References, a: Assignment): Result<(), Error> {
    if a.staffId !in refs.staff then Failure("Assignment references invalid or non-existent staff")
    else RefuseIf(refs.staff[a.staffId].school != a.school, "Cross-school assignment staff")
  }

  /** The offering must be active when it is new to the row, belong to the row's school and session, cover
      the class's numeric level as stored and not contradict the subject. */
  function CheckRow(o: Offering, isNew: bool, level: Option<int>, a: Assignment): Result<(), Error> {
    if isNew && !o.isOffered then
      Failure("School subject offering is inactive and cannot be selected for assignments")
    else if o.school != a.school then Failure("Cross-school assignment offering")
    else if o.year != a.year then Failure("Cross-year assignment offering")
    else if level.Some? && !InBand(o, level.value) then
      Failure("Offering is not compatible with class numeric level")
    else
      RefuseIf(a.subject.Some? && o.legacySubject.Some? && a.subject != o.legacySubject,
               "Assignment subjectId contradicts canonical offering legacySubjectId")
  }

  function LevelOf(refs: References, classId: Id): Option<int> {
    if classId in refs.classes then Some(refs.classes[classId].numericLevel) else None
  }

  function TriggerOffering(refs: References, previous: Option<Assignment>, a: Assignment): Result<(), Error> {
    match a.offering
    case None => Success(())
    case Some(id) =>
      if id !in refs.offerings then Failure("Assignment references invalid or non-existent offering")
      else
        var isNew := previous.None? || previous.value.offering != a.offering;
        CheckRow(refs.offerings[id], isNew, LevelOf(refs, a.classId), a)
  }

  function TriggerSubject(refs: References, a: Assignment): Result<(), Error> {
    match a.subject
    case None => Success(())
    case Some(s) =>
      if s !in refs.subjects then Failure("Assignment references invalid or non-existent subject")
      else RefuseIf(refs.subjects[s].school != a.school, "Cross-school assignment subject")
  }

  /** The trigger that runs before every insert and update of an assignment, with its checks in order. */
  function Stored(refs: References, previous: Option<Assignment>, a: Assignment): Result<Assignment, Error> {
    var _ :- TriggerYear(refs, a);
    var _ :- TriggerClass(refs, a);
    var _ :- TriggerSection(refs, a);
    var _ :- TriggerStaff(refs, a);
    var _ :- TriggerOffering(refs, previous, a);
    var _ :- TriggerSubject(refs, a);
    Success(a)
  }

  // ----- Creating and updating -----

  /** The row the service asks the database to insert. */
  function CheckedCreate(refs: References, school: Id, data: CreateData, user: Option<Id>): Result<Assignment, Error> {
    var year :- ResolveAcademicYear(refs, school, data.year);
    var resolved :- ValidateAcademicContext(refs, school, year, data.classId, data.section, data.offering,
                                            data.subject, true);
    var staffId :- ResolveStaff(refs, school, data.staffId, user);
    Success(Assignment(school, year, data.classId, Given(data.section), resolved.offering, resolved.subject, staffId,
                       data.title))
  }

  function CreatedRow(refs: References, school: Id, data: CreateData, user: Option<Id>): Result<Assignment, Error> {
    var row :- CheckedCreate(refs, school, data, user);
    Stored(refs, None, row)
  }

  predicate Locked(refs: References, year: Id) {
    year in refs.years && refs.years[year].isLocked
  }

  /** The row the service asks the database to put in place of `a`. */
  function CheckedUpdate(refs: References, school: Id, a: Assignment, data: UpdateData, user: Option<Id>)
    : Result<Assignment, Error>
  {
    if Locked(refs, a.year) then Failure("Academic session is locked")
    else
      var year :- ResolveAcademicYear(refs, school, Some(OrElse(data.year, a.year)));
      var resolved :- ValidateAcademicContext(
                        refs, school, year, OrElse(data.classId, a.classId), Patched(data.section, a.section),
                        Patched(data.offering, a.offering), Patched(data.subject, a.subject), OfferingChanged(data, a));
      var staffId :- if Given(data.staffId).Some? then ResolveStaff(refs, school, data.staffId, user)
                     else Success(a.staffId);
      Success(Assignment(a.school, year, OrElse(data.classId, a.classId), Given(Patched(data.section, a.section)),
                         resolved.offering, resolved.subject, staffId,
                         if data.title.Some? then data.title.value else a.title))
  }

  predicate OfferingChanged(data: UpdateData, a: Assignment) {
    data.offering.Put? && data.offering.value != a.offering
  }

  function UpdatedRow(refs: References, school: Id, a: Assignment, data: UpdateData, user: Option<Id>)
    : Result<Assignment, Error>
  {
    var row :- CheckedUpdate(refs, school, a, data, user);
    Stored(refs, Some(a), row)
  }

  type Store = map<Id, Assignment>

  datatype Op =
    | Create(id: Id, school: Id, create: CreateData, user: Option<Id>)
    | Update(id: Id, school: Id, update: UpdateData, user: Option<Id>)
    | Delete(id: Id, school: Id)

  /** The row an operation writes, `None` for a deletion. A new row's id is unused. */
  function Written(refs: References, store: Store, op: Op): Result<Option<Assignment>, Error> {
    match op
    case Create(id, school, data, user) =>
      if id in store then Failure("Unique constraint failed")
      else
        var a :- CreatedRow(refs, school, data, user);
        Success(Some(a))
    case Update(id, school, data, user) =>
      if id !in store || store[id].school != school then Failure("Assignment not found")
      else
        var a :- UpdatedRow(refs, school, store[id], data, user);
        Success(Some(a))
    case Delete(id, school) =>
      if id !in store || store[id].school != school then Failure("Assignment not found")
      else if Locked(refs, store[id].year) then Failure("Academic session is locked")
      else Success(None)
  }

  function Apply(refs: References, store: Store, op: Op): Store {
    match Written(refs, store, op)
    case Failure(_) => store
    case Success(None) => store - {op.id}
    case Success(Some(a)) => store[op.id := a]
  }

  function End(refs: References, store: Store, ops: seq<Op>): Store
    decreases |ops|
  {
    if ops == [] then store else End(refs, Apply(refs, store, ops[0]), ops[1..])
  }

  /** The service with the assignments table. */
  class AssignmentsService {
    const refs: References
    var assignments: Store

    constructor (refs: References)
      ensures this.refs == refs && assignments == map[]
    {
      this.refs := refs;
      assignments := map[];
    }

    method CreateAssignment(id: Id, school: Id, data: CreateData, user: Option<Id>) returns (r: Result<(), Error>)
      requires id !in assignments
      modifies this
      ensures assignments == Apply(refs, old(assignments), Create(id, school, data, user))
      ensures r.Success? <==> CreatedRow(refs, school, data, user).Success?
    {
      hide ResolveAcademicYear, ValidateAcademicContext, ResolveStaff, Stored;
      var year :- ResolveAcademicYear(refs, school, data.year);
      var resolved :- ValidateAcademicContext(refs, school, year, data.classId, data.section, data.offering,
                                              data.subject, true);
      var staffId :- ResolveStaff(refs, school, data.staffId, user);
      var row :- Stored(refs, None, Assignment(school, year, data.classId, Given(data.section), resolved.offering,
                                               resolved.subject, staffId, data.title));
      assignments := assignments[id := row];
      return Success(());
    }

    method UpdateAssignment(id: Id, school: Id, data: UpdateData, user: Option<Id>) returns (r: Result<(), Error>)
      modifies this
      ensures assignments == Apply(refs, old(assignments), Update(id, school, data, user))
      ensures r.Success? <==> Written(refs, old(assignments), Update(id, school, data, user)).Success?
    {
      hide UpdatedRow;
      if id !in assignments || assignments[id].school != school {
        return Failure("Assignment not found");
      }
      var row :- UpdatedRow(refs, school, assignments[id], data, user);
      assignments := assignments[id := row];
      return Success(());
    }

    method DeleteAssignment(id: Id, school: Id) returns (r: Result<(), Error>)
      modifies this
      ensures assignments == Apply(refs, old(assignments), Delete(id, school))
      ensures r.Success? <==> Written(refs, old(assignments), Delete(id, school)).Success?
    {
      if id !in assignments || assignments[id].school != school {
        return Failure("Assignment not found");
      }
      if Locked(refs, assignments[id].year) {
        return Failure("Academic session is locked");
      }
      assignments := assignments - {id};
      return Success(());
    }
  }

  // ----- The service's checks against the trigger -----

  /** The subject the offering branch would store is one of the school. The service itself checks a
      subject only when no offering is given. */
  predicate SubjectTrusted(refs: References, school: Id, offering: Option<Id>, subject: Option<Id>) {
    Given(offering).Some? && Given(offering).value in refs.offerings ==>
      var legacy := Given(refs.offerings[Given(offering).value].legacySubject);
      var used := if Given(subject).Some? then Given(subject) else legacy;
      used.Some? ==> used.value in refs.subjects && refs.subjects[used.value].school == school
  }

  /** The offering covers the class's numeric level as stored. */
  predicate LevelCovered(refs: References, classId: Id, offering: Option<Id>) {
    offering.Some? && offering.value in refs.offerings && classId in refs.classes ==>
      InBand(refs.offerings[offering.value], refs.classes[classId].numericLevel)
  }

  /** The table's own constraint on classes. */
  predicate LevelsInRange(refs: References) {
    forall c | c in refs.classes :: DirectLevel(refs.classes[c].numericLevel)
  }

  /** No stored id is the empty string. */
  ghost predicate NoEmptyIds(refs: References) {
    forall o | o in refs.offerings :: refs.offerings[o].legacySubject != Some("")
  }

  /** What the context check has established and chosen. */
  lemma ContextParts(refs: References, school: Id, year: Id, classId: Id, section: Option<Id>, offering: Option<Id>,
                     subject: Option<Id>, requireActive: bool)
    requires ValidateAcademicContext(refs, school, year, classId, section, offering, subject, requireActive).Success?
    ensures CheckClass(refs, school, year, classId).Success?
    ensures CheckSection(refs, school, year, classId, section).Success?
    ensures classId in refs.classes && refs.classes[classId].school == school && refs.classes[classId].year == year
    ensures var grade := ServiceGradeOf(refs.classes[classId]);
            ValidateAcademicContext(refs, school, year, classId, section, offering, subject, requireActive) ==
            if Given(offering).Some? then
              CheckOffering(refs, school, year, grade, Given(offering).value, Given(subject), requireActive)
            else if Given(subject).Some? then CheckSubject(refs, school, year, grade, Given(subject).value)
            else Failure("Either schoolSubjectOfferingId or subjectId must be provided")
  {
    hide ServiceGradeOf, CheckSection, CheckOffering, CheckSubject;
  }

  lemma ClassAndSectionPass(refs: References, a: Assignment, section: Option<Id>)
    requires CheckClass(refs, a.school, a.year, a.classId).Success?
    requires CheckSection(refs, a.school, a.year, a.classId, section).Success? && a.section == Given(section)
    ensures TriggerClass(refs, a).Success? && TriggerSection(refs, a).Success?
  {
  }

  /** A row that has passed the context check also passes the trigger's class and section checks, and it
      passes the other two exactly if subject and level are fine. */
  lemma ContextAgainstTrigger(refs: References, previous: Option<Assignment>, a: Assignment, section: Option<Id>,
                              offering: Option<Id>, subject: Option<Id>, requireActive: bool)
    requires var context := ValidateAcademicContext(refs, a.school, a.year, a.classId, section, offering, subject,
                                                    requireActive);
             context == Success(Resolved(a.offering, a.subject)) && a.section == Given(section)
    requires NoEmptyIds(refs)
    requires !requireActive && Given(offering).Some? ==> previous.Some? && previous.value.offering == offering
    ensures TriggerClass(refs, a).Success? && TriggerSection(refs, a).Success?
    ensures TriggerOffering(refs, previous, a).Success? <==> LevelCovered(refs, a.classId, a.offering)
    ensures TriggerSubject(refs, a).Success? <==> SubjectTrusted(refs, a.school, offering, subject)
    ensures LevelsInRange(refs) ==> LevelCovered(refs, a.classId, a.offering)
  {
    hide *;
    ContextParts(refs, a.school, a.year, a.classId, section, offering, subject, requireActive);
    ClassAndSectionPass(refs, a, section);
    LevelIsServiceGrade(refs, a.classId);
    if Given(offering).None? {
      SubjectBranch(refs, previous, a, offering, subject);
    } else {
      OfferingBranch(refs, previous, a, offering, subject, requireActive);
    }
  }

  lemma SubjectBranch(refs: References, previous: Option<Assignment>, a: Assignment, offering: Option<Id>,
                      subject: Option<Id>)
    requires a.classId in refs.classes && Given(offering).None? && Given(subject).Some?
    requires var grade := ServiceGradeOf(refs.classes[a.classId]);
             CheckSubject(refs, a.school, a.year, grade, Given(subject).value)
             == Success(Resolved(a.offering, a.subject))
    ensures TriggerOffering(refs, previous, a).Success? <==> LevelCovered(refs, a.classId, a.offering)
    ensures TriggerSubject(refs, a).Success? && SubjectTrusted(refs, a.school, offering, subject)
    ensures ServiceGradeOf(refs.classes[a.classId]) == refs.classes[a.classId].numericLevel ==>
              LevelCovered(refs, a.classId, a.offering)
  {
    hide ServiceGradeOf, InBand, CheckSubject, CheckRow, TriggerOffering;
    SubjectFacts(refs, a.school, a.year, ServiceGradeOf(refs.classes[a.classId]), Given(subject).value);
    if a.offering.Some? {
      OfferingPasses(refs, previous, a, a.offering.value);
    } else {
      NoOffering(refs, previous, a);
    }
  }

  lemma NoOffering(refs: References, previous: Option<Assignment>, a: Assignment)
    requires a.offering.None?
    ensures TriggerOffering(refs, previous, a).Success? && LevelCovered(refs, a.classId, a.offering)
  {
  }

  lemma OfferingBranch(refs: References, previous: Option<Assignment>, a: Assignment, offering: Option<Id>,
                       subject: Option<Id>, requireActive: bool)
    requires a.classId in refs.classes && Given(offering).Some? && NoEmptyIds(refs)
    requires var grade := ServiceGradeOf(refs.classes[a.classId]);
             CheckOffering(refs, a.school, a.year, grade, Given(offering).value, Given(subject), requireActive)
             == Success(Resolved(a.offering, a.subject))
    requires !requireActive ==> previous.Some? && previous.value.offering == offering
    ensures TriggerOffering(refs, previous, a).Success? <==> LevelCovered(refs, a.classId, a.offering)
    ensures TriggerSubject(refs, a).Success? <==> SubjectTrusted(refs, a.school, offering, subject)
    ensures ServiceGradeOf(refs.classes[a.classId]) == refs.classes[a.classId].numericLevel ==>
              LevelCovered(refs, a.classId, a.offering)
  {
    hide *;
    var id, grade := Given(offering).value, ServiceGradeOf(refs.classes[a.classId]);
    OfferingFacts(refs, a.school, a.year, grade, id, Given(subject), requireActive);
    PlainIds(refs, offering);
    OfferingPasses(refs, previous, a, id);
    SubjectPasses(refs, a, offering, subject);
    LevelOfGrade(refs, a, id, grade);
  }

  lemma PlainIds(refs: References, offering: Option<Id>)
    requires NoEmptyIds(refs) && Given(offering).Some? && Given(offering).value in refs.offerings
    ensures Given(offering) == offering
    ensures Given(refs.offerings[offering.value].legacySubject) == refs.offerings[offering.value].legacySubject
  {
  }

  lemma OfferingPasses(refs: References, previous: Option<Assignment>, a: Assignment, offering: Id)
    requires offering in refs.offerings && a.offering == Some(offering) && a.classId in refs.classes
    requires var o := refs.offerings[offering];
             && o.school == a.school && o.year == a.year
             && (a.subject.Some? && o.legacySubject.Some? ==> a.subject == o.legacySubject)
             && (o.isOffered || (previous.Some? && previous.value.offering == a.offering))
    ensures TriggerOffering(refs, previous, a).Success? <==> LevelCovered(refs, a.classId, a.offering)
  {
    hide InBand, CheckRow;
    var isNew := previous.None? || previous.value.offering != a.offering;
    RowPasses(refs.offerings[offering], isNew, refs.classes[a.classId].numericLevel, a);
  }

  lemma RowPasses(o: Offering, isNew: bool, level: int, a: Assignment)
    requires o.school == a.school && o.year == a.year && (isNew ==> o.isOffered)
    requires a.subject.Some? && o.legacySubject.Some? ==> a.subject == o.legacySubject
    ensures CheckRow(o, isNew, Some(level), a).Success? <==> InBand(o, level)
  {
  }

  lemma SubjectPasses(refs: References, a: Assignment, offering: Option<Id>, subject: Option<Id>)
    requires Given(offering).Some? && Given(offering).value in refs.offerings
    requires var legacy := Given(refs.offerings[Given(offering).value].legacySubject);
             a.subject == if Given(subject).Some? then Given(subject) else legacy
    ensures TriggerSubject(refs, a).Success? <==> SubjectTrusted(refs, a.school, offering, subject)
  {
  }

  lemma LevelOfGrade(refs: References, a: Assignment, offering: Id, grade: int)
    requires offering in refs.offerings && a.offering == Some(offering) && a.classId in refs.classes
    requires InBand(refs.offerings[offering], grade)
    ensures grade == refs.classes[a.classId].numericLevel ==> LevelCovered(refs, a.classId, a.offering)
  {
  }

  lemma LevelIsServiceGrade(refs: References, classId: Id)
    requires classId in refs.classes
    ensures LevelsInRange(refs) ==> ServiceGradeOf(refs.classes[classId]) == refs.classes[classId].numericLevel
  {
  }

  lemma OfferingFacts(refs: References, school: Id, year: Id, grade: int, offering: Id, subject: Option<Id>,
                      requireActive: bool)
    requires CheckOffering(refs, school, year, grade, offering, subject, requireActive).Success?
    ensures var resolved := CheckOffering(refs, school, year, grade, offering, subject, requireActive).value;
            && offering in refs.offerings && resolved.offering == Some(offering)
            && var o := refs.offerings[offering];
               && o.school == school && o.year == year && InBand(o, grade) && (requireActive ==> o.isOffered)
               && resolved.subject == (if subject.Some? then subject else Given(o.legacySubject))
               && (subject.Some? && Given(o.legacySubject).Some? ==> subject == o.legacySubject)
  {
  }

  lemma SubjectFacts(refs: References, school: Id, year: Id, grade: int, subject: Id)
    requires CheckSubject(refs, school, year, grade, subject).Success?
    ensures var resolved := CheckSubject(refs, school, year, grade, subject).value;
            && resolved.subject == Some(subject)
            && subject in refs.subjects && refs.subjects[subject].school == school
            && (resolved.offering.Some? ==>
                  var o := resolved.offering.value;
                  && o in refs.offerings && refs.offerings[o].school == school && refs.offerings[o].year == year
                  && refs.offerings[o].legacySubject == Some(subject) && InBand(refs.offerings[o], grade)
                  && refs.offerings[o].isOffered)
  {
    var m := Matching(refs, school, year, grade, subject);
    if OnlyMember(m).Some? {
      assert OnlyMember(m).value in m;
    }
  }

  /** The school offers the subject in this session to this grade. */
  predicate Offers(refs: References, school: Id, year: Id, grade: int, subject: Id, id: Id) {
    id in refs.offerings
    && var o := refs.offerings[id];
       && o.school == school && o.year == year && o.legacySubject == Some(subject) && o.isOffered
       && o.gradeFrom <= grade <= o.gradeTo
  }

  /** Without an offering in the request one is inferred exactly if it is the only such offering. */
  lemma InferredIff(refs: References, school: Id, year: Id, grade: int, subject: Id, id: Id)
    requires CheckSubject(refs, school, year, grade, subject).Success?
    ensures CheckSubject(refs, school, year, grade, subject).value.offering == Some(id) <==>
              && Offers(refs, school, year, grade, subject, id)
              && forall o | Offers(refs, school, year, grade, subject, o) :: o == id
  {
    var m := Matching(refs, school, year, grade, subject);
    assert forall o :: o in m <==> Offers(refs, school, year, grade, subject, o);
    hide Offers, Matching;
    if id in m && forall o | o in m :: o == id { assert m == {id}; }
  }

  lemma StoredParts(refs: References, previous: Option<Assignment>, a: Assignment)
    ensures Stored(refs, previous, a).Success? <==>
              && TriggerYear(refs, a).Success? && TriggerClass(refs, a).Success? && TriggerSection(refs, a).Success?
              && TriggerStaff(refs, a).Success? && TriggerOffering(refs, previous, a).Success?
              && TriggerSubject(refs, a).Success?
    ensures Stored(refs, previous, a).Success? ==> Stored(refs, previous, a).value == a
  {
    hide TriggerYear, TriggerClass, TriggerSection, TriggerStaff, TriggerOffering, TriggerSubject;
  }

  lemma YearAndStaffPass(refs: References, a: Assignment)
    ensures a.year in refs.years && refs.years[a.year].school == a.school && !refs.years[a.year].isLocked ==>
              TriggerYear(refs, a).Success?
    ensures a.staffId in refs.staff && refs.staff[a.staffId].school == a.school ==> TriggerStaff(refs, a).Success?
  {
  }

  /** The database refuses a create that the service has passed exactly if the subject that comes with an
      offering is not one of the school, or the offering does not cover the class's stored level. With levels
      from 1 to 12 the subject alone decides. */
  lemma CreateRefusedIff(refs: References, school: Id, data: CreateData, user: Option<Id>)
    requires PicksMatch(refs) && NoEmptyIds(refs) && CheckedCreate(refs, school, data, user).Success?
    ensures CreatedRow(refs, school, data, user).Failure? <==>
              || !SubjectTrusted(refs, school, data.offering, data.subject)
              || !LevelCovered(refs, data.classId, CheckedCreate(refs, school, data, user).value.offering)
    ensures LevelsInRange(refs) ==>
              (CreatedRow(refs, school, data, user).Failure? <==>
                 !SubjectTrusted(refs, school, data.offering, data.subject))
  {
    hide *;
    var a := CheckedCreate(refs, school, data, user).value;
    CreatedParts(refs, school, data, user);
    ResolvedYearFits(refs, school, data.year);
    ResolvedStaffFits(refs, school, data.staffId, user);
    ContextAgainstTrigger(refs, None, a, data.section, data.offering, data.subject, true);
    YearAndStaffPass(refs, a);
    StoredParts(refs, None, a);
  }

  /** The same for an update of a row whose staff member is one of the school. */
  lemma UpdateRefusedIff(refs: References, school: Id, a: Assignment, data: UpdateData, user: Option<Id>)
    requires PicksMatch(refs) && NoEmptyIds(refs) && a.school == school && TriggerStaff(refs, a).Success?
    requires CheckedUpdate(refs, school, a, data, user).Success?
    ensures var b := CheckedUpdate(refs, school, a, data, user).value;
            UpdatedRow(refs, school, a, data, user).Failure? <==>
              || !SubjectTrusted(refs, school, Patched(data.offering, a.offering), Patched(data.subject, a.subject))
              || !LevelCovered(refs, OrElse(data.classId, a.classId), b.offering)
    ensures LevelsInRange(refs) ==>
              (UpdatedRow(refs, school, a, data, user).Failure? <==>
                 !SubjectTrusted(refs, school, Patched(data.offering, a.offering), Patched(data.subject, a.subject)))
  {
    hide *;
    var b := CheckedUpdate(refs, school, a, data, user).value;
    UpdatedParts(refs, school, a, data, user);
    KeptOffering(data, a);
    ResolvedYearFits(refs, school, Some(OrElse(data.year, a.year)));
    ResolvedStaffFits(refs, school, data.staffId, user);
    ContextAgainstTrigger(refs, Some(a), b, Patched(data.section, a.section), Patched(data.offering, a.offering),
                          Patched(data.subject, a.subject), OfferingChanged(data, a));
    YearAndStaffPass(refs, b);
    SameStaff(refs, a, b);
    StoredParts(refs, Some(a), b);
  }

  lemma KeptOffering(data: UpdateData, a: Assignment)
    ensures !OfferingChanged(data, a) ==> Patched(data.offering, a.offering) == a.offering
  {
  }

  /** What a create has put together before the database looks at it. */
  lemma CreatedParts(refs: References, school: Id, data: CreateData, user: Option<Id>)
    requires CheckedCreate(refs, school, data, user).Success?
    ensures var a := CheckedCreate(refs, school, data, user).value;
            var context := ValidateAcademicContext(refs, school, a.year, data.classId, data.section, data.offering,
                                                   data.subject, true);
            && ResolveAcademicYear(refs, school, data.year) == Success(a.year) && context.Success?
            && ResolveStaff(refs, school, data.staffId, user) == Success(a.staffId)
            && a == Assignment(school, a.year, data.classId, Given(data.section), context.value.offering,
                               context.value.subject, a.staffId, data.title)
    ensures CreatedRow(refs, school, data, user) == Stored(refs, None, CheckedCreate(refs, school, data, user).value)
  {
    hide ResolveAcademicYear, ValidateAcademicContext, ResolveStaff, Stored;
  }

  lemma UpdatedParts(refs: References, school: Id, a: Assignment, data: UpdateData, user: Option<Id>)
    requires a.school == school && CheckedUpdate(refs, school, a, data, user).Success?
    ensures var b := CheckedUpdate(refs, school, a, data, user).value;
            var context := ValidateAcademicContext(
              refs, school, b.year, b.classId, Patched(data.section, a.section), Patched(data.offering, a.offering),
              Patched(data.subject, a.subject), OfferingChanged(data, a));
            && !Locked(refs, a.year) && context.Success?
            && ResolveAcademicYear(refs, school, Some(OrElse(data.year, a.year))) == Success(b.year)
            && b == Assignment(school, b.year, OrElse(data.classId, a.classId), Given(Patched(data.section, a.section)),
                               context.value.offering, context.value.subject, b.staffId, b.title)
            && (b.staffId == a.staffId || ResolveStaff(refs, school, data.staffId, user) == Success(b.staffId))
    ensures var b := CheckedUpdate(refs, school, a, data, user).value;
            UpdatedRow(refs, school, a, data, user) == Stored(refs, Some(a), b)
  {
    hide ResolveAcademicYear, ValidateAcademicContext, ResolveStaff, Locked, OrElse, Patched, OfferingChanged, Stored;
  }

  // ----- Written rows against the audit -----

  /** The audit's reading of the class grade is covered too. */
  predicate GradeCovered(refs: References, classId: Id, offering: Option<Id>) {
    offering.Some? && offering.value in refs.offerings && classId in refs.classes ==>
      InBand(refs.offerings[offering.value], AuditGradeOf(refs.classes[classId]))
  }

  /** What the trigger lets through fits, save for the two things it does not look at: whether the staff
      member is active, and the grade as the audit reads it. */
  lemma StoredFits(refs: References, previous: Option<Assignment>, a: Assignment)
    requires Stored(refs, previous, a).Success?
    ensures !Locked(refs, a.year) && LevelCovered(refs, a.classId, a.offering) && TriggerStaff(refs, a).Success?
    ensures Issues(refs, a) == [] <==> StaffFits(refs, a) && GradeCovered(refs, a.classId, a.offering)
  {
    hide *;
    StoredParts(refs, previous, a);
    YearClassFit(refs, a);
    OfferingFitsIff(refs, previous, a);
    SubjectFitsThen(refs, a);
    CleanIffFits(refs, a);
    FitsIs(refs, a);
  }

  lemma YearClassFit(refs: References, a: Assignment)
    ensures TriggerYear(refs, a).Success? ==> YearFits(refs, a) && !Locked(refs, a.year)
    ensures TriggerClass(refs, a).Success? ==> ClassFits(refs, a)
    ensures TriggerClass(refs, a).Success? && TriggerSection(refs, a).Success? ==> SectionFits(refs, a)
  {
  }

  lemma OfferingFitsIff(refs: References, previous: Option<Assignment>, a: Assignment)
    requires TriggerOffering(refs, previous, a).Success?
    ensures LevelCovered(refs, a.classId, a.offering)
    ensures OfferingFits(refs, a) <==> GradeCovered(refs, a.classId, a.offering)
  {
    hide AuditGradeOf, InBand, CheckRow;
    if a.offering.Some? {
      var isNew := previous.None? || previous.value.offering != a.offering;
      RowFits(refs.offerings[a.offering.value], isNew, LevelOf(refs, a.classId), a);
    }
  }

  lemma RowFits(o: Offering, isNew: bool, level: Option<int>, a: Assignment)
    requires CheckRow(o, isNew, level, a).Success?
    ensures o.school == a.school && o.year == a.year && (level.Some? ==> InBand(o, level.value))
    ensures a.subject.Some? && o.legacySubject.Some? ==> a.subject == o.legacySubject
  {
  }

  lemma SubjectFitsThen(refs: References, a: Assignment)
    requires TriggerSubject(refs, a).Success?
    ensures SubjectFits(refs, a)
  {
  }

  lemma FitsIs(refs: References, a: Assignment)
    ensures Fits(refs, a) <==> YearFits(refs, a) && ClassFits(refs, a) && SectionFits(refs, a) && StaffFits(refs, a)
                               && OfferingFits(refs, a) && SubjectFits(refs, a)
    ensures a.staffId in refs.staff && refs.staff[a.staffId].school == a.school && refs.staff[a.staffId].isActive
            ==> StaffFits(refs, a)
  {
  }

  lemma SameStaff(refs: References, a: Assignment, b: Assignment)
    ensures a.staffId == b.staffId && a.school == b.school ==>
              && (StaffFits(refs, a) <==> StaffFits(refs, b))
              && (TriggerStaff(refs, a).Success? <==> TriggerStaff(refs, b).Success?)
  {
  }

  /** A created row lies in an unlocked session, and the audit finds it clean if and only if its offering
      covers the class grade as the audit reads it. */
  lemma CreateCleanIff(refs: References, school: Id, data: CreateData, user: Option<Id>)
    requires PicksMatch(refs) && CreatedRow(refs, school, data, user).Success?
    ensures var a := CreatedRow(refs, school, data, user).value;
            !Locked(refs, a.year) && (Issues(refs, a) == [] <==> GradeCovered(refs, data.classId, a.offering))
  {
    hide *;
    CreatedPasses(refs, school, data, user);
    var a := CreatedRow(refs, school, data, user).value;
    CreatedParts(refs, school, data, user);
    ResolvedStaffFits(refs, school, data.staffId, user);
    StoredParts(refs, None, a);
    StoredFits(refs, None, a);
    FitsIs(refs, a);
  }

  lemma CreatedPasses(refs: References, school: Id, data: CreateData, user: Option<Id>)
    requires CreatedRow(refs, school, data, user).Success?
    ensures var row := CheckedCreate(refs, school, data, user);
            && row.Success? && Stored(refs, None, row.value).Success?
            && CreatedRow(refs, school, data, user) == Success(row.value)
  {
    hide CheckedCreate, Stored;
    if CheckedCreate(refs, school, data, user).Success? {
      StoredParts(refs, None, CheckedCreate(refs, school, data, user).value);
    }
  }

  /** The same for an updated row, as long as its staff member was fine before. */
  lemma UpdateCleanIff(refs: References, school: Id, a: Assignment, data: UpdateData, user: Option<Id>)
    requires PicksMatch(refs) && a.school == school && StaffFits(refs, a)
    requires UpdatedRow(refs, school, a, data, user).Success?
    ensures var b := UpdatedRow(refs, school, a, data, user).value;
            && !Locked(refs, a.year) && !Locked(refs, b.year) && b.school == a.school
            && (Issues(refs, b) == [] <==> GradeCovered(refs, OrElse(data.classId, a.classId), b.offering))
  {
    hide *;
    UpdatedPasses(refs, school, a, data, user);
    var b := UpdatedRow(refs, school, a, data, user).value;
    UpdatedParts(refs, school, a, data, user);
    ResolvedStaffFits(refs, school, data.staffId, user);
    StoredFits(refs, Some(a), b);
    FitsIs(refs, b);
    SameStaff(refs, a, b);
  }

  lemma UpdatedPasses(refs: References, school: Id, a: Assignment, data: UpdateData, user: Option<Id>)
    requires UpdatedRow(refs, school, a, data, user).Success?
    ensures var row := CheckedUpdate(refs, school, a, data, user);
            && row.Success? && Stored(refs, Some(a), row.value).Success?
            && UpdatedRow(refs, school, a, data, user) == Success(row.value)
  {
    hide CheckedUpdate, Stored;
    if CheckedUpdate(refs, school, a, data, user).Success? {
      StoredParts(refs, Some(a), CheckedUpdate(refs, school, a, data, user).value);
    }
  }

  // ----- Whole runs -----

  ghost predicate Clean(refs: References, store: Store) {
    forall id | id in store :: Issues(refs, store[id]) == []
  }

  /** With levels from 1 to 12 the audit reads the level the trigger has checked. */
  lemma LevelIsGrade(refs: References, classId: Id, offering: Option<Id>)
    requires LevelsInRange(refs) && LevelCovered(refs, classId, offering)
    ensures GradeCovered(refs, classId, offering)
  {
  }

  /** With classes as the database constrains them, what is created or updated is always clean. */
  lemma WrittenIsClean(refs: References, store: Store, op: Op)
    requires PicksMatch(refs) && LevelsInRange(refs) && !op.Delete? && Written(refs, store, op).Success?
    requires op.Update? ==> Issues(refs, store[op.id]) == []
    ensures var a := Written(refs, store, op).value;
            && a.Some? && Issues(refs, a.value) == [] && !Locked(refs, a.value.year)
            && (op.id in store ==> !Locked(refs, store[op.id].year))
  {
    hide *;
    WrittenIs(refs, store, op);
    match op
    case Create(_, school, data, user) =>
      CreatedPasses(refs, school, data, user);
      CreatedParts(refs, school, data, user);
      CreateCleanIff(refs, school, data, user);
      var a := CreatedRow(refs, school, data, user).value;
      StoredFits(refs, None, a);
      LevelIsGrade(refs, a.classId, a.offering);
    case Update(id, school, data, user) =>
      var a := store[id];
      CleanIffFits(refs, a);
      FitsIs(refs, a);
      UpdatedPasses(refs, school, a, data, user);
      UpdatedParts(refs, school, a, data, user);
      UpdateCleanIff(refs, school, a, data, user);
      var b := UpdatedRow(refs, school, a, data, user).value;
      StoredFits(refs, Some(a), b);
      LevelIsGrade(refs, b.classId, b.offering);
  }

  lemma WrittenIs(refs: References, store: Store, op: Op)
    requires Written(refs, store, op).Success?
    ensures op.Create? ==>
              && op.id !in store && CreatedRow(refs, op.school, op.create, op.user).Success?
              && Written(refs, store, op).value == Some(CreatedRow(refs, op.school, op.create, op.user).value)
    ensures op.Update? ==>
              && op.id in store && store[op.id].school == op.school
              && var row := UpdatedRow(refs, op.school, store[op.id], op.update, op.user);
                 row.Success? && Written(refs, store, op).value == Some(row.value)
    ensures op.Delete? ==>
              && Written(refs, store, op).value.None? && op.id in store && !Locked(refs, store[op.id].year)
  {
    hide UpdatedRow, CreatedRow, Locked;
  }

  /** The rows of locked sessions. */
  function LockedPart(refs: References, store: Store): Store {
    map id | id in store && Locked(refs, store[id].year) :: store[id]
  }

  lemma PutKeeps(refs: References, store: Store, id: Id, a: Assignment)
    requires Clean(refs, store) && Issues(refs, a) == [] && !Locked(refs, a.year)
    requires id in store ==> !Locked(refs, store[id].year)
    ensures Clean(refs, store[id := a]) && LockedPart(refs, store[id := a]) == LockedPart(refs, store)
  {
    hide Issues, Locked;
  }

  lemma RemoveKeeps(refs: References, store: Store, id: Id)
    requires Clean(refs, store) && id in store && !Locked(refs, store[id].year)
    ensures Clean(refs, store - {id}) && LockedPart(refs, store - {id}) == LockedPart(refs, store)
  {
    hide Issues, Locked;
  }

  lemma ApplyIs(refs: References, store: Store, op: Op)
    ensures Apply(refs, store, op) == match Written(refs, store, op)
                                      case Failure(_) => store
                                      case Success(None) => store - {op.id}
                                      case Success(Some(a)) => store[op.id := a]
  {
    hide Written;
  }

  /** One operation, whatever its arguments, keeps a clean table clean and locked sessions untouched. */
  lemma StepKeeps(refs: References, store: Store, op: Op)
    requires PicksMatch(refs) && LevelsInRange(refs) && Clean(refs, store)
    ensures Clean(refs, Apply(refs, store, op))
    ensures LockedPart(refs, Apply(refs, store, op)) == LockedPart(refs, store)
  {
    hide *;
    ApplyIs(refs, store, op);
    if Written(refs, store, op).Success? {
      WrittenIs(refs, store, op);
      if op.Delete? {
        RemoveKeeps(refs, store, op.id);
      } else {
        if op.Update? { CleanAt(refs, store, op.id); }
        WrittenIsClean(refs, store, op);
        PutKeeps(refs, store, op.id, Written(refs, store, op).value.value);
      }
    }
  }

  lemma CleanAt(refs: References, store: Store, id: Id)
    requires Clean(refs, store) && id in store
    ensures Issues(refs, store[id]) == []
  {
  }

  /** Over any run of creates, updates and deletes with any arguments: a table the audit finds clean stays
      clean, and the rows of locked sessions stay exactly as they are. */
  lemma {:induction false} RunStaysClean(refs: References, store: Store, ops: seq<Op>)
    requires PicksMatch(refs) && LevelsInRange(refs) && Clean(refs, store)
    ensures Clean(refs, End(refs, store, ops))
    ensures LockedPart(refs, End(refs, store, ops)) == LockedPart(refs, store)
    decreases |ops|
  {
    hide *;
    EndIs(refs, store, ops);
    if ops != [] {
      StepKeeps(refs, store, ops[0]);
      RunStaysClean(refs, Apply(refs, store, ops[0]), ops[1..]);
    }
  }

  lemma EndIs(refs: References, store: Store, ops: seq<Op>)
    ensures End(refs, store, ops) == if ops == [] then store else End(refs, Apply(refs, store, ops[0]), ops[1..])
  {
    hide Apply;
  }

  // ----- A write that only the database refuses -----

  const SHARED: References := References(
    map["y" := Year("s", true, false)], map["c" := Class("s", "y", 5, "Class 5")], map[],
    map["alien" := Subject("t")], map["p" := Staff("s", None, true)],
    map["o" := Offering("s", "y", true, 1, 12, None)], map["s" := "y"], map[])

  /** An offering without a legacy subject and a subject of another school pass the service together; the
      trigger refuses the row. */
  lemma ForeignSubjectRefused()
    ensures var data := CreateData(Some("y"), "c", None, Some("o"), Some("alien"), Some("p"), "Essay");
            && CheckedCreate(SHARED, "s", data, None).Success?
            && CreatedRow(SHARED, "s", data, None) == Failure("Cross-school assignment subject")
  {
    var row := Assignment("s", "y", "c", None, Some("o"), Some("alien"), "p", "Essay");
    ExampleContext();
    assert ResolveAcademicYear(SHARED, "s", Some("y")) == Success("y");
    assert ResolveStaff(SHARED, "s", Some("p"), None) == Success("p");
    hide ResolveAcademicYear, ResolveStaff, ValidateAcademicContext, Stored;
    ExampleRefused(row);
  }

  lemma ExampleContext()
    ensures ValidateAcademicContext(SHARED, "s", "y", "c", None, Some("o"), Some("alien"), true)
         == Success(Resolved(Some("o"), Some("alien")))
  {
    hide FindGrade;
    assert ServiceGradeOf(SHARED.classes["c"]) == 5;
    hide ServiceGradeOf;
  }

  lemma ExampleRefused(row: Assignment)
    requires row == Assignment("s", "y", "c", None, Some("o"), Some("alien"), "p", "Essay")
    ensures Stored(SHARED, None, row) == Failure("Cross-school assignment subject")
  {
    ExamplePasses(row);
    assert TriggerSubject(SHARED, row) == Failure("Cross-school assignment subject");
    hide TriggerYear, TriggerClass, TriggerSection, TriggerStaff, TriggerOffering, TriggerSubject;
  }

  lemma ExamplePasses(row: Assignment)
    requires row == Assignment("s", "y", "c", None, Some("o"), Some("alien"), "p", "Essay")
    ensures TriggerYear(SHARED, row).Success? && TriggerClass(SHARED, row).Success?
    ensures TriggerSection(SHARED, row).Success?
    ensures TriggerStaff(SHARED, row).Success? && TriggerOffering(SHARED, None, row).Success?
  {
  }
}
