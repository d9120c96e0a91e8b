/** Which creates and updates of assignments the service and the database accept, and with which row: stated
    on the reference tables alone. */
module AssignmentOutcomes {
  import opened Wrappers
  import opened GradeResolver
  import opened AcademicGraph
  import opened Assignments

  ghost predicate Absent(id: Option<Id>) {
    id.None? || id.value == ""
  }

  /** `y` is the unlocked session a request for `asked` means. */
  ghost predicate SessionIs(refs: References, school: Id, asked: Option<Id>, y: Id) {
    && y in refs.years && !refs.years[y].isLocked
    && (if Absent(asked) then school in refs.activeYear && refs.activeYear[school] == y
        else asked == Some(y) && refs.years[y].school == school)
  }

  /** `s` is the staff member a request by `user` for `asked` means. */
  ghost predicate StaffIs(refs: References, school: Id, asked: Option<Id>, user: Option<Id>, s: Id) {
    if Absent(asked) then
      !Absent(user) && (school, user.value) in refs.staffOf && refs.staffOf[(school, user.value)] == s
    else asked == Some(s) && s in refs.staff && refs.staff[s].school == school && refs.staff[s].isActive
  }

  ghost predicate ClassIs(refs: References, school: Id, year: Id, classId: Id) {
    classId in refs.classes && refs.classes[classId].school == school && refs.classes[classId].year == year
  }

  ghost predicate SectionIs(refs: References, classId: Id, section: Option<Id>) {
    Absent(section) || (section.value in refs.sections && refs.sections[section.value].classId == classId)
  }

  /** Offering `id` may be used for the grade, and `used` is the subject it goes with. */
  ghost predicate OfferingIs(refs: References, school: Id, year: Id, grade: int, id: Id, subject: Option<Id>,
                             mustBeOffered: bool, used: Option<Id>)
  {
    id in refs.offerings
    && var o := refs.offerings[id];
       && o.school == school && o.year == year && o.gradeFrom <= grade <= o.gradeTo
       && (mustBeOffered ==> o.isOffered)
       && (!Absent(subject) ==> used == subject && (Absent(o.legacySubject) || o.legacySubject == subject))
       && (Absent(subject) ==> used == if Absent(o.legacySubject) then None else o.legacySubject)
  }

  /** The subject is one of the school, and `inferred` its only offering for the grade if there is just one. */
  ghost predicate SubjectIs(refs: References, school: Id, year: Id, grade: int, subject: Id, inferred: Option<Id>) {
    && subject in refs.subjects && refs.subjects[subject].school == school
    && forall id :: inferred == Some(id) <==>
                      && Offers(refs, school, year, grade, subject, id)
                      && forall o | Offers(refs, school, year, grade, subject, o) :: o == id
  }

  /** The class, section, offering and subject asked for belong together, and this is what becomes of the
      latter two. */
  ghost predicate ContextIs(refs: References, school: Id, year: Id, classId: Id, section: Option<Id>,
                            offering: Option<Id>, subject: Option<Id>, mustBeOffered: bool, r: Resolved)
  {
    && ClassIs(refs, school, year, classId) && SectionIs(refs, classId, section)
    && var grade := ResolveGradeLevel(refs.classes[classId].numericLevel, refs.classes[classId].name);
       if !Absent(offering) then
         && r.offering == offering
         && OfferingIs(refs, school, year, grade, offering.value, subject, mustBeOffered, r.subject)
       else !Absent(subject) && r.subject == subject && SubjectIs(refs, school, year, grade, subject.value, r.offering)
  }

  lemma SessionIff(refs: References, school: Id, asked: Option<Id>, y: Id)
    ensures ResolveAcademicYear(refs, school, asked) == Success(y) <==> SessionIs(refs, school, asked, y)
  {
  }

  lemma StaffIff(refs: References, school: Id, asked: Option<Id>, user: Option<Id>, s: Id)
    ensures ResolveStaff(refs, school, asked, user) == Success(s) <==> StaffIs(refs, school, asked, user, s)
  {
  }

  lemma ClassIff(refs: References, school: Id, year: Id, classId: Id, section: Option<Id>)
    ensures CheckClass(refs, school, year, classId).Success? <==> ClassIs(refs, school, year, classId)
    ensures ClassIs(refs, school, year, classId) ==>
              CheckClass(refs, school, year, classId).value == refs.classes[classId]
    ensures ClassIs(refs, school, year, classId) ==>
              (CheckSection(refs, school, year, classId, section).Success? <==> SectionIs(refs, classId, section))
  {
  }

  lemma OfferingIff(refs: References, school: Id, year: Id, grade: int, id: Id, subject: Option<Id>,
                    mustBeOffered: bool, r: Resolved)
    ensures CheckOffering(refs, school, year, grade, id, Given(subject), mustBeOffered) == Success(r) <==>
            r.offering == Some(id) && OfferingIs(refs, school, year, grade, id, subject, mustBeOffered, r.subject)
  {
  }

  lemma SubjectIff(refs: References, school: Id, year: Id, grade: int, subject: Id, r: Resolved)
    ensures CheckSubject(refs, school, year, grade, subject) == Success(r) <==>
            r.subject == Some(subject) && SubjectIs(refs, school, year, grade, subject, r.offering)
  {
    var c := CheckSubject(refs, school, year, grade, subject);
    if c.Success? {
      forall id
        ensures c.value.offering == Some(id) <==>
                  && Offers(refs, school, year, grade, subject, id)
                  && forall o | Offers(refs, school, year, grade, subject, o) :: o == id
      {
        InferredIff(refs, school, year, grade, subject, id);
      }
      hide Offers, Matching;
      var p, q := c.value.offering, r.offering;
      if p.Some? { assert q == Some(p.value) || q != Some(p.value); }
      if q.Some? { assert p == Some(q.value) || p != Some(q.value); }
    }
  }

  /** The context check succeeds with `r` exactly if everything belongs together and `r` is what comes of it. */
  lemma ContextIff(refs: References, school: Id, year: Id, classId: Id, section: Option<Id>, offering: Option<Id>,
                   subject: Option<Id>, mustBeOffered: bool, r: Resolved)
    ensures ValidateAcademicContext(refs, school, year, classId, section, offering, subject, mustBeOffered)
            == Success(r)
            <==> ContextIs(refs, school, year, classId, section, offering, subject, mustBeOffered, r)
  {
    hide CheckClass, CheckSection, CheckOffering, CheckSubject, OfferingIs, SubjectIs, SectionIs;
    hide ResolveGradeLevel;
    ClassIff(refs, school, year, classId, section);
    if ClassIs(refs, school, year, classId) {
      var grade := ServiceGradeOf(refs.classes[classId]);
      if !Absent(offering) {
        OfferingIff(refs, school, year, grade, offering.value, subject, mustBeOffered, r);
      } else if !Absent(subject) {
        SubjectIff(refs, school, year, grade, subject.value, r);
      }
    }
  }

  // ----- Creating -----

  ghost predicate CreateGives(refs: References, school: Id, data: CreateData, user: Option<Id>, a: Assignment) {
    && a.school == school && a.classId == data.classId && a.title == data.title
    && SessionIs(refs, school, data.year, a.year)
    && StaffIs(refs, school, data.staffId, user, a.staffId)
    && a.section == (if Absent(data.section) then None else data.section)
    && ContextIs(refs, school, a.year, data.classId, data.section, data.offering, data.subject, true,
                 Resolved(a.offering, a.subject))
  }

  /** The service passes a create with row `a` exactly if the tables hold all it asks for and `a` is made of it. */
  lemma CreateIff(refs: References, school: Id, data: CreateData, user: Option<Id>, a: Assignment)
    ensures CheckedCreate(refs, school, data, user) == Success(a) <==> CreateGives(refs, school, data, user, a)
  {
    hide ResolveAcademicYear, ResolveStaff, ValidateAcademicContext, SessionIs, StaffIs, ContextIs;
    SessionIff(refs, school, data.year, a.year);
    StaffIff(refs, school, data.staffId, user, a.staffId);
    ContextIff(refs, school, a.year, data.classId, data.section, data.offering, data.subject, true,
               Resolved(a.offering, a.subject));
  }

  // ----- Updating -----

  /** The fields an update asks for, those it leaves alone being the row's own. */
  ghost predicate UpdateGives(refs: References, school: Id, a: Assignment, data: UpdateData, user: Option<Id>,
                              b: Assignment)
  {
    var section := match data.section case Keep => a.section case Put(value) => value;
    var offering := match data.offering case Keep => a.offering case Put(value) => value;
    var subject := match data.subject case Keep => a.subject case Put(value) => value;
    && (a.year in refs.years ==> !refs.years[a.year].isLocked)
    && SessionIs(refs, school, Some(if Absent(data.year) then a.year else data.year.value), b.year)
    && b.school == a.school
    && b.classId == (if Absent(data.classId) then a.classId else data.classId.value)
    && b.section == (if Absent(section) then None else section)
    && b.title == (match data.title case None => a.title case Some(title) => title)
    && (if Absent(data.staffId) then b.staffId == a.staffId else StaffIs(refs, school, data.staffId, user, b.staffId))
    && ContextIs(refs, school, b.year, b.classId, section, offering, subject, offering != a.offering,
                 Resolved(b.offering, b.subject))
  }

  /** The same for an update. An offering must be on offer only if it is new to the row. */
  lemma UpdateIff(refs: References, school: Id, a: Assignment, data: UpdateData, user: Option<Id>, b: Assignment)
    ensures CheckedUpdate(refs, school, a, data, user) == Success(b) <==> UpdateGives(refs, school, a, data, user, b)
  {
    hide ResolveAcademicYear, ResolveStaff, ValidateAcademicContext, SessionIs, StaffIs, ContextIs;
    var year := Some(if Absent(data.year) then a.year else data.year.value);
    SessionIff(refs, school, year, b.year);
    StaffIff(refs, school, data.staffId, user, b.staffId);
    ContextIff(refs, school, b.year, b.classId, Patched(data.section, a.section), Patched(data.offering, a.offering),
               Patched(data.subject, a.subject), OfferingChanged(data, a), Resolved(b.offering, b.subject));
  }

  // ----- What the database lets through -----

  /** Every row the assignment refers to exists. */
  ghost predicate Refers(refs: References, a: Assignment) {
    && a.year in refs.years && a.classId in refs.classes && a.staffId in refs.staff
    && (a.section.Some? ==> a.section.value in refs.sections && refs.sections[a.section.value].classId in refs.classes)
    && (a.offering.Some? ==> a.offering.value in refs.offerings)
    && (a.subject.Some? ==> a.subject.value in refs.subjects)
  }

  /** The offering fits the row as the trigger sees it: by the stored level of the class. */
  ghost predicate OfferingStored(refs: References, previous: Option<Assignment>, a: Assignment)
    requires Refers(refs, a) && a.offering.Some?
  {
    var o, level := refs.offerings[a.offering.value], refs.classes[a.classId].numericLevel;
    && o.school == a.school && o.year == a.year && o.gradeFrom <= level <= o.gradeTo
    && (a.subject.None? || o.legacySubject.None? || a.subject == o.legacySubject)
    && (o.isOffered || (previous.Some? && previous.value.offering == a.offering))
  }

  /** The trigger lets a row through exactly if what it refers to exists and fits, its session is open, and its
      offering was there before or is on offer. */
  lemma StoredIff(refs: References, previous: Option<Assignment>, a: Assignment)
    ensures Stored(refs, previous, a) == Success(a) <==>
              && Refers(refs, a) && !refs.years[a.year].isLocked
              && YearFits(refs, a) && ClassFits(refs, a) && SectionFits(refs, a) && SubjectFits(refs, a)
              && refs.staff[a.staffId].school == a.school
              && (a.offering.Some? ==> OfferingStored(refs, previous, a))
    ensures Stored(refs, previous, a).Success? ==> Stored(refs, previous, a).value == a
  {
    StoredParts(refs, previous, a);
    PlaceStored(refs, a);
    PeopleStored(refs, a);
    SectionStored(refs, a);
    OfferingStoredIff(refs, previous, a);
    hide Stored, TriggerYear, TriggerClass, TriggerSection, TriggerStaff, TriggerOffering, TriggerSubject;
    hide OfferingStored, SectionFits;
  }

  lemma PlaceStored(refs: References, a: Assignment)
    ensures TriggerYear(refs, a).Success? <==> a.year in refs.years && YearFits(refs, a) && !refs.years[a.year].isLocked
    ensures TriggerClass(refs, a).Success? <==> a.classId in refs.classes && ClassFits(refs, a)
  {
  }

  lemma PeopleStored(refs: References, a: Assignment)
    ensures TriggerStaff(refs, a).Success? <==> a.staffId in refs.staff && refs.staff[a.staffId].school == a.school
    ensures TriggerSubject(refs, a).Success? <==>
              (a.subject.Some? ==> a.subject.value in refs.subjects) && SubjectFits(refs, a)
  {
  }

  lemma SectionStored(refs: References, a: Assignment)
    ensures ClassFits(refs, a) && a.classId in refs.classes ==>
              (TriggerSection(refs, a).Success? <==>
                 && SectionFits(refs, a)
                 && (a.section.Some? ==>
                       a.section.value in refs.sections && refs.sections[a.section.value].classId in refs.classes))
  {
  }

  lemma OfferingStoredIff(refs: References, previous: Option<Assignment>, a: Assignment)
    ensures Refers(refs, a) && a.offering.Some? ==>
              (TriggerOffering(refs, previous, a).Success? <==> OfferingStored(refs, previous, a))
    ensures a.offering.None? ==> TriggerOffering(refs, previous, a).Success?
    ensures a.offering.Some? && a.offering.value !in refs.offerings ==> TriggerOffering(refs, previous, a).Failure?
  {
    hide CheckRow;
    if a.offering.Some? && a.offering.value in refs.offerings {
      var isNew := previous.None? || previous.value.offering != a.offering;
      RowIff(refs.offerings[a.offering.value], isNew, LevelOf(refs, a.classId), a);
    }
  }

  lemma RowIff(o: Offering, isNew: bool, level: Option<int>, a: Assignment)
    ensures CheckRow(o, isNew, level, a).Success? <==>
              && o.school == a.school && o.year == a.year && (level.Some? ==> o.gradeFrom <= level.value <= o.gradeTo)
              && (a.subject.None? || o.legacySubject.None? || a.subject == o.legacySubject)
              && (isNew ==> o.isOffered)
  {
    if isNew && !o.isOffered {
    } else if o.school != a.school {
    } else if o.year != a.year {
    } else if level.Some? && !InBand(o, level.value) {
    } else {
    }
  }

  // ----- The three operations -----

  /** A create writes `a` exactly if its id is unused and service and trigger pass the row. */
  lemma CreateWritesIff(refs: References, store: Store, op: Op, a: Assignment)
    requires op.Create?
    ensures Written(refs, store, op) == Success(Some(a)) <==>
              && op.id !in store && CreateGives(refs, op.school, op.create, op.user, a)
              && Stored(refs, None, a).Success?
  {
    hide CheckedCreate, Stored, CreateGives;
    CreateIff(refs, op.school, op.create, op.user, a);
    var row := CheckedCreate(refs, op.school, op.create, op.user);
    if row.Success? { StoredParts(refs, None, row.value); }
  }

  /** An update needs a row of the school, and service and trigger must pass the new one. */
  lemma UpdateWritesIff(refs: References, store: Store, op: Op, a: Assignment)
    requires op.Update?
    ensures Written(refs, store, op) == Success(Some(a)) <==>
              && op.id in store && store[op.id].school == op.school
              && UpdateGives(refs, op.school, store[op.id], op.update, op.user, a)
              && Stored(refs, Some(store[op.id]), a).Success?
  {
    hide CheckedUpdate, Stored, UpdateGives;
    if op.id in store {
      UpdateIff(refs, op.school, store[op.id], op.update, op.user, a);
      var row := CheckedUpdate(refs, op.school, store[op.id], op.update, op.user);
      if row.Success? { StoredParts(refs, Some(store[op.id]), row.value); }
    }
  }

  /** A deletion needs a row of the school in an open session. */
  lemma DeleteIff(refs: References, store: Store, op: Op)
    requires op.Delete?
    ensures Written(refs, store, op) == Success(None) <==>
              && op.id in store && store[op.id].school == op.school
              && (store[op.id].year in refs.years ==> !refs.years[store[op.id].year].isLocked)
  {
  }

  /** What an operation does to the table: one row written or removed, or nothing at all. */
  lemma OperationEffect(refs: References, store: Store, op: Op, other: Id)
    ensures var v, w := Apply(refs, store, op), Written(refs, store, op);
            && (w.Failure? ==> v == store)
            && (w == Success(None) ==> op.id !in v)
            && (w.Success? && w.value.Some? ==> op.id in v && v[op.id] == w.value.value)
            && (other != op.id ==>
                  (other in v <==> other in store) && (other in store ==> v[other] == store[other]))
  {
    hide Written;
  }
}
