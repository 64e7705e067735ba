/**
 * The public routes of `/api/schools`: listing and requesting institutions, listing and
 * posting threads, the class list and detail of an institution, suggestions and the
 * public announcement. The vote routes are in module Voting.
 */
module SchoolsRoutes {
  import opened Wrappers
  import opened JsString
  import opened Store
  import opened SchoolModel
  import RumorModel
  import SuggestionModel
  import AnnouncementModel
  import Validation
  import Integrity
  import VoteModel

  /** The body's `type`, defaulting to school only when it is absent. */
  function ParseType(typeField: Option<string>): (k: Option<InstitutionType>)
    ensures k.Some? <==> typeField.None? || typeField == Some("school") || typeField == Some("college")
    ensures typeField.None? || typeField == Some("school") ==> k == Some(School)
    ensures typeField == Some("college") ==> k == Some(College)
  {
    match typeField
    case None => Some(School)
    case Some(t) => if t == "school" then Some(School) else if t == "college" then Some(College) else None
  }

  /** The query's `type` narrows the list only when it names a kind; anything else is ignored. */
  function TypeFilter(typeQuery: string): Option<InstitutionType> {
    if typeQuery == "school" then Some(School) else if typeQuery == "college" then Some(College) else None
  }

  /** `GET /`: the approved institutions, of the requested kind when one is named. */
  function ListInstitutions(t: Table<Institution>, typeQuery: string): set<Id> {
    set id | id in t.docs && t.docs[id].status == Approved
      && (TypeFilter(typeQuery).Some? ==> t.docs[id].kind == TypeFilter(typeQuery).value)
  }

  /** The two kinds split the unfiltered list, which any unrecognised filter returns. */
  lemma ListInstitutionsPartition(t: Table<Institution>, typeQuery: string)
    requires typeQuery != "school" && typeQuery != "college"
    ensures ListInstitutions(t, "school") + ListInstitutions(t, "college") == ListInstitutions(t, typeQuery)
    ensures ListInstitutions(t, "school") * ListInstitutions(t, "college") == {}
    ensures forall id :: id in ListInstitutions(t, typeQuery) <==> id in t.docs && t.docs[id].status == Approved
  {
  }

  /** The duplicate query: case-insensitive containment of name and city, and the same kind. */
  function DuplicateQuery(name: string, city: string, kind: InstitutionType): Institution -> bool {
    (s: Institution) => MatchesIgnoreCase(name, s.name) && MatchesIgnoreCase(city, s.city) && s.kind == kind
  }

  /**
   * `POST /`: `validateSchool`, then the type, then the duplicate query over every record
   * whatever its status, then a pending record with no classes.
   */
  function RequestSpec(t: Table<Institution>, name: string, city: string, typeField: Option<string>, now: Time)
    : (Result<Id>, Table<Institution>)
  {
    var validated := Validation.ValidateSchool(name, city);
    if validated.Err? then (Err(validated.error), t)
    else
      var (n, c) := validated.value;
      var kind := ParseType(typeField);
      if kind.None? then (Err(InvalidInput), t)
      else if AnyMatch(t, DuplicateQuery(n, c, kind.value)) then (Err(Conflict), t)
      else SaveSpec(t, None, NewInstitution(n, c, kind.value, Pending, [], None, now), now)
  }

  /**
   * A request succeeds exactly when the validator, the type, the duplicate check and the
   * schema all pass; it then adds one pending record with the trimmed fields and no
   * classes under a fresh id, and otherwise changes nothing.
   */
  lemma {:induction false} RequestOutcome(t: Table<Institution>, name: string, city: string, typeField: Option<string>, now: Time)
    requires t.Valid()
    ensures var (r, t') := RequestSpec(t, name, city, typeField, now);
      && t'.Valid()
      && (r.Ok? <==>
            && Validation.ValidateSchool(name, city).Ok?
            && ParseType(typeField).Some?
            && !AnyMatch(t, DuplicateQuery(Trim(name), Trim(city), ParseType(typeField).value))
            && NameWithinSchema(Trim(name)) && CityWithinSchema(Trim(city)))
      && (r.Err? ==> t' == t)
      && (Validation.ValidateSchool(name, city).Err? ==> r == Err(InvalidInput))
      && (r.Ok? ==>
            && r.value == t.nextId && r.value !in t.docs
            && t' == t.Insert(Institution(Trim(name), Trim(city), ParseType(typeField).value, Pending, [], now, None)))
  {
    var v := Validation.ValidateSchool(name, city);
    var kind := ParseType(typeField);
    if v.Err? {
      assert RequestSpec(t, name, city, typeField, now) == (Err(InvalidInput), t);
    } else if kind.None? {
      assert RequestSpec(t, name, city, typeField, now) == (Err(InvalidInput), t);
    } else if AnyMatch(t, DuplicateQuery(Trim(name), Trim(city), kind.value)) {
      assert RequestSpec(t, name, city, typeField, now) == (Err(Conflict), t);
    } else {
      TrimIdempotent(name);
      TrimIdempotent(city);
      var doc := NewInstitution(Trim(name), Trim(city), kind.value, Pending, [], None, now);
      assert doc == Institution(Trim(name), Trim(city), kind.value, Pending, [], now, None);
      PreSaveHookFrame(doc, now);
      assert RequestSpec(t, name, city, typeField, now) == SaveSpec(t, None, doc, now);
      SaveSpecOutcome(t, None, doc, now);
    }
  }

  /** Requesting the same institution again, while the first request is pending, is a conflict. */
  lemma RequestTwiceConflicts(t: Table<Institution>, name: string, city: string, typeField: Option<string>, now: Time, later: Time)
    requires t.Valid() && RequestSpec(t, name, city, typeField, now).0.Ok?
    ensures RequestSpec(RequestSpec(t, name, city, typeField, now).1, name, city, typeField, later).0 == Err(Conflict)
  {
    RequestOutcome(t, name, city, typeField, now);
    var (r, t') := RequestSpec(t, name, city, typeField, now);
    var kind := ParseType(typeField).value;
    MatchesEqualIgnoringCase(Trim(name), Trim(name));
    MatchesEqualIgnoringCase(Trim(city), Trim(city));
    assert DuplicateQuery(Trim(name), Trim(city), kind)(t'.docs[r.value]);
  }

  lemma {:induction false} RequestPreserves(schools: Table<Institution>, rumors: Table<RumorModel.Rumor>, ledger: VoteModel.Ledger,
                         name: string, city: string, typeField: Option<string>, now: Time)
    requires Integrity.Invariant(schools, rumors, ledger)
    ensures Integrity.Invariant(RequestSpec(schools, name, city, typeField, now).1, rumors, ledger)
  {
    RequestOutcome(schools, name, city, typeField, now);
    var (r, t') := RequestSpec(schools, name, city, typeField, now);
    if r.Ok? {
      Integrity.InsertSchoolPreserves(schools, rumors, ledger,
        Institution(Trim(name), Trim(city), ParseType(typeField).value, Pending, [], now, None));
    }
  }

  method RequestInstitution(schools: SchoolCollection, name: string, city: string, typeField: Option<string>, now: Time)
    returns (r: Result<Id>)
    requires schools.Valid()
    modifies schools
    ensures schools.Valid()
    ensures (r, schools.table) == RequestSpec(old(schools.table), name, city, typeField, now)
  {
    var validated := Validation.ValidateSchool(name, city);
    if validated.Err? {
      return Err(validated.error);
    }
    var (n, c) := validated.value;
    var kind := ParseType(typeField);
    if kind.None? {
      return Err(InvalidInput);
    }
    var existing := schools.FindOne(DuplicateQuery(n, c, kind.value));
    if existing {
      return Err(Conflict);
    }
    var doc := new SchoolDocument.New(n, c, kind.value, Pending, [], None, now);
    r := schools.Save(doc, now);
  }

  /** `GET /:schoolId/rumors`: the institution's threads, of one class unless the filter is empty or "all". */
  function ListRumors(rumors: Table<RumorModel.Rumor>, schoolId: Id, classFilter: string): set<Id> {
    set id | id in rumors.docs && rumors.docs[id].schoolId == schoolId
      && (classFilter != "" && classFilter != "all" ==> rumors.docs[id].classLabel == Some(classFilter))
  }

  /** Filtering by a class only narrows the full list, which "all" and no filter both give. */
  lemma ListRumorsFilter(rumors: Table<RumorModel.Rumor>, schoolId: Id, classFilter: string)
    ensures ListRumors(rumors, schoolId, "all") == ListRumors(rumors, schoolId, "")
    ensures ListRumors(rumors, schoolId, classFilter) <= ListRumors(rumors, schoolId, "all")
    ensures forall id :: id in ListRumors(rumors, schoolId, "all") <==> id in rumors.docs && rumors.docs[id].schoolId == schoolId
  {
  }

  /** `GET /:schoolId`: an approved institution, else not found. */
  function GetSchool(t: Table<Institution>, schoolId: Id): (r: Result<Institution>)
    ensures r.Ok? <==> schoolId in t.docs && t.docs[schoolId].status == Approved
    ensures r.Ok? ==> r.value == t.docs[schoolId]
    ensures r.Err? ==> r.error == NotFound
  {
    if schoolId in t.docs && t.docs[schoolId].status == Approved then Ok(t.docs[schoolId]) else Err(NotFound)
  }

  /** `GET /:schoolId/classes`: the class list of an approved institution. */
  function GetClasses(t: Table<Institution>, schoolId: Id): Result<seq<string>> {
    match GetSchool(t, schoolId)
    case Ok(s) => Ok(s.classes)
    case Err(e) => Err(e)
  }

  /** Under the class rule an approved school offers every class and an approved college none. */
  lemma GetClassesByKind(t: Table<Institution>, schoolId: Id)
    requires forall id :: id in t.docs ==> ClassRule(t.docs[id])
    ensures var r := GetClasses(t, schoolId);
      && (r.Ok? <==> GetSchool(t, schoolId).Ok?)
      && (r.Ok? && t.docs[schoolId].kind == School ==> r.value == AllClasses)
      && (r.Ok? && t.docs[schoolId].kind == College ==> r.value == [])
  {
  }

  /**
   * `POST /:schoolId/rumors`: `validateRumor`, the approved lookup, the class for a school
   * (a college's thread is built without one), then the save, whose validation requires
   * the class.
   */
  function PostRumorSpec(schools: Table<Institution>, rumors: Table<RumorModel.Rumor>, schoolId: Id,
                         classField: string, content: string, now: Time)
    : (Result<Id>, Table<RumorModel.Rumor>)
  {
    match Validation.ValidateRumor(classField, content)
    case Err(e) => (Err(e), rumors)
    case Ok((classLabel, trimmed)) =>
      match GetSchool(schools, schoolId)
      case Err(e) => (Err(e), rumors)
      case Ok(institution) =>
        if institution.kind == School && classLabel == [] then (Err(InvalidInput), rumors)
        else
          var classOption := if institution.kind == School then Some(classLabel) else None;
          RumorModel.CreateSpec(rumors, RumorModel.NewRumor(schoolId, classOption, trimmed, now))
  }

  /** A class outside the labels, or content outside the validator's bounds, is rejected first. */
  lemma PostRumorRejectsInvalid(schools: Table<Institution>, rumors: Table<RumorModel.Rumor>, schoolId: Id,
                                classField: string, content: string, now: Time)
    requires !IsClassLabel(classField) || !Validation.IsLength(Trim(content), 10, 10000)
    ensures PostRumorSpec(schools, rumors, schoolId, classField, content, now) == (Err(InvalidInput), rumors)
  {
  }

  /**
   * A post succeeds exactly when it passes the validator, names an approved school (never a
   * college) and fits the schema; it then stores one thread with the class, the trimmed
   * content and zero counters, and otherwise changes nothing.
   */
  lemma PostRumorOutcome(schools: Table<Institution>, rumors: Table<RumorModel.Rumor>, schoolId: Id,
                         classField: string, content: string, now: Time)
    requires rumors.Valid()
    ensures var (r, rumors') := PostRumorSpec(schools, rumors, schoolId, classField, content, now);
      && rumors'.Valid()
      && (r.Ok? <==>
            && Validation.ValidateRumor(classField, content).Ok?
            && GetSchool(schools, schoolId).Ok? && schools.docs[schoolId].kind == School
            && RumorModel.ContentWithinSchema(Trim(content)))
      && (r.Err? ==> rumors' == rumors)
      && (Validation.ValidateRumor(classField, content).Ok? && GetSchool(schools, schoolId).Err? ==> r == Err(NotFound))
      && (r.Ok? ==>
            && r.value !in rumors.docs
            && rumors'.docs == rumors.docs[r.value := RumorModel.Rumor(schoolId, Some(classField), Trim(content), now, 0, 0)])
  {
    var v := Validation.ValidateRumor(classField, content);
    if v.Err? {
      assert PostRumorSpec(schools, rumors, schoolId, classField, content, now) == (Err(v.error), rumors);
    } else if GetSchool(schools, schoolId).Err? {
      assert PostRumorSpec(schools, rumors, schoolId, classField, content, now) == (Err(NotFound), rumors);
    } else if schools.docs[schoolId].kind == School {
      var thread := RumorModel.Rumor(schoolId, Some(classField), Trim(content), now, 0, 0);
      PostRumorSchoolBranch(schools, rumors, schoolId, classField, content, now);
      RumorModel.CreateSpecOutcome(rumors, thread);
    } else {
      PostRumorCollegeBranch(schools, rumors, schoolId, classField, content, now);
    }
  }

  /** Past the validator, under an approved school: the thread is built with the class and saved. */
  lemma PostRumorSchoolBranch(schools: Table<Institution>, rumors: Table<RumorModel.Rumor>, schoolId: Id,
                              classField: string, content: string, now: Time)
    requires Validation.ValidateRumor(classField, content).Ok? && GetSchool(schools, schoolId).Ok?
    requires schools.docs[schoolId].kind == School
    ensures PostRumorSpec(schools, rumors, schoolId, classField, content, now)
      == RumorModel.CreateSpec(rumors, RumorModel.Rumor(schoolId, Some(classField), Trim(content), now, 0, 0))
  {
    TrimIdempotent(content);
  }

  /** Past the validator, under an approved college: the thread is built without a class and the save fails. */
  lemma PostRumorCollegeBranch(schools: Table<Institution>, rumors: Table<RumorModel.Rumor>, schoolId: Id,
                               classField: string, content: string, now: Time)
    requires Validation.ValidateRumor(classField, content).Ok? && GetSchool(schools, schoolId).Ok?
    requires schools.docs[schoolId].kind == College
    ensures PostRumorSpec(schools, rumors, schoolId, classField, content, now) == (Err(Unexpected), rumors)
  {
    var thread := RumorModel.NewRumor(schoolId, None, Trim(content), now);
    assert PostRumorSpec(schools, rumors, schoolId, classField, content, now) == RumorModel.CreateSpec(rumors, thread);
    assert !RumorModel.SchemaValid(thread);
  }

  /** As written, a thread under an approved college always fails at the save. */
  lemma CollegePostNeverSucceeds(schools: Table<Institution>, rumors: Table<RumorModel.Rumor>, schoolId: Id,
                                 classField: string, content: string, now: Time)
    requires schoolId in schools.docs && schools.docs[schoolId].kind == College
    ensures PostRumorSpec(schools, rumors, schoolId, classField, content, now).0.Err?
    ensures PostRumorSpec(schools, rumors, schoolId, classField, content, now).1 == rumors
  {
    var v := Validation.ValidateRumor(classField, content);
    if v.Err? {
      assert PostRumorSpec(schools, rumors, schoolId, classField, content, now) == (Err(v.error), rumors);
    } else if GetSchool(schools, schoolId).Err? {
      assert PostRumorSpec(schools, rumors, schoolId, classField, content, now) == (Err(NotFound), rumors);
    } else {
      PostRumorCollegeBranch(schools, rumors, schoolId, classField, content, now);
    }
  }

  lemma PostRumorPreserves(schools: Table<Institution>, rumors: Table<RumorModel.Rumor>, ledger: VoteModel.Ledger,
                           schoolId: Id, classField: string, content: string, now: Time)
    requires Integrity.Invariant(schools, rumors, ledger)
    ensures Integrity.Invariant(schools, PostRumorSpec(schools, rumors, schoolId, classField, content, now).1, ledger)
  {
    var v := Validation.ValidateRumor(classField, content);
    if v.Err? {
      assert PostRumorSpec(schools, rumors, schoolId, classField, content, now) == (Err(v.error), rumors);
    } else if GetSchool(schools, schoolId).Err? {
      assert PostRumorSpec(schools, rumors, schoolId, classField, content, now) == (Err(NotFound), rumors);
    } else if schools.docs[schoolId].kind == School {
      var thread := RumorModel.Rumor(schoolId, Some(classField), Trim(content), now, 0, 0);
      PostRumorSchoolBranch(schools, rumors, schoolId, classField, content, now);
      if RumorModel.SchemaValid(thread) {
        Integrity.InsertThreadPreserves(schools, rumors, ledger, thread);
      }
    } else {
      PostRumorCollegeBranch(schools, rumors, schoolId, classField, content, now);
    }
  }

  method PostRumor(schools: SchoolCollection, rumors: RumorModel.RumorCollection, schoolId: Id,
                   classField: string, content: string, now: Time)
    returns (r: Result<Id>)
    requires rumors.Valid()
    modifies rumors
    ensures rumors.Valid()
    ensures (r, rumors.table) == PostRumorSpec(schools.table, old(rumors.table), schoolId, classField, content, now)
  {
    var validated := Validation.ValidateRumor(classField, content);
    if validated.Err? {
      return Err(validated.error);
    }
    var (classLabel, trimmed) := validated.value;
    var institution := GetSchool(schools.table, schoolId);
    if institution.Err? {
      return Err(institution.error);
    }
    var classOption: Option<string> := None;
    if institution.value.kind == School {
      if classLabel == [] {
        return Err(InvalidInput);
      }
      classOption := Some(classLabel);
    }
    r := rumors.Create(RumorModel.NewRumor(schoolId, classOption, trimmed, now));
  }

  /** `POST /suggestions`: trimmed content of 10 to 500 UTF-16 units, then the save. */
  function PostSuggestionSpec(t: Table<SuggestionModel.Suggestion>, content: string, now: Time)
    : (Result<Id>, Table<SuggestionModel.Suggestion>)
  {
    if content == [] || Utf16Length(Trim(content)) < 10 || Utf16Length(Trim(content)) > 500 then (Err(InvalidInput), t)
    else SuggestionModel.CreateSpec(t, SuggestionModel.NewSuggestion(Trim(content), now))
  }

  /** The route's bounds are the schema's, so an accepted suggestion is always stored, trimmed. */
  lemma PostSuggestionOutcome(t: Table<SuggestionModel.Suggestion>, content: string, now: Time)
    requires t.Valid()
    ensures var (r, t') := PostSuggestionSpec(t, content, now);
      && t'.Valid()
      && (r.Ok? <==> 10 <= Utf16Length(Trim(content)) <= 500)
      && (r.Err? ==> r.error == InvalidInput && t' == t)
      && (r.Ok? ==> r.value !in t.docs && t'.docs == t.docs[r.value := SuggestionModel.Suggestion(Trim(content), now)])
  {
    TrimIdempotent(content);
  }

  method PostSuggestion(suggestions: SuggestionModel.SuggestionCollection, content: string, now: Time)
    returns (r: Result<Id>)
    requires suggestions.Valid()
    modifies suggestions
    ensures suggestions.Valid()
    ensures (r, suggestions.table) == PostSuggestionSpec(old(suggestions.table), content, now)
  {
    var trimmed := Trim(content);
    if content == [] || Utf16Length(trimmed) < 10 || Utf16Length(trimmed) > 500 {
      return Err(InvalidInput);
    }
    r := suggestions.Create(SuggestionModel.NewSuggestion(trimmed, now));
  }

  /** `GET /announcement`: the singleton, shown only when active and non-empty. */
  function PublicAnnouncementSpec(docs: seq<AnnouncementModel.Announcement>, now: Time)
    : (Option<AnnouncementModel.Announcement>, seq<AnnouncementModel.Announcement>)
  {
    var (a, docs') := AnnouncementModel.GetSpec(docs, now);
    (if a.isActive && a.content != [] then Some(a) else None, docs')
  }

  /**
   * After a successful update with some text, the public route shows the trimmed text
   * exactly when it is non-empty, and shows nothing on a board never updated.
   */
  lemma PublicAfterUpdate(docs: seq<AnnouncementModel.Announcement>, content: string, now: Time, later: Time)
    requires |docs| <= 1
    ensures PublicAnnouncementSpec([], now).0.None?
    ensures var (r, docs') := AnnouncementModel.UpdateSpec(docs, content, now);
      var shown := PublicAnnouncementSpec(docs', later).0;
      r.Ok? ==> && (shown.Some? <==> Trim(content) != [])
                && (shown.Some? ==> shown.value.content == Trim(content))
  {
    AnnouncementModel.UpdateEffect(docs, content, now);
  }

  method PublicAnnouncement(announcements: AnnouncementModel.AnnouncementCollection, now: Time)
    returns (shown: Option<AnnouncementModel.Announcement>)
    requires announcements.Valid()
    modifies announcements
    ensures announcements.Valid()
    ensures (shown, announcements.docs) == PublicAnnouncementSpec(old(announcements.docs), now)
  {
    var a := announcements.GetAnnouncement(now);
    if a.isActive && a.content != [] {
      shown := Some(a);
    } else {
      shown := None;
    }
  }
}
