/**
 * The routes of `/api/admin`. Every route but the login sits behind `requireAdmin`, so each
 * specification first checks the authorization header.
 */
module AdminRoutes {
  import opened Wrappers
  import opened JsString
  import opened Store
  import opened SchoolModel
  import RumorModel
  import SuggestionModel
  import AnnouncementModel
  import VoteModel
  import Auth
  import Integrity
  import SchoolsRoutes
  import Validation

  predicate Authorized(authorization: Option<string>) {
    Auth.RequireAdmin(authorization).Next?
  }

  /** `GET /schools/pending`. */
  function ListPending(authorization: Option<string>, t: Table<Institution>): (r: Result<set<Id>>)
    ensures r.Err? <==> !Authorized(authorization)
    ensures r.Err? ==> r.error == Unauthorized
    ensures r.Ok? ==> forall id :: id in r.value <==> id in t.docs && t.docs[id].status == Pending
  {
    if !Authorized(authorization) then Err(Unauthorized)
    else Ok(set id | id in t.docs && t.docs[id].status == Pending)
  }

  /** `GET /schools`: every institution whatever its status. */
  function ListAll(authorization: Option<string>, t: Table<Institution>): (r: Result<set<Id>>)
    ensures r.Err? <==> !Authorized(authorization)
    ensures r.Ok? ==> r.value == t.docs.Keys
  {
    if !Authorized(authorization) then Err(Unauthorized) else Ok(t.docs.Keys)
  }

  /** The fields an approval sets before saving. */
  function ApprovedRecord(s: Institution, now: Time): Institution {
    s.(status := Approved, classes := if s.kind == School then AllClasses else [], approvedAt := Some(now))
  }

  /** The hook has nothing left to do on a record approved by the route. */
  lemma ApprovedRecordHook(s: Institution, now: Time)
    ensures PreSaveHook(ApprovedRecord(s, now), now) == ApprovedRecord(s, now)
    ensures ClassRule(ApprovedRecord(s, now))
    ensures SchemaValid(ApprovedRecord(s, now)) <==> NameWithinSchema(s.name) && CityWithinSchema(s.city)
  {
  }

  /** `PUT /schools/:id/approve`. */
  function ApproveSpec(authorization: Option<string>, t: Table<Institution>, id: Id, now: Time): (Result<Id>, Table<Institution>) {
    if !Authorized(authorization) then (Err(Unauthorized), t)
    else if id !in t.docs then (Err(NotFound), t)
    else if t.docs[id].status != Pending then (Err(InvalidState), t)
    else SaveSpec(t, Some(id), ApprovedRecord(t.docs[id], now), now)
  }

  /**
   * Approval fails with not-found for an unknown id and with invalid-state for a record
   * that is not pending, changing nothing; otherwise it marks the record approved at
   * `now` with the classes of its kind, provided the stored name and city still fit the
   * schema.
   */
  lemma {:induction false} ApproveOutcome(authorization: Option<string>, t: Table<Institution>, id: Id, now: Time)
    requires t.Valid()
    ensures var (r, t') := ApproveSpec(authorization, t, id, now);
      && t'.Valid()
      && (r.Err? ==> t' == t)
      && (Authorized(authorization) && id !in t.docs ==> r == Err(NotFound))
      && (Authorized(authorization) && id in t.docs && t.docs[id].status != Pending ==> r == Err(InvalidState))
      && (r.Ok? <==> Authorized(authorization) && id in t.docs && t.docs[id].status == Pending
                     && NameWithinSchema(t.docs[id].name) && CityWithinSchema(t.docs[id].city))
      && (r.Ok? ==>
            && r.value == id
            && t' == t.Put(id, t.docs[id].(status := Approved, approvedAt := Some(now),
                                           classes := if t.docs[id].kind == School then AllClasses else [])))
  {
    if Authorized(authorization) && id in t.docs && t.docs[id].status == Pending {
      ApprovedRecordHook(t.docs[id], now);
      SaveSpecOutcome(t, Some(id), ApprovedRecord(t.docs[id], now), now);
    }
  }

  lemma {:induction false} ApprovePreserves(authorization: Option<string>, schools: Table<Institution>,
                                            rumors: Table<RumorModel.Rumor>, ledger: VoteModel.Ledger, id: Id, now: Time)
    requires Integrity.Invariant(schools, rumors, ledger)
    ensures Integrity.Invariant(ApproveSpec(authorization, schools, id, now).1, rumors, ledger)
  {
    ApproveOutcome(authorization, schools, id, now);
    var (r, t') := ApproveSpec(authorization, schools, id, now);
    if r.Ok? {
      ApprovedRecordHook(schools.docs[id], now);
      Integrity.SchoolsChangePreserves(schools, t', rumors, ledger);
    }
  }

  method Approve(authorization: Option<string>, schools: SchoolCollection, id: Id, now: Time) returns (r: Result<Id>)
    requires schools.Valid()
    modifies schools
    ensures schools.Valid()
    ensures (r, schools.table) == ApproveSpec(authorization, old(schools.table), id, now)
  {
    if !Authorized(authorization) {
      return Err(Unauthorized);
    }
    var doc := schools.FindById(id);
    if doc == null {
      return Err(NotFound);
    }
    if doc.status != Pending {
      return Err(InvalidState);
    }
    doc.status := Approved;
    if doc.kind == School {
      doc.classes := AllClasses;
    } else {
      doc.classes := [];
    }
    doc.approvedAt := Some(now);
    r := schools.Save(doc, now);
  }

  /** `DELETE /schools/:id/reject`: a pending request is removed, not marked rejected. */
  function RejectSpec(authorization: Option<string>, t: Table<Institution>, id: Id): (Result<Id>, Table<Institution>) {
    if !Authorized(authorization) then (Err(Unauthorized), t)
    else if id !in t.docs then (Err(NotFound), t)
    else if t.docs[id].status != Pending then (Err(InvalidState), t)
    else (Ok(id), t.Remove(id))
  }

  /** Rejection has the preconditions of approval; on success the record is gone and nothing else changes. */
  lemma RejectOutcome(authorization: Option<string>, t: Table<Institution>, id: Id)
    ensures var (r, t') := RejectSpec(authorization, t, id);
      && (r.Err? ==> t' == t)
      && (r.Ok? <==> Authorized(authorization) && id in t.docs && t.docs[id].status == Pending)
      && (r.Err? <==> ApproveSpec(authorization, t, id, 0).0 in {Err(Unauthorized), Err(NotFound), Err(InvalidState)})
      && (r.Ok? ==> id !in t'.docs && forall other :: other in t.docs && other != id ==> other in t'.docs && t'.docs[other] == t.docs[other])
  {
    if Authorized(authorization) && id in t.docs && t.docs[id].status == Pending {
      var (a, _) := ApproveSpec(authorization, t, id, 0);
      assert a.Ok? || a == Err(Unexpected);
    }
  }

  /** No thread refers to a pending request, so removing one keeps the invariant. */
  lemma RejectPreserves(authorization: Option<string>, schools: Table<Institution>,
                        rumors: Table<RumorModel.Rumor>, ledger: VoteModel.Ledger, id: Id)
    requires Integrity.Invariant(schools, rumors, ledger)
    ensures Integrity.Invariant(RejectSpec(authorization, schools, id).1, rumors, ledger)
  {
    var (r, t') := RejectSpec(authorization, schools, id);
    if r.Ok? {
      Integrity.SchoolsChangePreserves(schools, t', rumors, ledger);
    }
  }

  method Reject(authorization: Option<string>, schools: SchoolCollection, id: Id) returns (r: Result<Id>)
    requires schools.Valid()
    modifies schools
    ensures schools.Valid()
    ensures (r, schools.table) == RejectSpec(authorization, old(schools.table), id)
  {
    if !Authorized(authorization) {
      return Err(Unauthorized);
    }
    var doc := schools.FindById(id);
    if doc == null {
      return Err(NotFound);
    }
    if doc.status != Pending {
      return Err(InvalidState);
    }
    schools.FindByIdAndDelete(id);
    r := Ok(id);
  }

  /** `DELETE /rumors/:id`: the thread goes; its vote records are left in place. */
  function DeleteRumorSpec(authorization: Option<string>, rumors: Table<RumorModel.Rumor>, id: Id)
    : (Result<Id>, Table<RumorModel.Rumor>)
  {
    if !Authorized(authorization) then (Err(Unauthorized), rumors)
    else if id !in rumors.docs then (Err(NotFound), rumors)
    else (Ok(id), rumors.Remove(id))
  }

  lemma DeleteRumorPreserves(authorization: Option<string>, schools: Table<Institution>,
                             rumors: Table<RumorModel.Rumor>, ledger: VoteModel.Ledger, id: Id)
    requires Integrity.Invariant(schools, rumors, ledger)
    ensures var (r, rumors') := DeleteRumorSpec(authorization, rumors, id);
      && (r.Ok? <==> Authorized(authorization) && id in rumors.docs)
      && (r.Err? ==> rumors' == rumors)
      && (r.Ok? ==> rumors'.docs == rumors.docs - {id} && rumors'.nextId == rumors.nextId)
      && Integrity.Invariant(schools, rumors', ledger)
  {
    var (r, rumors') := DeleteRumorSpec(authorization, rumors, id);
    Integrity.RemoveThreadsPreserves(schools, rumors, rumors', ledger);
  }

  method DeleteRumor(authorization: Option<string>, rumors: RumorModel.RumorCollection, id: Id) returns (r: Result<Id>)
    requires rumors.Valid()
    modifies rumors
    ensures rumors.Valid()
    ensures (r, rumors.table) == DeleteRumorSpec(authorization, old(rumors.table), id)
  {
    if !Authorized(authorization) {
      return Err(Unauthorized);
    }
    var found := rumors.FindById(id);
    if found.None? {
      return Err(NotFound);
    }
    rumors.FindByIdAndDelete(id);
    r := Ok(id);
  }

  /** `PUT /rumors/:id`: the content check comes before the lookup; only the trimmed content is written. */
  function EditRumorSpec(authorization: Option<string>, rumors: Table<RumorModel.Rumor>, id: Id, content: string)
    : (Result<RumorModel.Rumor>, Table<RumorModel.Rumor>)
  {
    if !Authorized(authorization) then (Err(Unauthorized), rumors)
    else if content == [] || Utf16Length(Trim(content)) < 10 || Utf16Length(Trim(content)) > 10000 then (Err(InvalidInput), rumors)
    else if id !in rumors.docs then (Err(NotFound), rumors)
    else
      var updated := rumors.docs[id].(content := Trim(content));
      (Ok(updated), rumors.Put(id, updated))
  }

  /**
   * Content whose trimmed length is outside 10..10000 is refused even for an unknown id;
   * an accepted edit replaces only the content, by its trimmed form, which fits the schema.
   */
  lemma EditRumorOutcome(authorization: Option<string>, rumors: Table<RumorModel.Rumor>, id: Id, content: string)
    ensures var (r, rumors') := EditRumorSpec(authorization, rumors, id, content);
      && (r.Err? ==> rumors' == rumors)
      && (Authorized(authorization) && !RumorModel.ContentWithinSchema(Trim(content)) ==> r == Err(InvalidInput))
      && (r.Ok? <==> Authorized(authorization) && RumorModel.ContentWithinSchema(Trim(content)) && id in rumors.docs)
      && (r.Ok? ==>
            && r.value.content == Trim(content) && RumorModel.ContentWithinSchema(r.value.content)
            && r.value.(content := rumors.docs[id].content) == rumors.docs[id]
            && rumors' == rumors.Put(id, r.value))
  {
  }

  lemma EditRumorPreserves(authorization: Option<string>, schools: Table<Institution>,
                           rumors: Table<RumorModel.Rumor>, ledger: VoteModel.Ledger, id: Id, content: string)
    requires Integrity.Invariant(schools, rumors, ledger)
    ensures Integrity.Invariant(schools, EditRumorSpec(authorization, rumors, id, content).1, ledger)
  {
    var (r, rumors') := EditRumorSpec(authorization, rumors, id, content);
    if r.Ok? {
      Integrity.ReplaceThreadPreserves(schools, rumors, ledger, id, r.value);
    }
  }

  method EditRumor(authorization: Option<string>, rumors: RumorModel.RumorCollection, id: Id, content: string)
    returns (r: Result<RumorModel.Rumor>)
    requires rumors.Valid()
    modifies rumors
    ensures rumors.Valid()
    ensures (r, rumors.table) == EditRumorSpec(authorization, old(rumors.table), id, content)
  {
    if !Authorized(authorization) {
      return Err(Unauthorized);
    }
    var trimmed := Trim(content);
    if content == [] || Utf16Length(trimmed) < 10 || Utf16Length(trimmed) > 10000 {
      return Err(InvalidInput);
    }
    var updated := rumors.FindByIdAndUpdate(id, trimmed);
    if updated.None? {
      return Err(NotFound);
    }
    r := Ok(updated.value);
  }

  /** `PUT /schools/:id`: both fields present, stored trimmed, with no schema validation. */
  function EditSchoolSpec(authorization: Option<string>, t: Table<Institution>, id: Id, name: string, city: string)
    : (Result<Institution>, Table<Institution>)
  {
    if !Authorized(authorization) then (Err(Unauthorized), t)
    else if name == [] || city == [] then (Err(InvalidInput), t)
    else if id !in t.docs then (Err(NotFound), t)
    else
      var updated := t.docs[id].(name := Trim(name), city := Trim(city));
      (Ok(updated), t.Put(id, updated))
  }

  lemma EditSchoolOutcome(authorization: Option<string>, t: Table<Institution>, id: Id, name: string, city: string)
    ensures var (r, t') := EditSchoolSpec(authorization, t, id, name, city);
      && (r.Err? ==> t' == t)
      && (r.Ok? <==> Authorized(authorization) && name != [] && city != [] && id in t.docs)
      && (r.Ok? ==>
            && r.value.name == Trim(name) && r.value.city == Trim(city)
            && r.value.(name := t.docs[id].name, city := t.docs[id].city) == t.docs[id]
            && t' == t.Put(id, r.value))
  {
  }

  /** Because no validator runs, a name of blanks is accepted and stored empty. */
  lemma EditSchoolStoresBlankName(authorization: Option<string>, t: Table<Institution>, id: Id, city: string)
    requires Authorized(authorization) && id in t.docs && city != []
    ensures var (r, t') := EditSchoolSpec(authorization, t, id, "  ", city);
      r.Ok? && t'.docs[id].name == [] && !NameWithinSchema(t'.docs[id].name)
  {
    TrimEmptyIffBlank("  ");
  }

  lemma EditSchoolPreserves(authorization: Option<string>, schools: Table<Institution>,
                            rumors: Table<RumorModel.Rumor>, ledger: VoteModel.Ledger, id: Id, name: string, city: string)
    requires Integrity.Invariant(schools, rumors, ledger)
    ensures Integrity.Invariant(EditSchoolSpec(authorization, schools, id, name, city).1, rumors, ledger)
  {
    var (r, t') := EditSchoolSpec(authorization, schools, id, name, city);
    if r.Ok? {
      Integrity.SchoolsChangePreserves(schools, t', rumors, ledger);
    }
  }

  method EditSchool(authorization: Option<string>, schools: SchoolCollection, id: Id, name: string, city: string)
    returns (r: Result<Institution>)
    requires schools.Valid()
    modifies schools
    ensures schools.Valid()
    ensures (r, schools.table) == EditSchoolSpec(authorization, old(schools.table), id, name, city)
  {
    if !Authorized(authorization) {
      return Err(Unauthorized);
    }
    if name == [] || city == [] {
      return Err(InvalidInput);
    }
    var updated := schools.FindByIdAndUpdate(id, Trim(name), Trim(city));
    if updated.None? {
      return Err(NotFound);
    }
    r := Ok(updated.value);
  }

  /** `DELETE /schools/:id`: first every thread of the institution, then the institution. */
  function DeleteSchoolSpec(authorization: Option<string>, schools: Table<Institution>, rumors: Table<RumorModel.Rumor>, id: Id)
    : (Result<Id>, Table<Institution>, Table<RumorModel.Rumor>)
  {
    if !Authorized(authorization) then (Err(Unauthorized), schools, rumors)
    else if id !in schools.docs then (Err(NotFound), schools, rumors)
    else (Ok(id), schools.Remove(id), RumorModel.WithoutSchool(rumors, id))
  }

  /** After a delete no thread refers to the id, and the other threads are all still there. */
  lemma DeleteSchoolCascade(authorization: Option<string>, schools: Table<Institution>,
                            rumors: Table<RumorModel.Rumor>, ledger: VoteModel.Ledger, id: Id)
    requires Integrity.Invariant(schools, rumors, ledger)
    ensures var (r, schools', rumors') := DeleteSchoolSpec(authorization, schools, rumors, id);
      && (r.Ok? <==> Authorized(authorization) && id in schools.docs)
      && (r.Err? ==> schools' == schools && rumors' == rumors)
      && (r.Ok? ==>
            && id !in schools'.docs
            && (forall t :: t in rumors'.docs ==> rumors'.docs[t].schoolId != id)
            && (forall t :: t in rumors.docs && rumors.docs[t].schoolId != id ==> t in rumors'.docs))
      && Integrity.Invariant(schools', rumors', ledger)
  {
    var (r, schools', rumors') := DeleteSchoolSpec(authorization, schools, rumors, id);
    if r.Ok? {
      Integrity.RemoveThreadsPreserves(schools, rumors, rumors', ledger);
      Integrity.SchoolsChangePreserves(schools, schools', rumors', ledger);
    }
  }

  method DeleteSchool(authorization: Option<string>, schools: SchoolCollection, rumors: RumorModel.RumorCollection, id: Id)
    returns (r: Result<Id>)
    requires schools.Valid() && rumors.Valid()
    modifies schools, rumors
    ensures schools.Valid() && rumors.Valid()
    ensures (r, schools.table, rumors.table) == DeleteSchoolSpec(authorization, old(schools.table), old(rumors.table), id)
  {
    if !Authorized(authorization) {
      return Err(Unauthorized);
    }
    var doc := schools.FindById(id);
    if doc == null {
      return Err(NotFound);
    }
    rumors.DeleteMany(id);
    schools.FindByIdAndDelete(id);
    r := Ok(id);
  }

  /**
   * `POST /schools`: name and city present, a known type, no duplicate for the raw
   * (untrimmed) text, then an approved record with the classes of its kind. No
   * `validateSchool` runs on this path.
   */
  function AdminCreateSpec(authorization: Option<string>, t: Table<Institution>, name: string, city: string,
                           typeField: Option<string>, now: Time)
    : (Result<Id>, Table<Institution>)
  {
    if !Authorized(authorization) then (Err(Unauthorized), t)
    else if name == [] || city == [] then (Err(InvalidInput), t)
    else
      var kind := SchoolsRoutes.ParseType(typeField);
      if kind.None? then (Err(InvalidInput), t)
      else if AnyMatch(t, SchoolsRoutes.DuplicateQuery(name, city, kind.value)) then (Err(Conflict), t)
      else
        var classes := if kind.value == School then AllClasses else [];
        SaveSpec(t, None, NewInstitution(Trim(name), Trim(city), kind.value, Approved, classes, Some(now), now), now)
  }

  /** The record an admin create stores. */
  function CreatedRecord(name: string, city: string, kind: InstitutionType, now: Time): (s: Institution)
    ensures ClassRule(s) && s.status == Approved && s.approvedAt == Some(now)
  {
    Institution(Trim(name), Trim(city), kind, Approved, if kind == School then AllClasses else [], now, Some(now))
  }

  /**
   * An admin create succeeds exactly when the fields are present, the type is known, nothing
   * matches the raw query and the trimmed fields fit the schema; it then inserts one
   * approved record, and otherwise changes nothing.
   */
  lemma {:induction false} AdminCreateOutcome(authorization: Option<string>, t: Table<Institution>, name: string, city: string,
                                              typeField: Option<string>, now: Time)
    requires t.Valid()
    ensures var (r, t') := AdminCreateSpec(authorization, t, name, city, typeField, now);
      && t'.Valid()
      && (r.Err? ==> t' == t)
      && (r.Ok? <==>
            && Authorized(authorization) && name != [] && city != [] && SchoolsRoutes.ParseType(typeField).Some?
            && !AnyMatch(t, SchoolsRoutes.DuplicateQuery(name, city, SchoolsRoutes.ParseType(typeField).value))
            && NameWithinSchema(Trim(name)) && CityWithinSchema(Trim(city)))
      && (r.Ok? ==> r.value == t.nextId && t' == t.Insert(CreatedRecord(name, city, SchoolsRoutes.ParseType(typeField).value, now)))
  {
    var kind := SchoolsRoutes.ParseType(typeField);
    if !Authorized(authorization) {
      assert AdminCreateSpec(authorization, t, name, city, typeField, now) == (Err(Unauthorized), t);
    } else if name == [] || city == [] {
      assert AdminCreateSpec(authorization, t, name, city, typeField, now) == (Err(InvalidInput), t);
    } else if kind.None? {
      assert AdminCreateSpec(authorization, t, name, city, typeField, now) == (Err(InvalidInput), t);
    } else if AnyMatch(t, SchoolsRoutes.DuplicateQuery(name, city, kind.value)) {
      assert AdminCreateSpec(authorization, t, name, city, typeField, now) == (Err(Conflict), t);
    } else {
      TrimIdempotent(name);
      TrimIdempotent(city);
      var classes := if kind.value == School then AllClasses else [];
      var doc := NewInstitution(Trim(name), Trim(city), kind.value, Approved, classes, Some(now), now);
      assert doc.name == Trim(name) && doc.city == Trim(city);
      CreatedHook(doc, name, city, kind.value, now);
      SchemaValidByFields(doc);
      assert AdminCreateSpec(authorization, t, name, city, typeField, now) == SaveSpec(t, None, doc, now);
      SaveSpecOutcome(t, None, doc, now);
    }
  }

  lemma CreatedHook(doc: Institution, name: string, city: string, kind: InstitutionType, now: Time)
    requires doc == Institution(Trim(name), Trim(city), kind, Approved, if kind == School then AllClasses else [], now, Some(now))
    ensures PreSaveHook(doc, now) == CreatedRecord(name, city, kind, now)
  {
  }

  lemma AdminCreatePreserves(authorization: Option<string>, schools: Table<Institution>, rumors: Table<RumorModel.Rumor>,
                             ledger: VoteModel.Ledger, name: string, city: string, typeField: Option<string>, now: Time)
    requires Integrity.Invariant(schools, rumors, ledger)
    ensures Integrity.Invariant(AdminCreateSpec(authorization, schools, name, city, typeField, now).1, rumors, ledger)
  {
    AdminCreateOutcome(authorization, schools, name, city, typeField, now);
    var (r, t') := AdminCreateSpec(authorization, schools, name, city, typeField, now);
    if r.Ok? {
      Integrity.InsertSchoolPreserves(schools, rumors, ledger, CreatedRecord(name, city, SchoolsRoutes.ParseType(typeField).value, now));
    }
  }

  /**
   * The duplicate query uses the untrimmed text while the record stores it trimmed, so the
   * same padded request succeeds twice on an empty store and leaves two records with the
   * same name and city.
   */
  lemma AdminCreatePaddedRepeats(authorization: Option<string>, t: Table<Institution>, core: string, city: string, now: Time)
    requires Authorized(authorization) && t.Valid() && t.docs == map[]
    requires core != [] && !IsWhitespace(core[0]) && !IsWhitespace(core[|core| - 1])
    requires NameWithinSchema(core) && CityWithinSchema(Trim(city))
    ensures var (r1, t1) := AdminCreateSpec(authorization, t, " " + core, city, None, now);
      var (r2, t2) := AdminCreateSpec(authorization, t1, " " + core, city, None, now);
      && r1.Ok? && r2.Ok? && r1.value != r2.value
      && t2.docs[r1.value].name == core && t2.docs[r2.value].name == core
      && t2.docs[r1.value].city == t2.docs[r2.value].city
  {
    var name := " " + core;
    LeadingSpaceTrimmed(core);
    var record := CreatedRecord(name, city, School, now);
    assert record.name == core;
    AdminCreateOverShorterNames(authorization, t, name, city, now);
    var t1 := t.Insert(record);
    assert t1.docs == map[t.nextId := record];
    AdminCreateOverShorterNames(authorization, t1, name, city, now);
  }

  lemma LeadingSpaceTrimmed(core: string)
    requires core != [] && !IsWhitespace(core[0]) && !IsWhitespace(core[|core| - 1])
    ensures Trim(" " + core) == core
  {
    assert AllWhitespace(" ");
    assert " " + core + [] == " " + core;
    TrimOfPadded(" ", core, []);
  }

  /**
   * No `validateSchool` runs on this path, so a name of 3 to 6 characters, which the
   * self-service request refuses, is stored by an admin create.
   */
  lemma AdminCreateBelowValidatorMinimum(authorization: Option<string>, t: Table<Institution>, name: string, city: string, now: Time)
    requires Authorized(authorization) && t.Valid() && t.docs == map[]
    requires 3 <= |name| < 7 && !IsWhitespace(name[0]) && !IsWhitespace(name[|name| - 1])
    requires forall k :: 0 <= k < |name| ==> name[k] as int <= 0xFFFF
    requires city != [] && CityWithinSchema(Trim(city))
    ensures AdminCreateSpec(authorization, t, name, city, None, now).0 == Ok(t.nextId)
    ensures Validation.ValidateSchool(name, city).Err?
  {
    TrimOfUnpadded(name);
    Utf16LengthBmp(name);
    AdminCreateOverShorterNames(authorization, t, name, city, now);
  }

  /** A raw name longer than every stored name matches none of them, so the create goes through. */
  lemma AdminCreateOverShorterNames(authorization: Option<string>, t: Table<Institution>, name: string, city: string, now: Time)
    requires Authorized(authorization) && t.Valid() && name != [] && city != []
    requires forall id :: id in t.docs ==> |t.docs[id].name| < |name|
    requires NameWithinSchema(Trim(name)) && CityWithinSchema(Trim(city))
    ensures var (r, t') := AdminCreateSpec(authorization, t, name, city, None, now);
      r == Ok(t.nextId) && t' == t.Insert(CreatedRecord(name, city, School, now))
  {
    forall id | id in t.docs
      ensures !SchoolsRoutes.DuplicateQuery(name, city, School)(t.docs[id])
    {
      NoMatchWhenLonger(name, t.docs[id].name);
    }
    AdminCreateOutcome(authorization, t, name, city, None, now);
  }

  method AdminCreate(authorization: Option<string>, schools: SchoolCollection, name: string, city: string,
                     typeField: Option<string>, now: Time)
    returns (r: Result<Id>)
    requires schools.Valid()
    modifies schools
    ensures schools.Valid()
    ensures (r, schools.table) == AdminCreateSpec(authorization, old(schools.table), name, city, typeField, now)
  {
    if !Authorized(authorization) {
      return Err(Unauthorized);
    }
    if name == [] || city == [] {
      return Err(InvalidInput);
    }
    var kind := SchoolsRoutes.ParseType(typeField);
    if kind.None? {
      return Err(InvalidInput);
    }
    var existing := schools.FindOne(SchoolsRoutes.DuplicateQuery(name, city, kind.value));
    if existing {
      return Err(Conflict);
    }
    var classes := if kind.value == School then AllClasses else [];
    var doc := new SchoolDocument.New(Trim(name), Trim(city), kind.value, Approved, classes, Some(now), now);
    r := schools.Save(doc, now);
  }

  /** `GET /schools/:id/threads`: every thread of an institution of any status. */
  function SchoolThreads(authorization: Option<string>, schools: Table<Institution>, rumors: Table<RumorModel.Rumor>, id: Id)
    : (r: Result<set<Id>>)
    ensures r.Ok? <==> Authorized(authorization) && id in schools.docs
    ensures r.Ok? ==> forall t :: t in r.value <==> t in rumors.docs && rumors.docs[t].schoolId == id
  {
    if !Authorized(authorization) then Err(Unauthorized)
    else if id !in schools.docs then Err(NotFound)
    else Ok(SchoolsRoutes.ListRumors(rumors, id, ""))
  }

  /** `GET /suggestions`. */
  function ListSuggestions(authorization: Option<string>, t: Table<SuggestionModel.Suggestion>): (r: Result<set<Id>>)
    ensures r.Err? <==> !Authorized(authorization)
    ensures r.Ok? ==> r.value == t.docs.Keys
  {
    if !Authorized(authorization) then Err(Unauthorized) else Ok(t.docs.Keys)
  }

  /** `DELETE /suggestions/:id`. */
  function DeleteSuggestionSpec(authorization: Option<string>, t: Table<SuggestionModel.Suggestion>, id: Id)
    : (Result<Id>, Table<SuggestionModel.Suggestion>)
  {
    if !Authorized(authorization) then (Err(Unauthorized), t)
    else if id !in t.docs then (Err(NotFound), t)
    else (Ok(id), t.Remove(id))
  }

  lemma DeleteSuggestionOutcome(authorization: Option<string>, t: Table<SuggestionModel.Suggestion>, id: Id)
    ensures var (r, t') := DeleteSuggestionSpec(authorization, t, id);
      && (r.Ok? <==> Authorized(authorization) && id in t.docs)
      && (r.Err? ==> t' == t)
      && (r.Ok? ==> t'.docs == t.docs - {id} && t'.nextId == t.nextId)
  {
  }

  method DeleteSuggestion(authorization: Option<string>, suggestions: SuggestionModel.SuggestionCollection, id: Id)
    returns (r: Result<Id>)
    requires suggestions.Valid()
    modifies suggestions
    ensures suggestions.Valid()
    ensures (r, suggestions.table) == DeleteSuggestionSpec(authorization, old(suggestions.table), id)
  {
    if !Authorized(authorization) {
      return Err(Unauthorized);
    }
    var found := suggestions.FindById(id);
    if found.None? {
      return Err(NotFound);
    }
    suggestions.FindByIdAndDelete(id);
    r := Ok(id);
  }

  /** `GET /announcement` (admin): the singleton, created if absent, whatever its state. */
  function GetAnnouncementSpec(authorization: Option<string>, docs: seq<AnnouncementModel.Announcement>, now: Time)
    : (Result<AnnouncementModel.Announcement>, seq<AnnouncementModel.Announcement>)
  {
    if !Authorized(authorization) then (Err(Unauthorized), docs)
    else
      var (a, docs') := AnnouncementModel.GetSpec(docs, now);
      (Ok(a), docs')
  }

  /** `PUT /announcement`: a missing or empty body content becomes "" (`content || ''`). */
  function UpdateAnnouncementSpec(authorization: Option<string>, docs: seq<AnnouncementModel.Announcement>,
                                  content: Option<string>, now: Time)
    : (Result<AnnouncementModel.Announcement>, seq<AnnouncementModel.Announcement>)
  {
    if !Authorized(authorization) then (Err(Unauthorized), docs)
    else AnnouncementModel.UpdateSpec(docs, if content.Some? then content.value else "", now)
  }

  /** A missing body content clears the announcement and deactivates it. */
  lemma UpdateWithoutContentClears(authorization: Option<string>, docs: seq<AnnouncementModel.Announcement>, now: Time)
    requires Authorized(authorization) && |docs| <= 1
    ensures var (r, docs') := UpdateAnnouncementSpec(authorization, docs, None, now);
      r.Ok? && docs' == [r.value] && r.value.content == [] && !r.value.isActive
  {
    AnnouncementModel.UpdateEffect(docs, "", now);
    TrimEmptyIffBlank("");
  }

  method GetAnnouncement(authorization: Option<string>, announcements: AnnouncementModel.AnnouncementCollection, now: Time)
    returns (r: Result<AnnouncementModel.Announcement>)
    requires announcements.Valid()
    modifies announcements
    ensures announcements.Valid()
    ensures (r, announcements.docs) == GetAnnouncementSpec(authorization, old(announcements.docs), now)
  {
    if !Authorized(authorization) {
      return Err(Unauthorized);
    }
    var a := announcements.GetAnnouncement(now);
    r := Ok(a);
  }

  method UpdateAnnouncement(authorization: Option<string>, announcements: AnnouncementModel.AnnouncementCollection,
                            content: Option<string>, now: Time)
    returns (r: Result<AnnouncementModel.Announcement>)
    requires announcements.Valid()
    modifies announcements
    ensures announcements.Valid()
    ensures (r, announcements.docs) == UpdateAnnouncementSpec(authorization, old(announcements.docs), content, now)
  {
    if !Authorized(authorization) {
      return Err(Unauthorized);
    }
    r := announcements.UpdateAnnouncement(if content.Some? then content.value else "", now);
  }

  /** Without the session token every admin route answers 401 and changes nothing. */
  lemma RoutesRequireToken(authorization: Option<string>, schools: Table<Institution>, rumors: Table<RumorModel.Rumor>,
                           suggestions: Table<SuggestionModel.Suggestion>, docs: seq<AnnouncementModel.Announcement>,
                           id: Id, name: string, city: string, typeField: Option<string>, content: string, now: Time)
    requires authorization != Some(Auth.LoginToken)
    ensures ListPending(authorization, schools) == Err(Unauthorized)
    ensures ListAll(authorization, schools) == Err(Unauthorized)
    ensures ApproveSpec(authorization, schools, id, now) == (Err(Unauthorized), schools)
    ensures RejectSpec(authorization, schools, id) == (Err(Unauthorized), schools)
    ensures DeleteRumorSpec(authorization, rumors, id) == (Err(Unauthorized), rumors)
    ensures EditRumorSpec(authorization, rumors, id, content) == (Err(Unauthorized), rumors)
    ensures EditSchoolSpec(authorization, schools, id, name, city) == (Err(Unauthorized), schools)
    ensures DeleteSchoolSpec(authorization, schools, rumors, id) == (Err(Unauthorized), schools, rumors)
    ensures AdminCreateSpec(authorization, schools, name, city, typeField, now) == (Err(Unauthorized), schools)
    ensures SchoolThreads(authorization, schools, rumors, id) == Err(Unauthorized)
    ensures ListSuggestions(authorization, suggestions) == Err(Unauthorized)
    ensures DeleteSuggestionSpec(authorization, suggestions, id) == (Err(Unauthorized), suggestions)
    ensures GetAnnouncementSpec(authorization, docs, now) == (Err(Unauthorized), docs)
    ensures UpdateAnnouncementSpec(authorization, docs, Some(content), now) == (Err(Unauthorized), docs)
  {
  }
}
