/**
 * The School model: an institution (a school or a college), its schema bounds, and the
 * pre-save hook that derives the class list of an approved record.
 */
module SchoolModel {
  import opened Wrappers
  import opened JsString
  import opened Store

  datatype InstitutionType = School | College

  datatype Status = Pending | Approved | Rejected

  /** The class labels a school offers, in the order the source lists them. */
  const AllClasses: seq<string> := ["7", "8", "9", "10", "11", "12"]

  predicate IsClassLabel(c: string) {
    c in AllClasses
  }

  datatype Institution = Institution(
    name: string,
    city: string,
    kind: InstitutionType,
    status: Status,
    classes: seq<string>,
    createdAt: Time,
    approvedAt: Option<Time>)

  /** The stored name is trimmed by the schema's setter; it must be 3 to 39 UTF-16 units. */
  predicate NameWithinSchema(name: string) {
    3 <= Utf16Length(name) <= 39
  }

  /** The stored city is trimmed by the schema's setter; it must be 3 to 14 UTF-16 units. */
  predicate CityWithinSchema(city: string) {
    3 <= Utf16Length(city) <= 14
  }

  /**
   * What mongoose validation checks before a save. `type` and `status` are enums and the
   * datatype admits only their values; `required` rejects the empty name, which the
   * minimum length already excludes.
   */
  predicate SchemaValid(s: Institution) {
    && NameWithinSchema(s.name)
    && CityWithinSchema(s.city)
    && forall i :: 0 <= i < |s.classes| ==> IsClassLabel(s.classes[i])
  }

  /** For the two class lists the routes write, validity is a matter of the name and city alone. */
  lemma SchemaValidByFields(s: Institution)
    requires s.classes == [] || s.classes == AllClasses
    ensures SchemaValid(s) <==> NameWithinSchema(s.name) && CityWithinSchema(s.city)
  {
  }

  /** The class-list invariant: an approved school offers every class, any other record none. */
  predicate ClassRule(s: Institution) {
    if s.kind == School && s.status == Approved then s.classes == AllClasses else s.classes == []
  }

  /** `new School({...})`: the setters trim name and city, and `createdAt` is the current time. */
  function NewInstitution(
    name: string, city: string, kind: InstitutionType, status: Status,
    classes: seq<string>, approvedAt: Option<Time>, now: Time): Institution
  {
    Institution(Trim(name), Trim(city), kind, status, classes, now, approvedAt)
  }

  /** The pre-save hook, as a function of the document before and after it runs. */
  function PreSaveHook(s: Institution, now: Time): Institution {
    if s.status == Approved && s.kind == School && |s.classes| == 0 then
      s.(classes := AllClasses, approvedAt := Some(now))
    else if s.status == Approved && s.kind == College then
      s.(classes := [], approvedAt := Some(now))
    else
      s
  }

  /**
   * The hook touches only `classes` and `approvedAt`; it leaves records that are not
   * approved, and approved schools that already list classes, exactly as they were.
   */
  lemma PreSaveHookFrame(s: Institution, now: Time)
    ensures var r := PreSaveHook(s, now);
      && r.name == s.name && r.city == s.city && r.kind == s.kind && r.status == s.status
      && r.createdAt == s.createdAt
      && (s.status != Approved ==> r == s)
      && (s.status == Approved && s.kind == School && s.classes != [] ==> r == s)
      && (r != s ==> r.approvedAt == Some(now))
  {
  }

  /**
   * After the hook an approved college lists no class and an approved school lists a
   * non-empty set of valid labels; running the hook again changes nothing.
   */
  lemma PreSaveHookApproved(s: Institution, now: Time)
    requires s.status == Approved
    requires forall i :: 0 <= i < |s.classes| ==> IsClassLabel(s.classes[i])
    ensures var r := PreSaveHook(s, now);
      && (s.kind == College ==> r.classes == [] && r.approvedAt == Some(now))
      && (s.kind == School ==> r.classes != [] && forall i :: 0 <= i < |r.classes| ==> IsClassLabel(r.classes[i]))
  {
  }

  lemma PreSaveHookIdempotent(s: Institution, now: Time)
    ensures PreSaveHook(PreSaveHook(s, now), now) == PreSaveHook(s, now)
  {
  }

  /** A record whose classes are empty or already full obeys the class rule after the hook. */
  lemma PreSaveHookClassRule(s: Institution, now: Time)
    requires s.status != Approved ==> s.classes == []
    requires s.status == Approved && s.kind == School ==> s.classes == [] || s.classes == AllClasses
    ensures ClassRule(PreSaveHook(s, now))
  {
  }

  /** A loaded or newly built School document; the hook updates its fields in place. */
  class SchoolDocument {
    /** The id under which the document is stored; `None` while it is new. */
    var key: Option<Id>
    var name: string
    var city: string
    var kind: InstitutionType
    var status: Status
    var classes: seq<string>
    var createdAt: Time
    var approvedAt: Option<Time>

    function Snapshot(): Institution
      reads this
    {
      Institution(name, city, kind, status, classes, createdAt, approvedAt)
    }

    constructor New(
      name: string, city: string, kind: InstitutionType, status: Status,
      classes: seq<string>, approvedAt: Option<Time>, now: Time)
      ensures key.None?
      ensures Snapshot() == NewInstitution(name, city, kind, status, classes, approvedAt, now)
    {
      this.key := None;
      this.name := Trim(name);
      this.city := Trim(city);
      this.kind := kind;
      this.status := status;
      this.classes := classes;
      this.createdAt := now;
      this.approvedAt := approvedAt;
    }

    constructor Hydrate(id: Id, record: Institution)
      ensures key == Some(id) && Snapshot() == record
    {
      this.key := Some(id);
      this.name := record.name;
      this.city := record.city;
      this.kind := record.kind;
      this.status := record.status;
      this.classes := record.classes;
      this.createdAt := record.createdAt;
      this.approvedAt := record.approvedAt;
    }

    /** `schoolSchema.pre('save', ...)`. */
    method PreSave(now: Time)
      modifies this
      ensures key == old(key)
      ensures Snapshot() == PreSaveHook(old(Snapshot()), now)
    {
      if status == Approved && kind == School && |classes| == 0 {
        classes := AllClasses;
        approvedAt := Some(now);
      } else if status == Approved && kind == College {
        classes := [];
        approvedAt := Some(now);
      }
    }
  }

  predicate AnyMatch(t: Table<Institution>, matches: Institution -> bool) {
    exists id :: id in t.docs && matches(t.docs[id])
  }

  /**
   * `doc.save()`: validation runs first and a violation throws without writing; then the
   * pre-save hook; then a new document is inserted, or a loaded one overwritten (a loaded
   * document whose record has vanished throws).
   */
  function SaveSpec(t: Table<Institution>, key: Option<Id>, doc: Institution, now: Time): (Result<Id>, Table<Institution>) {
    if !SchemaValid(doc) then (Err(Unexpected), t)
    else match key
      case None => (Ok(t.nextId), t.Insert(PreSaveHook(doc, now)))
      case Some(id) =>
        if id in t.docs then (Ok(id), t.Put(id, PreSaveHook(doc, now))) else (Err(Unexpected), t)
  }

  /** A save either writes the hooked document under the returned id and nothing else, or writes nothing. */
  lemma SaveSpecOutcome(t: Table<Institution>, key: Option<Id>, doc: Institution, now: Time)
    requires t.Valid()
    ensures var (r, t') := SaveSpec(t, key, doc, now);
      && t'.Valid()
      && (r.Err? ==> t' == t && r.error == Unexpected)
      && (r.Ok? <==> SchemaValid(doc) && (key.None? || key.value in t.docs))
      && (r.Ok? ==> t'.docs == t.docs[r.value := PreSaveHook(doc, now)])
      && (r.Ok? && key.None? ==> r.value !in t.docs)
      && (r.Ok? && key.Some? ==> r.value == key.value)
  {
  }

  /** The School collection. */
  class SchoolCollection {
    var table: Table<Institution>

    ghost predicate Valid()
      reads this
    {
      table.Valid()
    }

    constructor ()
      ensures Valid() && table.docs == map[]
    {
      table := EmptyTable();
    }

    /** `School.findById(id)`: a fresh document object, or null. */
    method FindById(id: Id) returns (doc: SchoolDocument?)
      ensures doc == null <==> id !in table.docs
      ensures doc != null ==> fresh(doc) && doc.key == Some(id) && doc.Snapshot() == table.docs[id]
    {
      if id in table.docs {
        doc := new SchoolDocument.Hydrate(id, table.docs[id]);
      } else {
        doc := null;
      }
    }

    /** `School.findOne(query)`, reduced to whether some document satisfies the query. */
    method FindOne(matches: Institution -> bool) returns (found: bool)
      ensures found <==> AnyMatch(table, matches)
    {
      found := exists id | id in table.docs :: matches(table.docs[id]);
    }

    /**
     * `doc.save()`: the table ends as `SaveSpec` says. On success the document the handlers
     * reply with carries the id it is stored under and the hooked fields; on failure it is
     * untouched.
     */
    method Save(doc: SchoolDocument, now: Time) returns (r: Result<Id>)
      requires Valid()
      modifies this, doc
      ensures Valid()
      ensures (r, table) == SaveSpec(old(table), old(doc.key), old(doc.Snapshot()), now)
      ensures r.Ok? ==> doc.key == Some(r.value) && doc.Snapshot() == table.docs[r.value]
      ensures r.Err? ==> doc.key == old(doc.key) && doc.Snapshot() == old(doc.Snapshot())
    {
      if !SchemaValid(doc.Snapshot()) {
        return Err(Unexpected);
      }
      match doc.key {
        case None =>
          doc.PreSave(now);
          var id := table.nextId;
          table := table.Insert(doc.Snapshot());
          doc.key := Some(id);
          r := Ok(id);
        case Some(id) =>
          if id !in table.docs {
            return Err(Unexpected);
          }
          doc.PreSave(now);
          table := table.Put(id, doc.Snapshot());
          r := Ok(id);
      }
    }

    /**
     * `School.findByIdAndUpdate(id, {name, city}, {new: true})`: no validators and no
     * save hooks run on this path.
     */
    method FindByIdAndUpdate(id: Id, name: string, city: string) returns (updated: Option<Institution>)
      requires Valid()
      modifies this
      ensures Valid()
      ensures id !in old(table.docs) ==> updated.None? && table == old(table)
      ensures id in old(table.docs) ==>
        && updated == Some(old(table.docs[id]).(name := name, city := city))
        && table == old(table).Put(id, updated.value)
    {
      if id in table.docs {
        var record := table.docs[id].(name := name, city := city);
        table := table.Put(id, record);
        updated := Some(record);
      } else {
        updated := None;
      }
    }

    /** `School.findByIdAndDelete(id)`. */
    method FindByIdAndDelete(id: Id)
      requires Valid()
      modifies this
      ensures Valid()
      ensures table == old(table).Remove(id)
    {
      table := table.Remove(id);
    }
  }
}
