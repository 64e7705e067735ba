/**
 * The Rumor model: a discussion thread posted under an institution, with the schema's
 * bounds and the collection operations the route handlers use.
 */
module RumorModel {
  import opened Wrappers
  import opened JsString
  import opened Store
  import SchoolModel

  /**
   * A thread. `classLabel` is the schema's `class` path (absent when a handler leaves it
   * unset). `upvotes` and `downvotes` are the counters the vote handler maintains; the
   * schema declares no such paths, so they are modelled as the handler intends them.
   */
  datatype Rumor = Rumor(
    schoolId: Id,
    classLabel: Option<string>,
    content: string,
    createdAt: Time,
    upvotes: nat,
    downvotes: nat)

  /** `new Rumor({...})`: the setter trims the content, `createdAt` is the current time, the counters start at 0. */
  function NewRumor(schoolId: Id, classLabel: Option<string>, content: string, now: Time): Rumor {
    Rumor(schoolId, classLabel, Trim(content), now, 0, 0)
  }

  /** Content bounds of the schema, in UTF-16 units of the trimmed value. */
  predicate ContentWithinSchema(content: string) {
    10 <= Utf16Length(content) <= 10000
  }

  /**
   * What validation checks before a save: the class is present and one of the labels, and
   * the content fits. `schoolId` and `createdAt` are always present in this model.
   */
  predicate SchemaValid(r: Rumor) {
    && r.classLabel.Some?
    && SchoolModel.IsClassLabel(r.classLabel.value)
    && ContentWithinSchema(r.content)
  }

  /** Saving a new thread: validation first, then an insert under a fresh id. */
  function CreateSpec(t: Table<Rumor>, r: Rumor): (Result<Id>, Table<Rumor>) {
    if SchemaValid(r) then (Ok(t.nextId), t.Insert(r)) else (Err(Unexpected), t)
  }

  /** Saving a loaded thread: validation first, then an overwrite (a vanished record throws). */
  function SaveSpec(t: Table<Rumor>, id: Id, r: Rumor): (Result<Id>, Table<Rumor>) {
    if SchemaValid(r) && id in t.docs then (Ok(id), t.Put(id, r)) else (Err(Unexpected), t)
  }

  /** `Rumor.deleteMany({schoolId})`: the table without the threads of one institution. */
  function WithoutSchool(t: Table<Rumor>, schoolId: Id): (t': Table<Rumor>)
    ensures t'.nextId == t.nextId
    ensures t.Valid() ==> t'.Valid()
    ensures forall id :: id in t'.docs ==> id in t.docs && t'.docs[id] == t.docs[id]
    ensures forall id :: id in t.docs ==> (id in t'.docs <==> t.docs[id].schoolId != schoolId)
  {
    Table(map id | id in t.docs && t.docs[id].schoolId != schoolId :: t.docs[id], t.nextId)
  }

  /** A successful create stores exactly the given, valid thread under a new id. */
  lemma CreateSpecOutcome(t: Table<Rumor>, r: Rumor)
    requires t.Valid()
    ensures var (res, t') := CreateSpec(t, r);
      && t'.Valid()
      && (res.Ok? <==> SchemaValid(r))
      && (res.Ok? ==> res.value !in t.docs && t'.docs == t.docs[res.value := r])
      && (res.Err? ==> t' == t)
  {
  }

  class RumorCollection {
    var table: Table<Rumor>

    ghost predicate Valid()
      reads this
    {
      table.Valid()
    }

    constructor ()
      ensures Valid() && table.docs == map[]
    {
      table := EmptyTable();
    }

    /** `Rumor.findById(id)`. */
    method FindById(id: Id) returns (r: Option<Rumor>)
      ensures r.None? <==> id !in table.docs
      ensures r.Some? ==> r.value == table.docs[id]
    {
      if id in table.docs {
        r := Some(table.docs[id]);
      } else {
        r := None;
      }
    }

    /** `new Rumor({...}).save()`. */
    method Create(r: Rumor) returns (res: Result<Id>)
      requires Valid()
      modifies this
      ensures Valid()
      ensures (res, table) == CreateSpec(old(table), r)
    {
      if SchemaValid(r) {
        res := Ok(table.nextId);
        table := table.Insert(r);
      } else {
        res := Err(Unexpected);
      }
    }

    /** `rumor.save()` on a loaded thread. */
    method Save(id: Id, r: Rumor) returns (res: Result<Id>)
      requires Valid()
      modifies this
      ensures Valid()
      ensures (res, table) == SaveSpec(old(table), id, r)
    {
      if SchemaValid(r) && id in table.docs {
        table := table.Put(id, r);
        res := Ok(id);
      } else {
        res := Err(Unexpected);
      }
    }

    /** `Rumor.findByIdAndUpdate(id, {content}, {new: true})`: no validators run on this path. */
    method FindByIdAndUpdate(id: Id, content: string) returns (updated: Option<Rumor>)
      requires Valid()
      modifies this
      ensures Valid()
      ensures id !in old(table.docs) ==> updated.None? && table == old(table)
      ensures id in old(table.docs) ==>
        && updated == Some(old(table.docs[id]).(content := content))
        && table == old(table).Put(id, updated.value)
    {
      if id in table.docs {
        var record := table.docs[id].(content := content);
        table := table.Put(id, record);
        updated := Some(record);
      } else {
        updated := None;
      }
    }

    /** `Rumor.findByIdAndDelete(id)`. */
    method FindByIdAndDelete(id: Id)
      requires Valid()
      modifies this
      ensures Valid()
      ensures table == old(table).Remove(id)
    {
      table := table.Remove(id);
    }

    /** `Rumor.deleteMany({schoolId})`. */
    method DeleteMany(schoolId: Id)
      requires Valid()
      modifies this
      ensures Valid()
      ensures table == WithoutSchool(old(table), schoolId)
    {
      table := WithoutSchool(table, schoolId);
    }
  }
}
