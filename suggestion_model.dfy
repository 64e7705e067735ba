/** The Suggestion model: anonymous feedback text with its schema bounds. */
module SuggestionModel {
  import opened Wrappers
  import opened JsString
  import opened Store

  datatype Suggestion = Suggestion(content: string, createdAt: Time)

  /** `new Suggestion({content})`: the setter trims, `createdAt` is the current time. */
  function NewSuggestion(content: string, now: Time): Suggestion {
    Suggestion(Trim(content), now)
  }

  /** Required, and 10 to 500 UTF-16 units once trimmed (the minimum excludes "" anyway). */
  predicate SchemaValid(s: Suggestion) {
    10 <= Utf16Length(s.content) <= 500
  }

  function CreateSpec(t: Table<Suggestion>, s: Suggestion): (Result<Id>, Table<Suggestion>) {
    if SchemaValid(s) then (Ok(t.nextId), t.Insert(s)) else (Err(Unexpected), t)
  }

  /** A new suggestion passes validation exactly when its trimmed content is 10 to 500 units long. */
  lemma NewSuggestionValid(content: string, now: Time)
    ensures SchemaValid(NewSuggestion(content, now)) <==> 10 <= Utf16Length(Trim(content)) <= 500
    ensures NewSuggestion(content, now).content == Trim(NewSuggestion(content, now).content)
  {
    TrimIdempotent(content);
  }

  class SuggestionCollection {
    var table: Table<Suggestion>

    ghost predicate Valid()
      reads this
    {
      table.Valid()
    }

    constructor ()
      ensures Valid() && table.docs == map[]
    {
      table := EmptyTable();
    }

    method FindById(id: Id) returns (s: Option<Suggestion>)
      ensures s.None? <==> id !in table.docs
      ensures s.Some? ==> s.value == table.docs[id]
    {
      if id in table.docs {
        s := Some(table.docs[id]);
      } else {
        s := None;
      }
    }

    /** `new Suggestion({...}).save()`. */
    method Create(s: Suggestion) returns (r: Result<Id>)
      requires Valid()
      modifies this
      ensures Valid()
      ensures (r, table) == CreateSpec(old(table), s)
    {
      if SchemaValid(s) {
        r := Ok(table.nextId);
        table := table.Insert(s);
      } else {
        r := Err(Unexpected);
      }
    }

    method FindByIdAndDelete(id: Id)
      requires Valid()
      modifies this
      ensures Valid()
      ensures table == old(table).Remove(id)
    {
      table := table.Remove(id);
    }
  }
}
