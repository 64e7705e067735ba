/**
 * The Announcement model: a single site-wide banner. The collection is kept to at most one
 * document by the two statics that are the only writers.
 */
module AnnouncementModel {
  import opened Wrappers
  import opened JsString
  import opened Store

  datatype Announcement = Announcement(content: string, isActive: bool, updatedAt: Time)

  /** The content is trimmed by its setter and at most 200 UTF-16 units long. */
  predicate SchemaValid(a: Announcement) {
    Utf16Length(a.content) <= 200
  }

  /**
   * `getAnnouncement`: the first document, or a newly created one with empty content that
   * is not active.
   */
  function GetSpec(docs: seq<Announcement>, now: Time): (Announcement, seq<Announcement>) {
    if docs == [] then (Announcement("", false, now), [Announcement("", false, now)])
    else (docs[0], docs)
  }

  /**
   * `updateAnnouncement(content)`: the first document, or a new one, gets the trimmed
   * content, an `isActive` flag saying whether it is non-empty, and the current time; the
   * save fails validation when the trimmed content exceeds 200 units.
   */
  function UpdateSpec(docs: seq<Announcement>, content: string, now: Time): (Result<Announcement>, seq<Announcement>) {
    var a := Announcement(Trim(content), Utf16Length(Trim(content)) > 0, now);
    if !SchemaValid(a) then (Err(Unexpected), docs)
    else if docs == [] then (Ok(a), [a])
    else (Ok(a), docs[0 := a])
  }

  /**
   * `getAnnouncement` leaves exactly one document when there was at most one, returns the
   * existing one unchanged, and a second call creates nothing more.
   */
  lemma GetSingleton(docs: seq<Announcement>, now: Time, later: Time)
    requires |docs| <= 1
    ensures var (a, docs') := GetSpec(docs, now);
      && |docs'| == 1 && docs'[0] == a
      && (docs != [] ==> docs' == docs)
      && (docs == [] ==> a.content == "" && !a.isActive)
      && GetSpec(docs', later) == (a, docs')
  {
  }

  /**
   * `updateAnnouncement` keeps at most one document; on success the stored content is the
   * trimmed input and the document is active exactly when that content is non-empty.
   */
  lemma UpdateEffect(docs: seq<Announcement>, content: string, now: Time)
    requires |docs| <= 1
    ensures var (r, docs') := UpdateSpec(docs, content, now);
      && |docs'| <= 1
      && (r.Ok? <==> Utf16Length(Trim(content)) <= 200)
      && (r.Err? ==> docs' == docs)
      && (r.Ok? ==> docs' == [r.value] && r.value.content == Trim(content)
                    && (r.value.isActive <==> Trim(content) != []))
  {
  }

  class AnnouncementCollection {
    var docs: seq<Announcement>

    ghost predicate Valid()
      reads this
    {
      |docs| <= 1
    }

    constructor ()
      ensures Valid() && docs == []
    {
      docs := [];
    }

    method GetAnnouncement(now: Time) returns (a: Announcement)
      requires Valid()
      modifies this
      ensures Valid()
      ensures (a, docs) == GetSpec(old(docs), now)
    {
      if docs == [] {
        a := Announcement("", false, now);
        docs := [a];
      } else {
        a := docs[0];
      }
    }

    method UpdateAnnouncement(content: string, now: Time) returns (r: Result<Announcement>)
      requires Valid()
      modifies this
      ensures Valid()
      ensures (r, docs) == UpdateSpec(old(docs), content, now)
    {
      var trimmed := Trim(content);
      var a := Announcement(trimmed, Utf16Length(trimmed) > 0, now);
      if !SchemaValid(a) {
        return Err(Unexpected);
      }
      if docs == [] {
        docs := [a];
      } else {
        docs := docs[0 := a];
      }
      r := Ok(a);
    }
  }
}
