/**
 * The Vote model: one record per (thread, browser fingerprint), holding the kind of vote.
 * The unique index on that pair makes the collection a map from the pair to the kind.
 */
module VoteModel {
  import opened Wrappers
  import opened Store

  datatype VoteKind = Upvote | Downvote

  /** The wire spelling of a vote kind. */
  function KindName(k: VoteKind): string {
    match k
    case Upvote => "upvote"
    case Downvote => "downvote"
  }

  /** Membership in the list of accepted vote types, answered with the kind itself. */
  function ParseVoteKind(s: string): (k: Option<VoteKind>)
    ensures k.Some? <==> s == "upvote" || s == "downvote"
    ensures k.Some? ==> KindName(k.value) == s
  {
    if s == "upvote" then Some(Upvote)
    else if s == "downvote" then Some(Downvote)
    else None
  }

  lemma ParseKindName(k: VoteKind)
    ensures ParseVoteKind(KindName(k)) == Some(k)
  {
  }

  /** The pair the unique index covers. */
  datatype VoteKey = VoteKey(rumorId: Id, fingerprint: string)

  /** The vote records: because of the unique index, at most one kind per key. */
  type Ledger = map<VoteKey, VoteKind>

  /** `rumorId` is always present here; `userFingerprint` is required, which rejects "". */
  predicate SchemaValid(key: VoteKey) {
    key.fingerprint != []
  }

  /**
   * Saving a new vote: a validation error or a duplicate-key error of the unique index is
   * thrown, and the handler's catch answers it as a server error.
   */
  function CreateSpec(ledger: Ledger, key: VoteKey, kind: VoteKind): (Result<VoteKey>, Ledger) {
    if !SchemaValid(key) || key in ledger then (Err(Unexpected), ledger)
    else (Ok(key), ledger[key := kind])
  }

  /** A create never overwrites a record: a key already present keeps its kind. */
  lemma CreateNeverOverwrites(ledger: Ledger, key: VoteKey, kind: VoteKind)
    ensures var (r, ledger') := CreateSpec(ledger, key, kind);
      && (r.Ok? <==> key !in ledger && SchemaValid(key))
      && (forall k :: k in ledger ==> k in ledger' && ledger'[k] == ledger[k])
      && ledger'.Keys <= ledger.Keys + {key}
  {
  }

  class VoteCollection {
    var ledger: Ledger

    constructor ()
      ensures ledger == map[]
    {
      ledger := map[];
    }

    /** `Vote.findOne({rumorId, userFingerprint})`. */
    method FindOne(key: VoteKey) returns (kind: Option<VoteKind>)
      ensures kind.None? <==> key !in ledger
      ensures kind.Some? ==> kind.value == ledger[key]
    {
      if key in ledger {
        kind := Some(ledger[key]);
      } else {
        kind := None;
      }
    }

    /** `new Vote({...}).save()`. */
    method Create(key: VoteKey, kind: VoteKind) returns (r: Result<VoteKey>)
      modifies this
      ensures (r, ledger) == CreateSpec(old(ledger), key, kind)
    {
      if !SchemaValid(key) || key in ledger {
        r := Err(Unexpected);
      } else {
        ledger := ledger[key := kind];
        r := Ok(key);
      }
    }

    /** `existingVote.save()` after changing its kind; a vanished record throws. */
    method SetKind(key: VoteKey, kind: VoteKind) returns (r: Result<VoteKey>)
      modifies this
      ensures key in old(ledger) ==> r == Ok(key) && ledger == old(ledger)[key := kind]
      ensures key !in old(ledger) ==> r == Err(Unexpected) && ledger == old(ledger)
    {
      if key in ledger {
        ledger := ledger[key := kind];
        r := Ok(key);
      } else {
        r := Err(Unexpected);
      }
    }

    /** `Vote.deleteOne({_id})` on the record found for the key. */
    method DeleteOne(key: VoteKey)
      modifies this
      ensures ledger == old(ledger) - {key}
    {
      ledger := ledger - {key};
    }
  }
}
