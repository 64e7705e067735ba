/**
 * The vote state machine of `POST /rumors/:rumorId/vote` and the lookup of
 * `GET /rumors/:rumorId/vote/:userFingerprint`: a ledger of vote records keyed by
 * (thread, fingerprint) beside denormalised counters on every thread.
 */
module Voting {
  import opened Wrappers
  import opened Store
  import opened VoteModel
  import opened RumorModel

  /** The `data` of a successful reply. */
  datatype VoteReply = VoteReply(upvotes: nat, downvotes: nat, userVote: Option<VoteKind>)

  /** `Math.max(0, n - 1)`. */
  function ClampDec(n: nat): nat {
    if n == 0 then 0 else n - 1
  }

  /** The counter of one kind on a thread. */
  function Count(r: Rumor, kind: VoteKind): nat {
    match kind
    case Upvote => r.upvotes
    case Downvote => r.downvotes
  }

  /** The thread with the counter of `kind` one higher. */
  function Increment(r: Rumor, kind: VoteKind): (r': Rumor)
    ensures Count(r', kind) == Count(r, kind) + 1
    ensures forall other :: other != kind ==> Count(r', other) == Count(r, other)
    ensures r'.(upvotes := r.upvotes, downvotes := r.downvotes) == r
  {
    match kind
    case Upvote => r.(upvotes := r.upvotes + 1)
    case Downvote => r.(downvotes := r.downvotes + 1)
  }

  /** The thread with the counter of `kind` one lower, but never below 0. */
  function Decrement(r: Rumor, kind: VoteKind): (r': Rumor)
    ensures Count(r', kind) == ClampDec(Count(r, kind))
    ensures forall other :: other != kind ==> Count(r', other) == Count(r, other)
    ensures r'.(upvotes := r.upvotes, downvotes := r.downvotes) == r
  {
    match kind
    case Upvote => r.(upvotes := ClampDec(r.upvotes))
    case Downvote => r.(downvotes := ClampDec(r.downvotes))
  }

  /** The vote records of one kind on one thread. */
  function VotesFor(ledger: Ledger, rumorId: Id, kind: VoteKind): set<VoteKey> {
    set k | k in ledger && k.rumorId == rumorId && ledger[k] == kind
  }

  function Tally(ledger: Ledger, rumorId: Id, kind: VoteKind): nat {
    |VotesFor(ledger, rumorId, kind)|
  }

  /**
   * The intended relation between the two stores: every vote refers to an id already
   * handed out, and each counter of each thread is the number of its records of that kind.
   */
  ghost predicate Consistent(rumors: Table<Rumor>, ledger: Ledger) {
    && (forall k :: k in ledger ==> k.rumorId < rumors.nextId)
    && (forall id, kind :: id in rumors.docs ==> Count(rumors.docs[id], kind) == Tally(ledger, id, kind))
  }

  /** The thread's counters after the ledger write, and the `userVote` reported. */
  function Step(rumor: Rumor, previous: Option<VoteKind>, kind: VoteKind): (Rumor, Option<VoteKind>) {
    match previous
    case None => (Increment(rumor, kind), Some(kind))
    case Some(prior) =>
      if prior == kind then (Decrement(rumor, kind), None)
      else (Increment(Decrement(rumor, prior), kind), Some(kind))
  }

  /** The ledger after the vote record is created, deleted or rewritten. */
  function LedgerStep(ledger: Ledger, key: VoteKey, kind: VoteKind): Ledger {
    if key in ledger && ledger[key] == kind then ledger - {key} else ledger[key := kind]
  }

  /**
   * The whole request: the two input checks, the thread lookup, then the ledger write
   * followed by the counter save. The write to the ledger happens first, so a failing
   * counter save leaves the new ledger beside the old counters.
   */
  function CastSpec(rumors: Table<Rumor>, ledger: Ledger, rumorId: Id, voteType: string, fingerprint: string)
    : (Result<VoteReply>, Table<Rumor>, Ledger)
  {
    match ParseVoteKind(voteType)
    case None => (Err(InvalidInput), rumors, ledger)
    case Some(kind) =>
      if fingerprint == [] then (Err(InvalidInput), rumors, ledger)
      else if rumorId !in rumors.docs then (Err(NotFound), rumors, ledger)
      else
        var key := VoteKey(rumorId, fingerprint);
        var previous := if key in ledger then Some(ledger[key]) else None;
        var (rumor', userVote) := Step(rumors.docs[rumorId], previous, kind);
        var ledger' := LedgerStep(ledger, key, kind);
        var (saved, rumors') := RumorModel.SaveSpec(rumors, rumorId, rumor');
        if saved.Ok? then (Ok(VoteReply(rumor'.upvotes, rumor'.downvotes, userVote)), rumors', ledger')
        else (Err(Unexpected), rumors, ledger')
  }

  /** A vote type outside the two kinds, or a missing fingerprint, changes nothing. */
  lemma CastRejectsMalformed(rumors: Table<Rumor>, ledger: Ledger, rumorId: Id, voteType: string, fingerprint: string)
    requires !(voteType == "upvote" || voteType == "downvote") || fingerprint == []
    ensures CastSpec(rumors, ledger, rumorId, voteType, fingerprint) == (Err(InvalidInput), rumors, ledger)
  {
  }

  /** A well-formed vote on a thread that does not exist changes nothing. */
  lemma CastUnknownThread(rumors: Table<Rumor>, ledger: Ledger, rumorId: Id, voteType: string, fingerprint: string)
    requires voteType == "upvote" || voteType == "downvote"
    requires fingerprint != [] && rumorId !in rumors.docs
    ensures CastSpec(rumors, ledger, rumorId, voteType, fingerprint) == (Err(NotFound), rumors, ledger)
  {
  }

  /**
   * A first vote creates one record of its kind, raises only the matching counter by one,
   * changes no other thread and reports that kind.
   */
  lemma CastFirstVote(rumors: Table<Rumor>, ledger: Ledger, rumorId: Id, kind: VoteKind, fingerprint: string)
    requires rumorId in rumors.docs && RumorModel.SchemaValid(rumors.docs[rumorId])
    requires fingerprint != [] && VoteKey(rumorId, fingerprint) !in ledger
    ensures var (r, rumors', ledger') := CastSpec(rumors, ledger, rumorId, KindName(kind), fingerprint);
      var before := rumors.docs[rumorId];
      && ledger' == ledger[VoteKey(rumorId, fingerprint) := kind]
      && rumors'.docs.Keys == rumors.docs.Keys && rumors'.nextId == rumors.nextId
      && (forall id :: id in rumors.docs && id != rumorId ==> rumors'.docs[id] == rumors.docs[id])
      && var after := rumors'.docs[rumorId];
      && Count(after, kind) == Count(before, kind) + 1
      && (forall other :: other != kind ==> Count(after, other) == Count(before, other))
      && r == Ok(VoteReply(after.upvotes, after.downvotes, Some(kind)))
  {
    ParseKindName(kind);
  }

  /**
   * Voting the same kind again deletes the record, lowers the matching counter (clamped at
   * 0) and reports no vote.
   */
  lemma CastSameKindRemoves(rumors: Table<Rumor>, ledger: Ledger, rumorId: Id, kind: VoteKind, fingerprint: string)
    requires rumorId in rumors.docs && RumorModel.SchemaValid(rumors.docs[rumorId])
    requires fingerprint != [] && VoteKey(rumorId, fingerprint) in ledger
    requires ledger[VoteKey(rumorId, fingerprint)] == kind
    ensures var (r, rumors', ledger') := CastSpec(rumors, ledger, rumorId, KindName(kind), fingerprint);
      var before := rumors.docs[rumorId];
      && ledger' == ledger - {VoteKey(rumorId, fingerprint)}
      && rumors'.docs.Keys == rumors.docs.Keys
      && (forall id :: id in rumors.docs && id != rumorId ==> rumors'.docs[id] == rumors.docs[id])
      && var after := rumors'.docs[rumorId];
      && Count(after, kind) == ClampDec(Count(before, kind))
      && (forall other :: other != kind ==> Count(after, other) == Count(before, other))
      && r == Ok(VoteReply(after.upvotes, after.downvotes, None))
  {
    ParseKindName(kind);
  }

  /**
   * Voting the other kind rewrites the record, moves one vote from the old counter (clamped)
   * to the new one, and reports the new kind; the total is unchanged when the old counter
   * was positive.
   */
  lemma CastSwitchKind(rumors: Table<Rumor>, ledger: Ledger, rumorId: Id, kind: VoteKind, fingerprint: string)
    requires rumorId in rumors.docs && RumorModel.SchemaValid(rumors.docs[rumorId])
    requires fingerprint != [] && VoteKey(rumorId, fingerprint) in ledger
    requires ledger[VoteKey(rumorId, fingerprint)] != kind
    ensures var (r, rumors', ledger') := CastSpec(rumors, ledger, rumorId, KindName(kind), fingerprint);
      var before := rumors.docs[rumorId];
      var prior := ledger[VoteKey(rumorId, fingerprint)];
      && ledger' == ledger[VoteKey(rumorId, fingerprint) := kind]
      && rumors'.docs.Keys == rumors.docs.Keys
      && (forall id :: id in rumors.docs && id != rumorId ==> rumors'.docs[id] == rumors.docs[id])
      && var after := rumors'.docs[rumorId];
      && Count(after, prior) == ClampDec(Count(before, prior))
      && Count(after, kind) == Count(before, kind) + 1
      && (Count(before, prior) > 0 ==> after.upvotes + after.downvotes == before.upvotes + before.downvotes)
      && r == Ok(VoteReply(after.upvotes, after.downvotes, Some(kind)))
  {
    ParseKindName(kind);
  }

  /** A vote touches the counters of the one thread voted on and nothing else of the thread store. */
  lemma CastOnlyCounters(rumors: Table<Rumor>, ledger: Ledger, rumorId: Id, voteType: string, fingerprint: string)
    ensures var (_, rumors', _) := CastSpec(rumors, ledger, rumorId, voteType, fingerprint);
      && rumors'.nextId == rumors.nextId && rumors'.docs.Keys == rumors.docs.Keys
      && (forall id :: id in rumors.docs && id != rumorId ==> rumors'.docs[id] == rumors.docs[id])
      && (forall id :: id in rumors.docs ==>
            && rumors'.docs[id].schoolId == rumors.docs[id].schoolId
            && rumors'.docs[id].classLabel == rumors.docs[id].classLabel
            && rumors'.docs[id].content == rumors.docs[id].content
            && rumors'.docs[id].createdAt == rumors.docs[id].createdAt)
  {
  }

  /** Voting and then voting the same kind again restores both stores exactly. */
  lemma VoteThenRevoteRestores(rumors: Table<Rumor>, ledger: Ledger, rumorId: Id, kind: VoteKind, fingerprint: string)
    requires rumorId in rumors.docs && RumorModel.SchemaValid(rumors.docs[rumorId])
    requires fingerprint != [] && VoteKey(rumorId, fingerprint) !in ledger
    ensures var (r1, rumors1, ledger1) := CastSpec(rumors, ledger, rumorId, KindName(kind), fingerprint);
      var (r2, rumors2, ledger2) := CastSpec(rumors1, ledger1, rumorId, KindName(kind), fingerprint);
      && r1.Ok? && rumors2 == rumors && ledger2 == ledger
      && r2 == Ok(VoteReply(rumors.docs[rumorId].upvotes, rumors.docs[rumorId].downvotes, None))
  {
    ParseKindName(kind);
    var key := VoteKey(rumorId, fingerprint);
    var before := rumors.docs[rumorId];
    var bumped := Increment(before, kind);
    var rumors1 := rumors.Put(rumorId, bumped);
    assert CastSpec(rumors, ledger, rumorId, KindName(kind), fingerprint) == (Ok(VoteReply(bumped.upvotes, bumped.downvotes, Some(kind))), rumors1, ledger[key := kind]);
    assert Decrement(bumped, kind) == before;
    assert ledger[key := kind] - {key} == ledger;
    assert rumors1.Put(rumorId, before).docs == rumors.docs;
  }

  /** Adding an absent record raises exactly the tally it belongs to. */
  lemma TallyInsert(ledger: Ledger, key: VoteKey, kind: VoteKind, id: Id, k: VoteKind)
    requires key !in ledger
    ensures Tally(ledger[key := kind], id, k) == Tally(ledger, id, k) + (if key.rumorId == id && kind == k then 1 else 0)
  {
    if key.rumorId == id && kind == k {
      assert VotesFor(ledger[key := kind], id, k) == VotesFor(ledger, id, k) + {key};
    } else {
      assert VotesFor(ledger[key := kind], id, k) == VotesFor(ledger, id, k);
    }
  }

  /** Removing a present record lowers exactly the tally it belonged to. */
  lemma TallyRemove(ledger: Ledger, key: VoteKey, id: Id, k: VoteKind)
    requires key in ledger
    ensures Tally(ledger - {key}, id, k) + (if key.rumorId == id && ledger[key] == k then 1 else 0) == Tally(ledger, id, k)
  {
    if key.rumorId == id && ledger[key] == k {
      assert VotesFor(ledger, id, k) == VotesFor(ledger - {key}, id, k) + {key};
    } else {
      assert VotesFor(ledger - {key}, id, k) == VotesFor(ledger, id, k);
    }
  }

  /** A record counts towards its own tally, so that tally is positive. */
  lemma TallyPositive(ledger: Ledger, key: VoteKey)
    requires key in ledger
    ensures Tally(ledger, key.rumorId, ledger[key]) >= 1
  {
    assert key in VotesFor(ledger, key.rumorId, ledger[key]);
  }

  /**
   * The ledger write changes each tally by exactly what `Step` does to the counters, as
   * long as the decrement it performs has something to take away.
   */
  lemma LedgerStepTallies(ledger: Ledger, rumor: Rumor, key: VoteKey, kind: VoteKind, id: Id, k: VoteKind)
    requires forall kd :: Count(rumor, kd) == Tally(ledger, key.rumorId, kd)
    ensures var previous := if key in ledger then Some(ledger[key]) else None;
      var (rumor', _) := Step(rumor, previous, kind);
      && (id == key.rumorId ==> Count(rumor', k) == Tally(LedgerStep(ledger, key, kind), id, k))
      && (id != key.rumorId ==> Tally(LedgerStep(ledger, key, kind), id, k) == Tally(ledger, id, k))
  {
    if key !in ledger {
      TallyInsert(ledger, key, kind, id, k);
    } else if ledger[key] == kind {
      TallyRemove(ledger, key, id, k);
      TallyPositive(ledger, key);
    } else {
      var removed := ledger - {key};
      assert LedgerStep(ledger, key, kind) == removed[key := kind];
      TallyRemove(ledger, key, id, k);
      TallyInsert(removed, key, kind, id, k);
      TallyPositive(ledger, key);
    }
  }

  /**
   * The main invariant: when the counters equal the ledger tallies before a vote (and the
   * thread passes validation, so its counter save succeeds), they still do afterwards.
   */
  lemma {:induction false} CastPreservesConsistency(
    rumors: Table<Rumor>, ledger: Ledger, rumorId: Id, voteType: string, fingerprint: string)
    requires rumors.Valid() && Consistent(rumors, ledger)
    requires rumorId in rumors.docs ==> RumorModel.SchemaValid(rumors.docs[rumorId])
    ensures var (_, rumors', ledger') := CastSpec(rumors, ledger, rumorId, voteType, fingerprint);
      rumors'.Valid() && Consistent(rumors', ledger')
  {
    var (r, rumors', ledger') := CastSpec(rumors, ledger, rumorId, voteType, fingerprint);
    if ParseVoteKind(voteType).Some? && fingerprint != [] && rumorId in rumors.docs {
      var kind := ParseVoteKind(voteType).value;
      var key := VoteKey(rumorId, fingerprint);
      var rumor := rumors.docs[rumorId];
      assert forall kd :: Count(rumor, kd) == Tally(ledger, rumorId, kd);
      forall id, k | id in rumors'.docs
        ensures Count(rumors'.docs[id], k) == Tally(ledger', id, k)
      {
        LedgerStepTallies(ledger, rumor, key, kind, id, k);
      }
    }
  }

  /** Under the invariant the clamp never fires: a vote being removed or switched always has a positive counter. */
  lemma ClampNeverFires(rumors: Table<Rumor>, ledger: Ledger, key: VoteKey)
    requires Consistent(rumors, ledger)
    requires key in ledger && key.rumorId in rumors.docs
    ensures Count(rumors.docs[key.rumorId], ledger[key]) >= 1
  {
    TallyPositive(ledger, key);
  }

  /** The reply's `userVote` is what the lookup route reports for the same pair afterwards. */
  lemma ReplyMatchesLookup(rumors: Table<Rumor>, ledger: Ledger, rumorId: Id, voteType: string, fingerprint: string)
    ensures var (r, _, ledger') := CastSpec(rumors, ledger, rumorId, voteType, fingerprint);
      var key := VoteKey(rumorId, fingerprint);
      r.Ok? ==> && (r.value.userVote.Some? <==> key in ledger')
                && (key in ledger' ==> r.value.userVote == Some(ledger'[key]))
  {
  }

  /** A fresh thread: one upvote and then the same upvote again leaves no vote and zero counters. */
  lemma UpvoteTwiceClears(rumors: Table<Rumor>, ledger: Ledger, rumorId: Id)
    requires rumorId in rumors.docs && RumorModel.SchemaValid(rumors.docs[rumorId])
    requires rumors.docs[rumorId].upvotes == 0 && rumors.docs[rumorId].downvotes == 0
    requires VoteKey(rumorId, "userA") !in ledger
    ensures var (_, rumors1, ledger1) := CastSpec(rumors, ledger, rumorId, "upvote", "userA");
      CastSpec(rumors1, ledger1, rumorId, "upvote", "userA").0 == Ok(VoteReply(0, 0, None))
  {
    VoteThenRevoteRestores(rumors, ledger, rumorId, Upvote, "userA");
  }

  /** A fresh thread: an upvote and then a downvote from the same browser leaves one downvote. */
  lemma UpvoteThenDownvoteSwitches(rumors: Table<Rumor>, ledger: Ledger, rumorId: Id)
    requires rumorId in rumors.docs && RumorModel.SchemaValid(rumors.docs[rumorId])
    requires rumors.docs[rumorId].upvotes == 0 && rumors.docs[rumorId].downvotes == 0
    requires VoteKey(rumorId, "userA") !in ledger
    ensures var (_, rumors1, ledger1) := CastSpec(rumors, ledger, rumorId, "upvote", "userA");
      CastSpec(rumors1, ledger1, rumorId, "downvote", "userA").0 == Ok(VoteReply(0, 1, Some(Downvote)))
  {
    CastFirstVote(rumors, ledger, rumorId, Upvote, "userA");
    var (_, rumors1, ledger1) := CastSpec(rumors, ledger, rumorId, "upvote", "userA");
    CastSwitchKind(rumors1, ledger1, rumorId, Downvote, "userA");
  }

  /** `POST /rumors/:rumorId/vote`. */
  method CastVote(rumors: RumorCollection, votes: VoteCollection, rumorId: Id, voteType: string, fingerprint: string)
    returns (r: Result<VoteReply>)
    requires rumors.Valid()
    modifies rumors, votes
    ensures rumors.Valid()
    ensures (r, rumors.table, votes.ledger) == CastSpec(old(rumors.table), old(votes.ledger), rumorId, voteType, fingerprint)
  {
    var kind := ParseVoteKind(voteType);
    if kind.None? {
      return Err(InvalidInput);
    }
    if fingerprint == [] {
      return Err(InvalidInput);
    }
    var found := rumors.FindById(rumorId);
    if found.None? {
      return Err(NotFound);
    }
    var rumor := found.value;
    var key := VoteKey(rumorId, fingerprint);
    var existing := votes.FindOne(key);
    var userVote: Option<VoteKind>;
    if existing.Some? {
      if existing.value == kind.value {
        votes.DeleteOne(key);
        rumor := Decrement(rumor, kind.value);
        userVote := None;
      } else {
        var written := votes.SetKind(key, kind.value);
        assert written.Ok?;
        rumor := Increment(Decrement(rumor, existing.value), kind.value);
        userVote := Some(kind.value);
      }
    } else {
      var created := votes.Create(key, kind.value);
      assert created.Ok?;
      rumor := Increment(rumor, kind.value);
      userVote := Some(kind.value);
    }
    var saved := rumors.Save(rumorId, rumor);
    if saved.Err? {
      return Err(Unexpected);
    }
    r := Ok(VoteReply(rumor.upvotes, rumor.downvotes, userVote));
  }

  /** `GET /rumors/:rumorId/vote/:userFingerprint`: the kind recorded for the pair, or none. */
  method GetUserVote(votes: VoteCollection, rumorId: Id, fingerprint: string) returns (userVote: Option<VoteKind>)
    ensures userVote.Some? <==> VoteKey(rumorId, fingerprint) in votes.ledger
    ensures userVote.Some? ==> votes.ledger[VoteKey(rumorId, fingerprint)] == userVote.value
  {
    userVote := votes.FindOne(VoteKey(rumorId, fingerprint));
  }
}
