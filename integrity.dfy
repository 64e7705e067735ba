/**
 * The relation the route handlers keep between the stores: ids are fresh, every thread
 * belongs to an approved institution and passes validation, class lists follow the
 * institution's kind and status, and thread counters match the vote ledger.
 */
module Integrity {
  import opened Store
  import opened SchoolModel
  import opened RumorModel
  import opened VoteModel
  import Voting

  /** Every thread is posted under an institution that exists and is approved. */
  ghost predicate ReferencesValid(schools: Table<Institution>, rumors: Table<Rumor>) {
    forall id :: id in rumors.docs ==>
      rumors.docs[id].schoolId in schools.docs && schools.docs[rumors.docs[id].schoolId].status == Approved
  }

  ghost predicate Invariant(schools: Table<Institution>, rumors: Table<Rumor>, ledger: Ledger) {
    && schools.Valid()
    && rumors.Valid()
    && (forall id :: id in schools.docs ==> ClassRule(schools.docs[id]))
    && (forall id :: id in rumors.docs ==> RumorModel.SchemaValid(rumors.docs[id]))
    && ReferencesValid(schools, rumors)
    && Voting.Consistent(rumors, ledger)
  }

  /** An id not yet handed out has no votes, so a new thread's zero counters match the ledger. */
  lemma FreshThreadHasNoVotes(rumors: Table<Rumor>, ledger: Ledger, kind: VoteKind)
    requires Voting.Consistent(rumors, ledger)
    ensures Voting.Tally(ledger, rumors.nextId, kind) == 0
  {
    assert Voting.VotesFor(ledger, rumors.nextId, kind) == {};
  }

  /** Inserting a valid thread with zero counters under an approved institution keeps the invariant. */
  lemma InsertThreadPreserves(schools: Table<Institution>, rumors: Table<Rumor>, ledger: Ledger, r: Rumor)
    requires Invariant(schools, rumors, ledger)
    requires RumorModel.SchemaValid(r) && r.upvotes == 0 && r.downvotes == 0
    requires r.schoolId in schools.docs && schools.docs[r.schoolId].status == Approved
    ensures Invariant(schools, rumors.Insert(r), ledger)
  {
    var rumors' := rumors.Insert(r);
    forall id, kind | id in rumors'.docs
      ensures Voting.Count(rumors'.docs[id], kind) == Voting.Tally(ledger, id, kind)
    {
      if id == rumors.nextId {
        FreshThreadHasNoVotes(rumors, ledger, kind);
      }
    }
  }

  /** Replacing a thread by a valid one with the same institution and counters keeps the invariant. */
  lemma ReplaceThreadPreserves(schools: Table<Institution>, rumors: Table<Rumor>, ledger: Ledger, id: Id, r: Rumor)
    requires Invariant(schools, rumors, ledger) && id in rumors.docs
    requires RumorModel.SchemaValid(r) && r.schoolId == rumors.docs[id].schoolId
    requires r.upvotes == rumors.docs[id].upvotes && r.downvotes == rumors.docs[id].downvotes
    ensures Invariant(schools, rumors.Put(id, r), ledger)
  {
    var rumors' := rumors.Put(id, r);
    forall i, kind | i in rumors'.docs
      ensures Voting.Count(rumors'.docs[i], kind) == Voting.Tally(ledger, i, kind)
    {
      assert Voting.Count(rumors'.docs[i], kind) == Voting.Count(rumors.docs[i], kind);
    }
  }

  /**
   * Removing threads keeps the invariant; their vote records stay behind, and since ids
   * are never reused they never count towards another thread.
   */
  lemma RemoveThreadsPreserves(schools: Table<Institution>, rumors: Table<Rumor>, rumors': Table<Rumor>, ledger: Ledger)
    requires Invariant(schools, rumors, ledger)
    requires rumors'.nextId == rumors.nextId
    requires forall id :: id in rumors'.docs ==> id in rumors.docs && rumors'.docs[id] == rumors.docs[id]
    ensures Invariant(schools, rumors', ledger)
  {
  }

  /**
   * A change to the institutions that keeps every approved one approved (and present
   * unless it has no threads) and keeps the class rule leaves the threads' references valid.
   */
  lemma SchoolsChangePreserves(schools: Table<Institution>, schools': Table<Institution>, rumors: Table<Rumor>, ledger: Ledger)
    requires Invariant(schools, rumors, ledger)
    requires schools'.Valid()
    requires forall id :: id in schools'.docs ==> ClassRule(schools'.docs[id])
    requires forall id :: id in rumors.docs ==>
      var sid := rumors.docs[id].schoolId; sid in schools'.docs && schools'.docs[sid].status == Approved
    ensures Invariant(schools', rumors, ledger)
  {
  }

  /** Inserting an institution that obeys the class rule keeps the invariant. */
  lemma InsertSchoolPreserves(schools: Table<Institution>, rumors: Table<Rumor>, ledger: Ledger, s: Institution)
    requires Invariant(schools, rumors, ledger) && ClassRule(s)
    ensures Invariant(schools.Insert(s), rumors, ledger)
  {
    SchoolsChangePreserves(schools, schools.Insert(s), rumors, ledger);
  }

  /** A vote keeps the invariant. */
  lemma VotePreserves(schools: Table<Institution>, rumors: Table<Rumor>, ledger: Ledger, rumorId: Id, voteType: string, fingerprint: string)
    requires Invariant(schools, rumors, ledger)
    ensures var (_, rumors', ledger') := Voting.CastSpec(rumors, ledger, rumorId, voteType, fingerprint);
      Invariant(schools, rumors', ledger')
  {
    Voting.CastPreservesConsistency(rumors, ledger, rumorId, voteType, fingerprint);
    Voting.CastOnlyCounters(rumors, ledger, rumorId, voteType, fingerprint);
  }
}
