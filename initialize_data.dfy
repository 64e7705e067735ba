/**
 * `initializeDefaultSchool`: at start-up the store is seeded with one approved school,
 * Vidya Mandir in Mylapore, unless a record with that exact name and city is already
 * there. Failures are logged and swallowed, so the caller never sees an error.
 */
module InitializeData {
  import opened Wrappers
  import opened JsString
  import opened Store
  import opened SchoolModel
  import RumorModel
  import VoteModel
  import Integrity

  const SeedName: string := "Vidya Mandir"
  const SeedCity: string := "Mylapore"

  /** The existence query: exact equality on name and city, whatever the type or status. */
  function IsSeed(s: Institution): bool {
    s.name == SeedName && s.city == SeedCity
  }

  /** What the seed writes: an approved school (the schema's default type) offering every class. */
  function SeedRecord(now: Time): (s: Institution)
    ensures IsSeed(s) && s.kind == School && s.status == Approved
    ensures s.classes == AllClasses && s.approvedAt == Some(now) && ClassRule(s)
  {
    Institution(SeedName, SeedCity, School, Approved, AllClasses, now, Some(now))
  }

  /**
   * One run of the seed. `storeUp` is false when a store call throws; the error is caught
   * and logged, and nothing is written.
   */
  function SeedSpec(t: Table<Institution>, storeUp: bool, now: Time): Table<Institution> {
    if !storeUp || AnyMatch(t, IsSeed) then t
    else
      var (_, t') := SaveSpec(t, None, NewInstitution(SeedName, SeedCity, School, Approved, AllClasses, Some(now), now), now);
      t'
  }

  /**
   * The seed leaves the store alone when the query finds a record (or the store is down);
   * otherwise it inserts exactly the seed record under a fresh id.
   */
  lemma SeedOutcome(t: Table<Institution>, storeUp: bool, now: Time)
    requires t.Valid()
    ensures var t' := SeedSpec(t, storeUp, now);
      && t'.Valid()
      && (!storeUp || AnyMatch(t, IsSeed) ==> t' == t)
      && (storeUp && !AnyMatch(t, IsSeed) ==> t.nextId !in t.docs && t' == t.Insert(SeedRecord(now)))
  {
    if storeUp && !AnyMatch(t, IsSeed) {
      SeedDocument(now);
      SaveSpecOutcome(t, None, SeedRecord(now), now);
    }
  }

  /** The document the seed builds is the seed record, valid, and left alone by the hook. */
  lemma SeedDocument(now: Time)
    ensures NewInstitution(SeedName, SeedCity, School, Approved, AllClasses, Some(now), now) == SeedRecord(now)
    ensures SchemaValid(SeedRecord(now)) && PreSaveHook(SeedRecord(now), now) == SeedRecord(now)
  {
    SeedBuilt(now);
    SeedRecordValid(now);
    PreSaveHookFrame(SeedRecord(now), now);
  }

  lemma SeedBuilt(now: Time)
    ensures NewInstitution(SeedName, SeedCity, School, Approved, AllClasses, Some(now), now) == SeedRecord(now)
  {
    SeedNameFixed();
    SeedCityFixed();
    assert SeedRecord(now) == Institution(SeedName, SeedCity, School, Approved, AllClasses, now, Some(now));
  }

  lemma SeedRecordValid(now: Time)
    ensures SchemaValid(SeedRecord(now))
  {
    SeedNameFixed();
    SeedCityFixed();
    SchemaValidByFields(SeedRecord(now));
  }

  /** The seed's name has no outer whitespace and no astral code point: trim and `.length` keep it. */
  lemma SeedNameFixed()
    ensures Trim(SeedName) == SeedName && Utf16Length(SeedName) == 12
  {
    TrimOfUnpadded(SeedName);
    Utf16LengthBmp(SeedName);
  }

  lemma SeedCityFixed()
    ensures Trim(SeedCity) == SeedCity && Utf16Length(SeedCity) == 8
  {
    TrimOfUnpadded(SeedCity);
    Utf16LengthBmp(SeedCity);
  }

  /** After a run that reached the store, a second run changes nothing. */
  lemma SeedIdempotent(t: Table<Institution>, storeUp: bool, now: Time, later: Time)
    requires t.Valid()
    ensures SeedSpec(SeedSpec(t, true, now), storeUp, later) == SeedSpec(t, true, now)
  {
    SeedOutcome(t, true, now);
    var t' := SeedSpec(t, true, now);
    if !AnyMatch(t, IsSeed) {
      assert t'.docs[t.nextId] == SeedRecord(now);
      assert IsSeed(t'.docs[t.nextId]);
    }
    assert AnyMatch(t', IsSeed);
  }

  /** The ids of the records a query finds. */
  function MatchIds(t: Table<Institution>, matches: Institution -> bool): (ids: set<Id>)
    ensures forall id :: id in ids <==> id in t.docs && matches(t.docs[id])
  {
    set id | id in t.docs && matches(t.docs[id])
  }

  /** The ids of the records the seed's existence query finds. */
  function SeedIds(t: Table<Institution>): set<Id> {
    MatchIds(t, IsSeed)
  }

  /** Inserting into a store where a query finds nothing leaves the new id as its only hit. */
  lemma InsertIntoUnmatched(t: Table<Institution>, matches: Institution -> bool, s: Institution)
    requires t.Valid() && !AnyMatch(t, matches)
    ensures MatchIds(t.Insert(s), matches) <= {t.nextId}
  {
  }

  /** A subset of a singleton has at most one element. */
  lemma AtMostOneInSingleton(ids: set<Id>, x: Id)
    requires ids <= {x}
    ensures |ids| <= 1
  {
    if x in ids {
      assert ids == {x};
    } else {
      assert ids == {};
    }
  }

  /** A run adds a seed record only to a store that has none, so it never makes a second one. */
  lemma SeedAtMostOne(t: Table<Institution>, storeUp: bool, now: Time)
    requires t.Valid() && |SeedIds(t)| <= 1
    ensures |SeedIds(SeedSpec(t, storeUp, now))| <= 1
  {
    SeedOutcome(t, storeUp, now);
    if storeUp && !AnyMatch(t, IsSeed) {
      InsertIntoUnmatched(t, IsSeed, SeedRecord(now));
      AtMostOneInSingleton(SeedIds(t.Insert(SeedRecord(now))), t.nextId);
    }
  }

  /**
   * Two runs in sequence on any store with at most one record of the seed's name and city,
   * the normal second start among them, leave at most one such record.
   */
  lemma SeedTwiceAtMostOne(t: Table<Institution>, up1: bool, up2: bool, now: Time, later: Time)
    requires t.Valid() && |SeedIds(t)| <= 1
    ensures |SeedIds(SeedSpec(SeedSpec(t, up1, now), up2, later))| <= 1
  {
    SeedAtMostOne(t, up1, now);
    SeedOutcome(t, up1, now);
    SeedAtMostOne(SeedSpec(t, up1, now), up2, later);
  }

  /** The seed keeps the store's integrity invariant. */
  lemma SeedPreserves(schools: Table<Institution>, rumors: Table<RumorModel.Rumor>, ledger: VoteModel.Ledger,
                      storeUp: bool, now: Time)
    requires Integrity.Invariant(schools, rumors, ledger)
    ensures Integrity.Invariant(SeedSpec(schools, storeUp, now), rumors, ledger)
  {
    SeedOutcome(schools, storeUp, now);
    if storeUp && !AnyMatch(schools, IsSeed) {
      Integrity.InsertSchoolPreserves(schools, rumors, ledger, SeedRecord(now));
    }
  }

  /** `initializeDefaultSchool()`: it reports nothing to its caller, whatever happens. */
  method InitializeDefaultSchool(schools: SchoolCollection, storeUp: bool, now: Time)
    requires schools.Valid()
    modifies schools
    ensures schools.Valid()
    ensures schools.table == SeedSpec(old(schools.table), storeUp, now)
  {
    if !storeUp {
      return;
    }
    var existing := schools.FindOne(IsSeed);
    if !existing {
      var doc := new SchoolDocument.New(SeedName, SeedCity, School, Approved, AllClasses, Some(now), now);
      var _ := schools.Save(doc, now);
    }
  }
}
