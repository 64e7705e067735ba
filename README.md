# School rumor board: a Dafny model of its rules

The board lets students post anonymous discussion threads ("rumors") under a school or
college. Visitors request institutions, which an administrator approves, rejects, edits,
creates directly or deletes together with their threads. Visitors vote threads up or down,
one vote per browser fingerprint. This project models the board's rules and proves
properties about them:

- the vote state machine;
- the institution lifecycle with the School pre-save hook and the start-up seed;
- the mongoose schemas and the express-validator chains;
- the announcement singleton;
- the admin gate;
- two pure helpers of the web client: the footer's back link and the class page's
  truncation and expand toggle.

Layout, one module per file:

- `wrappers.dfy`: Option, Result, the error kinds a handler reports, and the middleware
  decision `Gate`.
- `js_string.dfy`: the JavaScript string operations the code relies on:
  - `trim`, UTF‑16 `.length`, `includes`, `split` and `join`;
  - the case-insensitive unanchored regular-expression test of the duplicate query.
- `store.dfy`: a collection as a table of documents keyed by id, with an id counter.
- `school_model.dfy`, `rumor_model.dfy`, `vote_model.dfy`, `suggestion_model.dfy`,
  `announcement_model.dfy`: each mongoose model has:
  - its record datatype and schema validity;
  - the behaviour of `save`, and the statics;
  - a collection class whose methods update its table in place.
  The pre-save hook is a method of the `SchoolDocument` class that rewrites the document's
  fields.
- `validation.dfy`, `auth.dfy`: the middleware.
- `voting.dfy`: the vote handler and the vote lookup. The `CastVote` method works on a
  `RumorCollection` and a `VoteCollection` step by step, as the handler does. It is proved
  equal to the function `CastSpec`, and the lemmas are about `CastSpec`.
- `schools_routes.dfy`, `admin_routes.dfy`: every handler is built the same way:
  - a specification function `…Spec` from the old store and the request to the reply and
    the new store;
  - lemmas stating what the handler promises;
  - a method that does it on the collection objects, proved to agree with the function.
- `integrity.dfy`: the relation the handlers keep between the collections, and one
  preservation lemma per handler. The relation says:
  - ids are fresh;
  - every thread belongs to an approved institution and passes validation;
  - class lists follow kind and status;
  - every thread's counters equal the number of its vote records.
- `initialize_data.dfy`: `initializeDefaultSchool`.
- `footer.dfy`, `class_page.dfy`: the two client helpers.

How the source's behaviour is modelled:

- Errors of the store are the error kind `Unexpected`, with the store left as it was.
  The model has no thrown exceptions.
- Timestamps are parameters. Ids are natural numbers drawn from each table's counter.
- Lengths come in two measures:
  - the schemas' `minlength`/`maxlength` count UTF‑16 units (`Utf16Length`);
  - express-validator's `isLength` counts code points, not counting the variation
    selectors U+FE0E and U+FE0F (`Validation.ValidatorLength`).
- Validation runs before the pre-save hook, as mongoose does.
- The schemas' `trim` setters are applied when a document is built.
- `findByIdAndUpdate` runs neither validators nor hooks.

Where the code and its stated intent part ways, the model follows the code, with one exception:
the vote counters of the first case below follow what the handler intends. Every other case is
proved as it stands:

- The Rumor schema (`backend/models/Rumor.js:3-25`) declares no `upvotes` or `downvotes`
  paths, yet the vote handler reads, changes and saves them. As written, `rumor.upvotes`
  reads `undefined`, `+= 1` and `Math.max(0, undefined - 1)` give `NaN`, `rumor.save()`
  stores no path outside the schema, and the reply carries `null` counts. This is the
  exception: the model gives every thread natural-number counters starting at 0, as the
  handler intends.
- The Rumor schema requires `class`, but the posting route builds a college's thread
  without one. A thread under a college therefore always fails at the save
  (`SchoolsRoutes.CollegePostNeverSucceeds`). `validateRumor` also demands a valid class
  label for colleges.
- The validator's minimum name length is 7 and the schema's is 3. The admin create route
  runs no validator, so it accepts names of 3 to 6 units that the request refuses
  (`AdminRoutes.AdminCreateBelowValidatorMinimum`).
- The duplicate query compiles the input into an unanchored case-insensitive regular
  expression. The check is therefore a substring test: "Vidya" conflicts with
  "Vidya Mandir".
- Admin create queries with the untrimmed input but stores the trimmed text. A padded
  request matches nothing, so it can be repeated, leaving duplicates
  (`AdminRoutes.AdminCreatePaddedRepeats`).
- Editing a school goes through `findByIdAndUpdate`, which runs no validators. A name of
  blanks is stored empty (`AdminRoutes.EditSchoolStoresBlankName`).
- The validator and the schema count length differently. A name of 39 astral code points
  passes the validator and fails the schema (`Validation.AstralNamePassesValidatorOnly`).
- The vote handler writes the vote record before it saves the counters. A failing counter
  save therefore leaves the new vote record beside the old counters.
  `Voting.CastPreservesConsistency` holds when the thread passes validation.
- Deleting a thread leaves its vote records in place. Ids are never reused, so they count
  towards no thread (`Integrity.RemoveThreadsPreserves`).
- The posting route does not check the class against the institution's own class list.
  It checks only the validator's label list.
- The back link of a college's create page `/college/S/create` is the school route
  `/school/S` (`Footer.BackFromCollegeCreate`).

## Model

| member | source | states |
|---|---|---|
| Store.Table.Insert | backend/routes/schools.js:73-74 | a save of a new document stores exactly that document under an id never handed out before, leaves every other document as it was, and keeps the table's ids fresh |
| Store.Table.Put | backend/routes/admin.js:82 | overwriting a loaded document stores the new value under its id, leaves every other document as it was, and keeps the set of ids and the id counter |
| Store.Table.Remove | backend/routes/admin.js:118 | `findByIdAndDelete` removes exactly that id, if present, leaves every other document as it was, and keeps ids fresh |
| Store.EmptyTable | backend/models/School.js:54 | a new collection holds no document and is well formed |
| JsString.IsWhitespace | backend/models/School.js:7 | the ECMAScript WhiteSpace and LineTerminator code points, the characters the schemas' `trim` and the validators' `trim()` strip; `JsString.TrimEmptyIffBlank` states the trim in its terms |
| JsString.LeadingBlanks | backend/models/School.js:7 | counts exactly the leading run of whitespace that `trim` drops |
| JsString.TrailingBlanks | backend/models/School.js:7 | counts exactly the trailing run of whitespace that `trim` drops |
| JsString.TrimStart | backend/models/School.js:7 | the leading whitespace run dropped; `JsString.TrimStartOfPadded` shows it removes exactly a whitespace prefix |
| JsString.TrimEnd | backend/models/School.js:7 | the trailing whitespace run dropped; `JsString.TrimEndOfPadded` shows it removes exactly a whitespace suffix |
| JsString.Trim | backend/models/School.js:7 | the trimmed value is no longer than the input and has no whitespace at either end |
| JsString.TrimOfPadded | backend/middleware/validation.js:19 | whitespace pads around a core without outer whitespace trim away to exactly that core |
| JsString.TrimOfUnpadded | backend/models/School.js:7 | a value without outer whitespace is its own trim |
| JsString.TrimStartOfPadded | backend/models/School.js:7 | the leading-whitespace pass removes exactly a whitespace prefix |
| JsString.TrimEndOfPadded | backend/models/School.js:7 | the trailing-whitespace pass removes exactly a whitespace suffix |
| JsString.TrimIdempotent | backend/middleware/validation.js:19 | the setter's trim after the validator's trim changes nothing |
| JsString.TrimEmptyIffBlank | backend/models/Announcement.js:35 | the trim is empty exactly when the input consists of whitespace only |
| JsString.Utf16Length | backend/models/School.js:8-9 | `.length` lies between the number of code points and twice it, and is 0 only for "" |
| JsString.Utf16LengthBmp | backend/models/School.js:8-9 | within the Basic Multilingual Plane `.length` equals the number of code points |
| JsString.FoldCase | backend/routes/schools.js:61-62 | case folding for the `i` flag keeps the length and folds each code point separately |
| JsString.Includes | frontend/src/components/Footer.jsx:16-37 | `String.prototype.includes`: the pattern occurs at some offset; `JsString.IncludesAt` and `JsString.IncludesShorter` give both directions |
| JsString.IncludesAt | backend/routes/schools.js:61-62 | an occurrence at any offset makes the pattern match |
| JsString.IncludesShorter | backend/routes/schools.js:61-62 | a contained string is never longer than the container |
| JsString.MatchesIgnoreCase | backend/routes/schools.js:61-62 | the `$regex: new RegExp(x, 'i')` test on a metacharacter-free pattern: case-folded substring containment; proved by `JsString.MatchesInfix`, `JsString.MatchesEqualIgnoringCase` and `JsString.NoMatchWhenLonger` |
| JsString.NoMatchWhenLonger | backend/routes/admin.js:331-335 | a pattern longer than the subject never matches it |
| JsString.MatchesInfix | backend/routes/schools.js:60-64 | any subject containing the pattern, with anything around it, matches; the regex test is a substring test |
| JsString.MatchesEqualIgnoringCase | backend/routes/schools.js:60-64 | two strings equal up to ASCII case match each other in both directions |
| JsString.Split | frontend/src/components/ClassPage.jsx:24 | `split` returns at least one part and no part contains the separator |
| JsString.Join | frontend/src/components/ClassPage.jsx:32 | `parts.join(sep)`: the parts with one separator between neighbours; `JsString.JoinSplit` and `JsString.SplitJoin` show it inverts `Split` |
| JsString.JoinSplit | frontend/src/components/ClassPage.jsx:24-32 | joining the parts of a split with the same separator gives the input back |
| JsString.JoinCut | frontend/src/components/ClassPage.jsx:32 | the join of all parts is the join of the first k, the separator, then the join of the rest |
| JsString.SplitConcat | frontend/src/components/Footer.jsx:24 | splitting at a separator splits the two sides independently |
| JsString.SplitWithoutSeparator | frontend/src/components/Footer.jsx:24 | text without the separator splits into itself alone |
| JsString.SplitJoin | frontend/src/components/Footer.jsx:24 | splitting a join of separator-free parts returns the parts, the converse of `JoinSplit` |
| SchoolModel.IsClassLabel | backend/models/School.js:29-32 | a class label is one of '7' to '12'; `SchoolModel.PreSaveHookApproved` shows the hook writes only such labels |
| SchoolModel.NameWithinSchema | backend/models/School.js:4-10 | the stored, trimmed name is 3 to 39 UTF-16 units long; `SchoolModel.SchemaValidByFields` ties it to validity |
| SchoolModel.CityWithinSchema | backend/models/School.js:11-17 | the stored, trimmed city is 3 to 14 UTF-16 units long |
| SchoolModel.SchemaValid | backend/models/School.js:3-40 | what validation checks before a save: name and city bounds and listed class labels; the type and status enums are the datatype's own values, with school and pending as the constructors' defaults |
| SchoolModel.ClassRule | backend/models/School.js:43-52 | the class-list invariant the hook establishes: an approved school lists every class, every other record none; proved by `SchoolModel.PreSaveHookClassRule` |
| SchoolModel.NewInstitution | backend/models/School.js:3-40 | `new School({...})`: the setters trim name and city and `createdAt` is the current time |
| SchoolModel.PreSaveHook | backend/models/School.js:43-52 | the hook's effect on a document: an approved school with no classes gets all six and a fresh `approvedAt`, an approved college gets none and a fresh `approvedAt`, anything else is untouched; proved by `SchoolModel.PreSaveHookFrame` and `SchoolModel.PreSaveHookApproved` |
| SchoolModel.AnyMatch | backend/routes/schools.js:60-66 | `findOne(query)` finds something exactly when some stored record satisfies the query |
| SchoolModel.SaveSpec | backend/models/School.js:43-52 | `doc.save()`: validation first (failing writes nothing), then the hook, then insert under a fresh id or overwrite; proved by `SchoolModel.SaveSpecOutcome` |
| SchoolModel.SchemaValidByFields | backend/models/School.js:3-40 | for an empty or full class list, schema validity is exactly trimmed name of 3..39 and city of 3..14 UTF‑16 units |
| SchoolModel.PreSaveHookFrame | backend/models/School.js:43-52 | the hook changes only `classes` and `approvedAt`; it leaves unapproved records, and approved schools that already list classes, untouched |
| SchoolModel.PreSaveHookApproved | backend/models/School.js:44-50 | after the hook an approved college lists no class and refreshes `approvedAt`; an approved school lists a non-empty set of valid labels |
| SchoolModel.PreSaveHookIdempotent | backend/models/School.js:43-52 | running the hook a second time changes nothing |
| SchoolModel.PreSaveHookClassRule | backend/models/School.js:43-52 | a record with an empty or full class list obeys the class rule after the hook: an approved school lists every class, every other record none |
| SchoolModel.SchoolDocument.New | backend/models/School.js:3-40 | `new School({...})` trims name and city, stamps `createdAt`, and is not yet stored |
| SchoolModel.SchoolDocument.Hydrate | backend/models/School.js:3-40 | a loaded document carries the stored id and record |
| SchoolModel.SchoolDocument.PreSave | backend/models/School.js:43-52 | the hook rewrites the document's own fields in place, to what `PreSaveHook` gives |
| SchoolModel.SaveSpecOutcome | backend/models/School.js:43-52 | a save either fails validation and writes nothing, or writes the hooked document under the returned id and changes no other record |
| SchoolModel.SchoolCollection.constructor | backend/models/School.js:54 | the collection starts empty |
| SchoolModel.SchoolCollection.FindById | backend/routes/admin.js:58 | a fresh document object holding the stored record, or null exactly when the id is absent |
| SchoolModel.SchoolCollection.FindOne | backend/routes/schools.js:60-64 | reports whether some stored record satisfies the query |
| SchoolModel.SchoolCollection.Save | backend/routes/admin.js:82-87 | the table after `save()` is what `SaveSpec` gives: validation, hook, then insert or overwrite; on success the document replied with carries the returned id and exactly the stored, hooked fields, on failure it is untouched |
| SchoolModel.SchoolCollection.FindByIdAndUpdate | backend/routes/admin.js:251-255 | only name and city of that record change, with no validation, or nothing changes when it is absent |
| SchoolModel.SchoolCollection.FindByIdAndDelete | backend/routes/admin.js:118 | the table loses exactly that id |
| RumorModel.NewRumor | backend/models/Rumor.js:3-25 | `new Rumor({...})`: trimmed content, `createdAt` now, counters at 0 |
| RumorModel.ContentWithinSchema | backend/models/Rumor.js:14-20 | trimmed content of 10 to 10000 UTF-16 units |
| RumorModel.SchemaValid | backend/models/Rumor.js:3-25 | a thread passes validation exactly when its class is present and listed and its content fits |
| RumorModel.CreateSpec | backend/models/Rumor.js:3-25 | saving a new thread: validation, then an insert under a fresh id; proved by `RumorModel.CreateSpecOutcome` |
| RumorModel.SaveSpec | backend/routes/schools.js:328 | saving a loaded thread: validation, then an overwrite; a vanished record fails |
| RumorModel.WithoutSchool | backend/routes/admin.js:293 | `deleteMany({schoolId})` keeps exactly the threads of other institutions, unchanged |
| RumorModel.CreateSpecOutcome | backend/models/Rumor.js:3-25 | a create succeeds exactly when the thread has a listed class and content of 10..10000 units, and then stores it under a fresh id and nothing else |
| RumorModel.RumorCollection.constructor | backend/models/Rumor.js:31 | the collection starts empty |
| RumorModel.RumorCollection.FindById | backend/routes/schools.js:305 | the stored thread, or none exactly when the id is absent |
| RumorModel.RumorCollection.Create | backend/routes/schools.js:151-152 | the table after the save is what `CreateSpec` gives |
| RumorModel.RumorCollection.Save | backend/routes/schools.js:328 | the table after saving a loaded thread is what `SaveSpec` gives |
| RumorModel.RumorCollection.FindByIdAndUpdate | backend/routes/admin.js:211-215 | only the content of that thread changes, with no validation, or nothing when it is absent |
| RumorModel.RumorCollection.FindByIdAndDelete | backend/routes/admin.js:182 | the table loses exactly that id |
| RumorModel.RumorCollection.DeleteMany | backend/routes/admin.js:293 | the table loses exactly the institution's threads |
| VoteModel.KindName | backend/models/Vote.js:13-17 | the wire spelling of each kind; `VoteModel.ParseKindName` shows parsing inverts it |
| VoteModel.SchemaValid | backend/models/Vote.js:9-12 | a vote record needs a non-empty fingerprint |
| VoteModel.CreateSpec | backend/models/Vote.js:24-25 | saving a new vote: a validation error or a duplicate pair under the unique index throws and the ledger is unchanged, otherwise the pair is added; proved by `VoteModel.CreateNeverOverwrites` |
| VoteModel.ParseVoteKind | backend/models/Vote.js:13-17 | a kind is recognised exactly for "upvote" and "downvote", and it spells back to the input |
| VoteModel.ParseKindName | backend/models/Vote.js:13-17 | each kind's spelling parses back to the kind |
| VoteModel.CreateNeverOverwrites | backend/models/Vote.js:24-25 | because of the unique index a create succeeds exactly for a new pair with a non-empty fingerprint; no existing record changes, and at most that pair is added |
| VoteModel.VoteCollection.constructor | backend/models/Vote.js:27 | the collection starts empty |
| VoteModel.VoteCollection.FindOne | backend/routes/schools.js:314 | the kind stored for the pair, or none exactly when the pair has no record |
| VoteModel.VoteCollection.Create | backend/routes/schools.js:368-369 | the ledger after the save is what `CreateSpec` gives |
| VoteModel.VoteCollection.SetKind | backend/routes/schools.js:341-343 | saving a changed kind rewrites only that record, or fails when it has vanished |
| VoteModel.VoteCollection.DeleteOne | backend/routes/schools.js:319 | the ledger loses exactly that pair |
| SuggestionModel.NewSuggestion | backend/models/Suggestion.js:3-15 | `new Suggestion({content})`: trimmed content and `createdAt` now |
| SuggestionModel.SchemaValid | backend/models/Suggestion.js:4-10 | trimmed content of 10 to 500 UTF-16 units; proved equivalent by `SuggestionModel.NewSuggestionValid` |
| SuggestionModel.CreateSpec | backend/models/Suggestion.js:3-15 | saving a suggestion: validation, then an insert under a fresh id |
| SuggestionModel.NewSuggestionValid | backend/models/Suggestion.js:3-15 | a new suggestion is valid exactly when its trimmed content is 10..500 units long, and its content is stored trimmed |
| SuggestionModel.SuggestionCollection.constructor | backend/models/Suggestion.js:20 | the collection starts empty |
| SuggestionModel.SuggestionCollection.FindById | backend/routes/admin.js:436 | the stored suggestion, or none exactly when the id is absent |
| SuggestionModel.SuggestionCollection.Create | backend/routes/schools.js:209-213 | the table after the save is what `CreateSpec` gives |
| SuggestionModel.SuggestionCollection.FindByIdAndDelete | backend/routes/admin.js:444 | the table loses exactly that id |
| AnnouncementModel.SchemaValid | backend/models/Announcement.js:4-8 | trimmed content of at most 200 UTF-16 units |
| AnnouncementModel.GetSpec | backend/models/Announcement.js:20-26 | `getAnnouncement`: the first document, or a new empty inactive one; proved by `AnnouncementModel.GetSingleton` |
| AnnouncementModel.UpdateSpec | backend/models/Announcement.js:28-39 | `updateAnnouncement`: the first or a new document gets the trimmed content, `isActive` saying it is non-empty, and the time, then the save validates; proved by `AnnouncementModel.UpdateEffect` |
| AnnouncementModel.GetSingleton | backend/models/Announcement.js:20-26 | with at most one document there is afterwards exactly one; an existing one is returned unchanged, a missing one is created empty and inactive, and a second call creates nothing |
| AnnouncementModel.UpdateEffect | backend/models/Announcement.js:28-39 | at most one document remains; on success the content is the trimmed input, `isActive` holds exactly when it is non-empty, and over 200 units the save fails and nothing changes |
| AnnouncementModel.AnnouncementCollection.constructor | backend/models/Announcement.js:41 | the collection starts empty |
| AnnouncementModel.AnnouncementCollection.GetAnnouncement | backend/models/Announcement.js:20-26 | the collection after the static is what `GetSpec` gives |
| AnnouncementModel.AnnouncementCollection.UpdateAnnouncement | backend/models/Announcement.js:28-39 | the document's fields are assigned and saved, to what `UpdateSpec` gives |
| Validation.IsLength | backend/middleware/validation.js:20 | `isLength({min, max})` on the validator's own length measure |
| Validation.SchoolErrors | backend/middleware/validation.js:17-25 | one error for the name outside 7..39 and one for the city outside 3..14, both measured after trimming |
| Validation.RumorErrors | backend/middleware/validation.js:30-37 | one error for a class outside the labels and one for trimmed content outside 10..10000 |
| Validation.ValidatorLength | backend/middleware/validation.js:20 | `isLength`'s measure never exceeds the number of code points and equals it when no presentation selector occurs |
| Validation.HandleValidationErrors | backend/middleware/validation.js:4-14 | the request goes on exactly when no rule failed; otherwise it ends with invalid input |
| Validation.ValidateSchool | backend/middleware/validation.js:17-27 | the request goes on exactly when the trimmed name is 7..39 and the trimmed city 3..14 long, and the handler then reads the trimmed values |
| Validation.ValidateRumor | backend/middleware/validation.js:30-39 | the request goes on exactly when the class is a listed label, whatever the institution, and the trimmed content is 10..10000 long |
| Validation.ValidatedNameNotTooShort | backend/middleware/validation.js:20 | a name the validator accepts is at least 7 UTF-16 units long, above the schema's minimum of 3 |
| Validation.ValidatedSchoolFitsSchema | backend/middleware/validation.js:17-27 | for text in the Basic Multilingual Plane without presentation selectors, what the validator accepts also fits the schema |
| Validation.AstralNamePassesValidatorOnly | backend/middleware/validation.js:20 | a name of 39 astral code points passes the validator but is beyond the schema's 39-unit maximum |
| Validation.AstralLength | backend/models/School.js:9 | astral code points count twice for `.length` and once for `isLength` |
| Auth.ConfiguredUsername | backend/middleware/auth.js:6 | `process.env.ADMIN_USERNAME || 'admin'`; `Auth.DefaultCredentials` and `Auth.ConfiguredCredentials` state both cases |
| Auth.ConfiguredPassword | backend/middleware/auth.js:7 | `process.env.ADMIN_PASSWORD || 'admin123'`; `Auth.DefaultCredentials` and `Auth.ConfiguredCredentials` state both cases |
| Auth.CredentialsMatch | backend/middleware/auth.js:9 | both body fields strictly equal the configured username and password; proved by `Auth.DefaultCredentials` and `Auth.ConfiguredCredentials` |
| Auth.OrDefault | backend/middleware/auth.js:6-7 | `value \|\| fallback`: a non-empty value is used, an absent or empty one falls back |
| Auth.AdminAuthGate | backend/middleware/auth.js:2-18 | `adminAuth` continues exactly when both body fields equal the configured credentials; otherwise it answers unauthorized |
| Auth.RequireAdmin | backend/middleware/auth.js:21-33 | `requireAdmin` continues exactly when the header is `admin-authenticated`; otherwise it answers unauthorized |
| Auth.Login | backend/routes/admin.js:7-13 | the login answers the token exactly when `adminAuth` lets it through |
| Auth.LoginTokenAccepted | backend/routes/admin.js:11 | a token from a successful login passes `requireAdmin` |
| Auth.DefaultCredentials | backend/middleware/auth.js:6-9 | without environment values exactly admin / admin123 log in |
| Auth.ConfiguredCredentials | backend/middleware/auth.js:6-9 | non-empty environment values log in exactly, and the defaults then no longer do |
| Auth.Request.constructor | backend/middleware/auth.js:3 | a request carries its body fields and is not yet marked admin |
| Auth.AdminAuth | backend/middleware/auth.js:2-18 | the method answers as `AdminAuthGate` does and sets `isAdmin` only when it continues |
| Voting.ClampDec | backend/routes/schools.js:323-325 | `Math.max(0, n - 1)` on a counter; `Voting.ClampNeverFires` shows it never engages while the counters agree with the ledger |
| Voting.Step | backend/routes/schools.js:316-380 | the counter branches and the reported `userVote`: a first vote raises its counter, the same vote again lowers it and reports null, a switch moves one vote across; `Voting.LedgerStepTallies` shows the counters move as the tallies do |
| Voting.LedgerStep | backend/routes/schools.js:319-369 | the vote record is deleted when the same kind is repeated, otherwise created or rewritten to the new kind; proved by `Voting.TallyInsert`, `Voting.TallyRemove` and `Voting.LedgerStepTallies` |
| Voting.Tally | backend/models/Vote.js:3-25 | the number of vote records of one kind on one thread; `Voting.TallyInsert` and `Voting.TallyRemove` give its change under each ledger write |
| Voting.Consistent | backend/routes/schools.js:314-388 | every vote refers to an id already handed out, and each counter equals its tally; preserved by `Voting.CastPreservesConsistency` |
| Voting.CastSpec | backend/routes/schools.js:285-397 | the vote handler: reject a bad type or fingerprint, not found for a missing thread, then add, remove or switch the record and move the counters, and save the thread; its branches are stated by `Voting.CastFirstVote`, `Voting.CastSameKindRemoves` and `Voting.CastSwitchKind` |
| Voting.Increment | backend/routes/schools.js:372-376 | raises the counter of the voted kind by one and changes nothing else of the thread |
| Voting.Decrement | backend/routes/schools.js:322-326 | lowers the counter of the kind by one, never below 0, and changes nothing else of the thread |
| Voting.CastRejectsMalformed | backend/routes/schools.js:290-302 | a vote type outside the two kinds, or an empty fingerprint, is invalid input and changes neither collection |
| Voting.CastUnknownThread | backend/routes/schools.js:305-311 | a well-formed vote on a missing thread is not found and changes neither collection |
| Voting.CastFirstVote | backend/routes/schools.js:366-388 | a first vote adds one record of its kind, raises only that counter by one, touches no other thread and reports that kind |
| Voting.CastSameKindRemoves | backend/routes/schools.js:316-338 | the same kind again deletes the record, lowers that counter clamped at 0 and reports no vote |
| Voting.CastSwitchKind | backend/routes/schools.js:339-364 | the other kind rewrites the record, moves one vote from the old counter (clamped) to the new, reports the new kind, and keeps the total when the old counter was positive |
| Voting.CastOnlyCounters | backend/routes/schools.js:285-397 | a vote changes at most the counters of the thread voted on and no other part of the thread collection |
| Voting.VoteThenRevoteRestores | backend/routes/schools.js:314-388 | voting and then voting the same kind again restores both collections and reports no vote |
| Voting.TallyInsert | backend/routes/schools.js:368-369 | adding a record raises exactly the tally of its thread and kind by one |
| Voting.TallyRemove | backend/routes/schools.js:319 | deleting a record lowers exactly the tally of its thread and kind by one |
| Voting.TallyPositive | backend/models/Vote.js:24-25 | a stored record counts towards its own tally |
| Voting.LedgerStepTallies | backend/routes/schools.js:314-388 | the ledger write changes every tally by exactly what the handler does to the counters |
| Voting.CastPreservesConsistency | backend/routes/schools.js:314-388 | if each counter equals the number of matching vote records before a vote, it still does afterwards |
| Voting.ClampNeverFires | backend/routes/schools.js:323-350 | while counters match the ledger, a removed or switched vote always finds a positive counter |
| Voting.ReplyMatchesLookup | backend/routes/schools.js:400-419 | the reply's `userVote` is what the lookup route reports for the same pair afterwards |
| Voting.UpvoteTwiceClears | backend/routes/schools.js:314-388 | on a fresh thread, an upvote and the same upvote again leave no record and zero counters |
| Voting.UpvoteThenDownvoteSwitches | backend/routes/schools.js:339-364 | on a fresh thread, an upvote then a downvote from the same browser reply with 0 upvotes, 1 downvote and the downvote as `userVote` |
| Voting.CastVote | backend/routes/schools.js:285-397 | the handler's step-by-step reads and writes end in the reply and the collections `CastSpec` gives |
| Voting.GetUserVote | backend/routes/schools.js:400-419 | the kind recorded for the pair, or none exactly when there is no record |
| Integrity.ReferencesValid | backend/routes/schools.js:126-149 | every thread names an existing, approved institution, as the posting route checks; kept by each route's `…Preserves` lemma and by `AdminRoutes.DeleteSchoolCascade` |
| Integrity.Invariant | backend/routes/schools.js:120-166 | the relation every handler keeps: ids fresh, each thread valid and under an approved institution, the class rule, and counters equal to tallies; each route's `…Preserves` lemma shows it is kept |
| Integrity.FreshThreadHasNoVotes | backend/models/Rumor.js:3-25 | an id not yet handed out has no votes, so a new thread's zero counters match the ledger |
| Integrity.InsertThreadPreserves | backend/routes/schools.js:151-152 | storing a valid thread with zero counters under an approved institution keeps the invariant |
| Integrity.ReplaceThreadPreserves | backend/routes/admin.js:211-215 | replacing a thread by a valid one with the same institution and counters keeps the invariant |
| Integrity.RemoveThreadsPreserves | backend/routes/admin.js:182 | removing threads keeps the invariant, although their vote records stay behind |
| Integrity.SchoolsChangePreserves | backend/routes/admin.js:54-131 | a change of institutions that keeps every referenced one approved and keeps the class rule keeps the invariant |
| Integrity.InsertSchoolPreserves | backend/routes/admin.js:359-360 | adding an institution that obeys the class rule keeps the invariant |
| Integrity.VotePreserves | backend/routes/schools.js:285-397 | a vote keeps the invariant |
| SchoolsRoutes.ParseType | backend/routes/schools.js:49-57 | the type defaults to school only when it is absent; any value other than school or college is refused |
| SchoolsRoutes.TypeFilter | backend/routes/schools.js:14-16 | the query's `type` narrows the list only when it is `school` or `college`; `SchoolsRoutes.ListInstitutionsPartition` shows any other value lists both kinds |
| SchoolsRoutes.ListInstitutions | backend/routes/schools.js:9-16 | the approved institutions, of the named kind when the query names one; proved by `SchoolsRoutes.ListInstitutionsPartition` |
| SchoolsRoutes.ListInstitutionsPartition | backend/routes/schools.js:9-16 | the list holds exactly the approved institutions; the two kinds split it; an unrecognised type filter is ignored |
| SchoolsRoutes.DuplicateQuery | backend/routes/schools.js:60-64 | name and city each contain the request's text up to ASCII case, and the kind is the same; status is not part of the query |
| SchoolsRoutes.RequestSpec | backend/routes/schools.js:47-88 | the request handler: validator, type, duplicate query, then a pending record saved; proved by `SchoolsRoutes.RequestOutcome` |
| SchoolsRoutes.RequestOutcome | backend/routes/schools.js:47-88 | a request succeeds exactly when validator, type, duplicate query and schema pass, adding one pending record with trimmed fields and no classes, and otherwise changes nothing |
| SchoolsRoutes.RequestTwiceConflicts | backend/routes/schools.js:60-71 | while the first request is pending, the same request again is a conflict |
| SchoolsRoutes.RequestPreserves | backend/routes/schools.js:47-88 | a request keeps the invariant |
| SchoolsRoutes.RequestInstitution | backend/routes/schools.js:47-88 | the handler's steps on the collection end as `RequestSpec` says |
| SchoolsRoutes.ListRumors | backend/routes/schools.js:91-117 | the institution's threads, of one class unless the filter is empty or `all`; proved by `SchoolsRoutes.ListRumorsFilter` |
| SchoolsRoutes.ListRumorsFilter | backend/routes/schools.js:91-117 | without a filter, or with "all", the list is every thread of the institution; a class filter only narrows it |
| SchoolsRoutes.GetSchool | backend/routes/schools.js:257-282 | the record exactly when the institution exists and is approved, else not found |
| SchoolsRoutes.GetClasses | backend/routes/schools.js:169-194 | the class list of an approved institution, else not found; proved by `SchoolsRoutes.GetClassesByKind` |
| SchoolsRoutes.GetClassesByKind | backend/routes/schools.js:169-194 | under the class rule an approved school offers every class, an approved college none, any other id is not found |
| SchoolsRoutes.PostRumorSpec | backend/routes/schools.js:120-166 | the posting handler: validator, approved lookup, the class for a school only, then the save; proved by `SchoolsRoutes.PostRumorOutcome` |
| SchoolsRoutes.PostRumorRejectsInvalid | backend/middleware/validation.js:30-39 | a class outside the labels or content outside 10..10000 is refused before any lookup, and nothing changes |
| SchoolsRoutes.PostRumorOutcome | backend/routes/schools.js:120-166 | a post succeeds exactly when it passes the validator, names an approved school and fits the schema; it then stores one thread with the class, trimmed content and zero counters |
| SchoolsRoutes.PostRumorSchoolBranch | backend/routes/schools.js:140-152 | under an approved school the thread is built with the class and the trimmed content, then saved |
| SchoolsRoutes.PostRumorCollegeBranch | backend/routes/schools.js:135-152 | under an approved college the thread is built without a class and the save fails |
| SchoolsRoutes.CollegePostNeverSucceeds | backend/routes/schools.js:134-152 | as written, no post under a college ever stores a thread |
| SchoolsRoutes.PostRumorPreserves | backend/routes/schools.js:120-166 | a post keeps the invariant |
| SchoolsRoutes.PostRumor | backend/routes/schools.js:120-166 | the handler's steps on the collections end as `PostRumorSpec` says |
| SchoolsRoutes.PostSuggestionSpec | backend/routes/schools.js:197-227 | trimmed content of 10 to 500 units, then the trimmed suggestion is saved; proved by `SchoolsRoutes.PostSuggestionOutcome` |
| SchoolsRoutes.PostSuggestionOutcome | backend/routes/schools.js:197-227 | trimmed content of 10..500 units is always stored, trimmed, under a fresh id; anything else is refused and nothing changes |
| SchoolsRoutes.PostSuggestion | backend/routes/schools.js:197-227 | the handler's steps on the collection end as `PostSuggestionSpec` says |
| SchoolsRoutes.PublicAnnouncementSpec | backend/routes/schools.js:230-254 | the singleton is fetched (created if absent) and shown only when active with content; proved by `SchoolsRoutes.PublicAfterUpdate` |
| SchoolsRoutes.PublicAfterUpdate | backend/routes/schools.js:236-246 | after an update the public route shows the trimmed text exactly when it is non-empty, and never shows a banner that was never set |
| SchoolsRoutes.PublicAnnouncement | backend/routes/schools.js:230-254 | the handler's steps end as `PublicAnnouncementSpec` says |
| AdminRoutes.Authorized | backend/middleware/auth.js:21-33 | `requireAdmin` lets the request through |
| AdminRoutes.ListPending | backend/routes/admin.js:16-32 | behind the gate, exactly the pending institutions |
| AdminRoutes.ListAll | backend/routes/admin.js:35-51 | behind the gate, every institution whatever its status |
| AdminRoutes.ApprovedRecord | backend/routes/admin.js:74-80 | the fields approval assigns: approved, the classes of the kind, `approvedAt` now |
| AdminRoutes.ApproveSpec | backend/routes/admin.js:54-96 | the approve handler: gate, lookup, pending check, assignments, save; proved by `AdminRoutes.ApproveOutcome` |
| AdminRoutes.ApprovedRecordHook | backend/routes/admin.js:74-82 | the record approval builds obeys the class rule, the hook leaves it as is, and it is valid exactly when name and city still fit |
| AdminRoutes.ApproveOutcome | backend/routes/admin.js:54-96 | unknown id is not found, a record that is not pending is an invalid state, both changing nothing; otherwise the record becomes approved at that time with the classes of its kind |
| AdminRoutes.ApprovePreserves | backend/routes/admin.js:54-96 | approval keeps the invariant |
| AdminRoutes.Approve | backend/routes/admin.js:54-96 | the field assignments and the save end as `ApproveSpec` says |
| AdminRoutes.RejectSpec | backend/routes/admin.js:99-131 | the reject handler: gate, lookup, pending check, delete; proved by `AdminRoutes.RejectOutcome` |
| AdminRoutes.RejectOutcome | backend/routes/admin.js:99-131 | rejection has approval's error cases; on success the record is removed, not marked rejected, and nothing else changes |
| AdminRoutes.RejectPreserves | backend/routes/admin.js:99-131 | rejection keeps the invariant |
| AdminRoutes.Reject | backend/routes/admin.js:99-131 | the handler's steps end as `RejectSpec` says |
| AdminRoutes.DeleteRumorSpec | backend/routes/admin.js:169-195 | gate, lookup, then the thread is deleted; proved by `AdminRoutes.DeleteRumorPreserves` |
| AdminRoutes.DeleteRumorPreserves | backend/routes/admin.js:169-195 | deleting a thread succeeds exactly when the token is the admin token and the thread exists; on success that id alone is removed and the id counter kept, on failure nothing changes, and the invariant is kept |
| AdminRoutes.DeleteRumor | backend/routes/admin.js:169-195 | the handler's steps end as `DeleteRumorSpec` says |
| AdminRoutes.EditRumorSpec | backend/routes/admin.js:198-236 | gate, the trimmed-length check, then `findByIdAndUpdate` with the trimmed content; proved by `AdminRoutes.EditRumorOutcome` |
| AdminRoutes.EditRumorOutcome | backend/routes/admin.js:198-236 | content whose trimmed length is outside 10..10000 is refused even for an unknown id; otherwise only the content changes, to its trimmed form, or the id is not found |
| AdminRoutes.EditRumorPreserves | backend/routes/admin.js:198-236 | an edit keeps the invariant |
| AdminRoutes.EditRumor | backend/routes/admin.js:198-236 | the handler's steps end as `EditRumorSpec` says |
| AdminRoutes.EditSchoolSpec | backend/routes/admin.js:239-276 | gate, both fields present, then `findByIdAndUpdate` with the trimmed fields; proved by `AdminRoutes.EditSchoolOutcome` |
| AdminRoutes.EditSchoolOutcome | backend/routes/admin.js:239-276 | missing name or city is invalid input; otherwise only name and city change, both trimmed, or the id is not found |
| AdminRoutes.EditSchoolStoresBlankName | backend/routes/admin.js:251-255 | with no validator on this path a blank name is accepted and stored empty |
| AdminRoutes.EditSchoolPreserves | backend/routes/admin.js:239-276 | an edit keeps the invariant |
| AdminRoutes.EditSchool | backend/routes/admin.js:239-276 | the handler's steps end as `EditSchoolSpec` says |
| AdminRoutes.DeleteSchoolSpec | backend/routes/admin.js:279-309 | gate, lookup, then the institution's threads and then the institution are deleted; proved by `AdminRoutes.DeleteSchoolCascade` |
| AdminRoutes.DeleteSchoolCascade | backend/routes/admin.js:279-309 | an unknown id is not found and changes nothing; otherwise the institution and all its threads go, every other thread stays, no thread refers to the id, and the invariant holds |
| AdminRoutes.DeleteSchool | backend/routes/admin.js:279-309 | `deleteMany` then `findByIdAndDelete` end as `DeleteSchoolSpec` says |
| AdminRoutes.AdminCreateSpec | backend/routes/admin.js:312-374 | gate, fields present, type, the raw duplicate query, then an approved record saved; proved by `AdminRoutes.AdminCreateOutcome` |
| AdminRoutes.CreatedRecord | backend/routes/admin.js:344-357 | the record stored by admin create is approved at that time and obeys the class rule |
| AdminRoutes.AdminCreateOutcome | backend/routes/admin.js:312-374 | admin create succeeds exactly when name and city are present, the type is known, nothing matches the raw query and the trimmed fields fit the schema; then one approved record is added, otherwise nothing changes |
| AdminRoutes.CreatedHook | backend/routes/admin.js:344-360 | the hook leaves the record admin create builds as it is |
| AdminRoutes.AdminCreatePreserves | backend/routes/admin.js:312-374 | admin create keeps the invariant |
| AdminRoutes.AdminCreatePaddedRepeats | backend/routes/admin.js:331-346 | the same space-padded request succeeds twice on an empty store, leaving two records with the same name and city |
| AdminRoutes.LeadingSpaceTrimmed | backend/routes/admin.js:345 | one leading space is trimmed off a value without outer whitespace |
| AdminRoutes.AdminCreateBelowValidatorMinimum | backend/routes/admin.js:312-360 | an admin create of a 3- to 6-unit name into an empty store succeeds, although the self-service validator refuses that name |
| AdminRoutes.AdminCreateOverShorterNames | backend/routes/admin.js:331-342 | a raw name longer than every stored name matches none of them, so the create goes through |
| AdminRoutes.AdminCreate | backend/routes/admin.js:312-374 | building the data, the conditional classes and the save end as `AdminCreateSpec` says |
| AdminRoutes.SchoolThreads | backend/routes/admin.js:377-407 | behind the gate and for an existing institution of any status, exactly its threads |
| AdminRoutes.ListSuggestions | backend/routes/admin.js:410-428 | behind the gate, every suggestion |
| AdminRoutes.DeleteSuggestionSpec | backend/routes/admin.js:431-457 | gate, lookup, then the suggestion is deleted; proved by `AdminRoutes.DeleteSuggestionOutcome` |
| AdminRoutes.DeleteSuggestionOutcome | backend/routes/admin.js:431-457 | success exactly when the token is the admin token and the suggestion exists; on success that id alone is removed, every other suggestion is unchanged and the id counter kept, on failure nothing changes |
| AdminRoutes.DeleteSuggestion | backend/routes/admin.js:431-457 | the handler's steps end as `DeleteSuggestionSpec` says |
| AdminRoutes.GetAnnouncementSpec | backend/routes/admin.js:460-476 | gate, then `getAnnouncement` whatever the document's state |
| AdminRoutes.UpdateAnnouncementSpec | backend/routes/admin.js:479-498 | gate, then `updateAnnouncement(content \|\| '')`; proved by `AdminRoutes.UpdateWithoutContentClears` and `AnnouncementModel.UpdateEffect` |
| AdminRoutes.UpdateWithoutContentClears | backend/routes/admin.js:479-498 | a missing body content (`content \|\| ''`) clears the announcement and deactivates it |
| AdminRoutes.GetAnnouncement | backend/routes/admin.js:460-476 | the handler's steps end as `GetAnnouncementSpec` says |
| AdminRoutes.UpdateAnnouncement | backend/routes/admin.js:479-498 | the handler's steps end as `UpdateAnnouncementSpec` says |
| AdminRoutes.RoutesRequireToken | backend/middleware/auth.js:21-33 | without the session token every admin route answers unauthorized and changes nothing |
| InitializeData.IsSeed | backend/utils/initializeData.js:6-9 | the existence query: exact name and city, any type or status |
| InitializeData.SeedSpec | backend/utils/initializeData.js:3-26 | one run of the seed: nothing when the store fails or the query finds a record, otherwise the seed document is saved; proved by `InitializeData.SeedOutcome` |
| InitializeData.SeedRecord | backend/utils/initializeData.js:12-18 | the seed is an approved school named Vidya Mandir in Mylapore, offering every class, approved at that time |
| InitializeData.SeedOutcome | backend/utils/initializeData.js:3-26 | when the query finds the seed, or the store fails, nothing changes; otherwise exactly the seed record is added under a fresh id |
| InitializeData.SeedDocument | backend/utils/initializeData.js:12-20 | the document the seed builds is the seed record, it is valid, and the hook leaves it alone |
| InitializeData.SeedBuilt | backend/utils/initializeData.js:12-18 | the setters' trim leaves the seed's fields as written |
| InitializeData.SeedRecordValid | backend/utils/initializeData.js:20 | the seed passes validation |
| InitializeData.SeedNameFixed | backend/utils/initializeData.js:13 | the seed name trims to itself and is 12 units long |
| InitializeData.SeedCityFixed | backend/utils/initializeData.js:14 | the seed city trims to itself and is 8 units long |
| InitializeData.SeedIdempotent | backend/utils/initializeData.js:6-11 | after a run that reached the store, another run changes nothing |
| InitializeData.MatchIds | backend/utils/initializeData.js:6-9 | the ids a query finds are exactly the stored records it matches |
| InitializeData.SeedIds | backend/utils/initializeData.js:6-9 | the ids the seed's existence query finds; `InitializeData.SeedAtMostOne` bounds their number |
| InitializeData.InsertIntoUnmatched | backend/utils/initializeData.js:11-20 | an insert into a store where the query finds nothing leaves the new id as its only hit |
| InitializeData.AtMostOneInSingleton | backend/utils/initializeData.js:6-20 | a set of ids contained in one singleton has at most one element, the count the seed's uniqueness rests on |
| InitializeData.SeedAtMostOne | backend/utils/initializeData.js:6-20 | a run never makes a second record of the seed's name and city |
| InitializeData.SeedTwiceAtMostOne | backend/utils/initializeData.js:6-20 | two runs in sequence on a store with at most one record of the seed's name and city, an already seeded store among them, leave at most one such record |
| InitializeData.SeedPreserves | backend/utils/initializeData.js:3-26 | the seed keeps the invariant |
| InitializeData.InitializeDefaultSchool | backend/utils/initializeData.js:3-26 | the lookup and conditional save end as `SeedSpec` says, and no error reaches the caller |
| Footer.GetBackUrl | frontend/src/components/Footer.jsx:11-43 | there is no back link exactly for `/` and `/admin` |
| Footer.Segment | frontend/src/components/Footer.jsx:24-30 | `parts[i]` in a template literal, reading `undefined` past the end |
| Footer.Route | frontend/src/components/Footer.jsx:24 | a path built from separator-free segments; `Footer.RouteSegments` shows `split('/')` takes it back apart |
| Footer.RouteSegments | frontend/src/components/Footer.jsx:24 | a route built from separator-free segments splits into "" and those segments |
| Footer.RouteExtend | frontend/src/components/Footer.jsx:27 | adding a segment to a route appends `/` and the segment |
| Footer.JoinSnoc | frontend/src/components/Footer.jsx:27 | joining one more part appends the separator and the part |
| Footer.IncludesSuffix | frontend/src/components/Footer.jsx:20 | a text ending in `t` includes `t`, as `includes('/create')` requires |
| Footer.ClassCreatePath | frontend/src/components/Footer.jsx:20-27 | the segments of the thread-form route join to `/school/S/class/C/create` |
| Footer.ClassPagePath | frontend/src/components/Footer.jsx:32-36 | the segments of the class-page route join to `/school/S/class/C` |
| Footer.ClassCreateRoute | frontend/src/components/Footer.jsx:20-27 | `/school/S/class/C/create` splits into its six segments and includes `/create` |
| Footer.CollegeCreateRoute | frontend/src/components/Footer.jsx:20-30 | `/college/S/create` splits into its four segments and includes `/create` |
| Footer.ClassPageRoute | frontend/src/components/Footer.jsx:32-36 | `/school/S/class/C` splits into its five segments and includes `/class/` |
| Footer.BackFromClassCreate | frontend/src/components/Footer.jsx:20-27 | outside the admin area the thread form of a class leads back to its class page `/school/S/class/C` |
| Footer.BackFromCollegeCreate | frontend/src/components/Footer.jsx:28-30 | a create route without a `class` segment, the college form, leads to `/school/S` |
| Footer.BackFromClassPage | frontend/src/components/Footer.jsx:32-36 | a class page that is not a create route leads back to `/school/S` |
| Footer.AdminSchoolComesFirst | frontend/src/components/Footer.jsx:16-20 | a path containing `/admin/school/` leads to `/admin` even when it also contains `/create` |
| Footer.BackToHome | frontend/src/components/Footer.jsx:37-42 | a path that no earlier check claims, a school page among them, leads to `/` |
| Footer.BackFromAdminSchool | frontend/src/components/Footer.jsx:16-19 | the admin school view leads back to `/admin` |
| ClassPage.Words | frontend/src/components/ClassPage.jsx:24 | `text.split(' ')` |
| ClassPage.TruncateText | frontend/src/components/ClassPage.jsx:23-33 | `truncateText`: the text when it has at most `maxLines * 8` words, else the first that many joined by spaces and `...`; proved by `ClassPage.TruncateKeepsShort`, `ClassPage.TruncatedIsPrefix` and `ClassPage.TruncatedWords` |
| ClassPage.ShouldTruncate | frontend/src/components/ClassPage.jsx:81 | more than 16 space-split words; proved equivalent to truncation changing the text by `ClassPage.ShouldTruncateIffChanged` |
| ClassPage.Displayed | frontend/src/components/ClassPage.jsx:86-89 | the card's text: the content when expanded or short, else its truncation; proved by `ClassPage.DisplayedShortened` |
| ClassPage.TruncateKeepsShort | frontend/src/components/ClassPage.jsx:23-30 | text of at most `maxLines * 8` space-separated words comes back unchanged |
| ClassPage.TruncatedIsPrefix | frontend/src/components/ClassPage.jsx:32 | longer text becomes a prefix of itself followed by `...`; with at least one line the prefix is strictly shorter and followed by a space |
| ClassPage.TruncatedWords | frontend/src/components/ClassPage.jsx:32 | the kept prefix consists of exactly the first `maxLines * 8` words |
| ClassPage.ShouldTruncateIffChanged | frontend/src/components/ClassPage.jsx:81 | the "Show more" threshold holds exactly when the default truncation changes the text |
| ClassPage.DisplayedShortened | frontend/src/components/ClassPage.jsx:86-89 | a card shows something other than the content exactly when it is collapsed and long |
| ClassPage.Toggle | frontend/src/components/ClassPage.jsx:13-21 | the set after `toggleExpanded`: the id removed if present, else added; proved by `ClassPage.ToggleFlipsOnly` and `ClassPage.ToggleTwice` |
| ClassPage.ToggleFlipsOnly | frontend/src/components/ClassPage.jsx:13-21 | toggling flips the membership of the id and of no other id |
| ClassPage.ToggleTwice | frontend/src/components/ClassPage.jsx:13-21 | toggling the same id twice restores the set |
| ClassPage.IdSet.constructor | frontend/src/components/ClassPage.jsx:11 | `new Set()` is empty |
| ClassPage.IdSet.Copy | frontend/src/components/ClassPage.jsx:14 | `new Set(source)` has the same members |
| ClassPage.IdSet.Has | frontend/src/components/ClassPage.jsx:15 | reports membership |
| ClassPage.IdSet.Add | frontend/src/components/ClassPage.jsx:18 | adds exactly the id |
| ClassPage.IdSet.Delete | frontend/src/components/ClassPage.jsx:16 | removes exactly the id |
| ClassPage.ToggleExpanded | frontend/src/components/ClassPage.jsx:13-21 | the new state is a fresh set equal to the old one with the id toggled, and the old set object is left unchanged |

## Left out

- Concurrency: the vote handler is a read-modify-write spread over several awaits, and the cascade delete is two store calls. The model covers single sequential requests.
- Regular-expression metacharacters in the duplicate query: user text is compiled into a pattern, and the model treats it as a literal. Case folding covers ASCII letters only.
- Query plumbing: sorting by `createdAt`, `.limit(50)`, `.select` projections, `populate`, and the per-institution rumor counts of the public list (backend/routes/schools.js:18-31, 102-104). These shape replies and change no stored state.
- The admin statistics route (backend/routes/admin.js:134-166): it only counts and lists, with date arithmetic on the clock.
- Status codes, reply messages and JSON envelopes: a handler returns a Result whose error kind stands for the status.
- Timestamps are values passed in by the caller. The vote record's `createdAt` is not stored, because no rule reads it.
- Store failures and invalid ObjectId casts: one flag (`storeUp` in the seed) or the `Unexpected` error of a failing save stands for a thrown exception. No other store call fails.
- Non-string request body values (numbers, arrays, objects): absent fields are `None` or "", and every present field is a string.
- The console logging of `initializeDefaultSchool`.
- The browser fingerprint (frontend/src/utils/fingerprint.js): it is treated as an opaque string key, and only its emptiness matters.
- frontend/src/services/api.js, backend/routes/ping.js, and React rendering and hook state apart from the two helpers: HTTP wrappers, uptime reporting and views with no rules of their own.
- JavaScript `Set` insertion order: `ClassPage.IdSet` holds a mathematical set, since the page only asks for membership.
- Auth.Login: the login route is modelled as a function of the environment and the body, because it only answers the token.
- Footer.BackFromClassCreate: assumes the path does not contain `/admin/school/`, because that earlier check would claim it. Footer.AdminSchoolComesFirst covers that case.
- Footer.BackFromClassPage: assumes the path contains neither `/admin/school/` nor `/create`, because those checks come first. Footer.AdminSchoolComesFirst and Footer.BackFromClassCreate cover those cases.
- Footer.BackFromCollegeCreate: assumes the college segment is not literally `class`, because then the `class` branch would apply.
- Voting.CastSpec: as written the counters are not schema paths, so they are never saved and the replies carry `null` counts; the model keeps the natural-number counters the handler intends.
- Voting.CastPreservesConsistency: assumes the thread voted on passes validation. A failing counter save leaves the ledger already changed, and the counters then disagree with it.
