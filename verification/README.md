# Verification model of the relay core

A Dafny model of the stateful core of a Nostr relay: the SQLite event store, the filter compiler
and the live matcher, the database writer with its rate limits, one client connection with NIP-42
authentication, the pay-to-relay ledger, and three text codecs. The main theorems are about all
inputs, all runs or all reachable states of the model; where the code falls short of a property,
the exact condition is stated for all inputs, and an instance shows that it can fail.

`dafny verify dfyconfig.toml` checks the whole project.

## Layout

| file | what it holds |
|---|---|
| `Common.dfy`, `Hex.dfy`, `Decimal.dfy` | options, hexadecimal and decimal text |
| `Event.dfy` | events, kind classes, `d` value, expiry, the tag index |
| `EventTables.dfy` | the event and tag tables; every SQL statement of the write path as a function; runs |
| `StoreInvariants.dfy` | what every write and cleanup keeps; the tag table as a projection |
| `StoreEffect.dfy` | one write said without the tag table: who leaves, who is hidden, who is refused |
| `StoreRuns.dfy` | whole runs in closed form: last writer wins, and exactly what is hidden |
| `StoreOrder.dfy` | exactly when the order of arrival does not matter |
| `StoreSafety.dfy` | reachable states, cleanups included: replaceable kinds unique, deletions honoured |
| `StoreSlots.dfy` | one row per slot, and exactly which events can share one |
| `StoreMeaning.dfy` | the store in plain numbers and tags: one event per kind, the newest, deletions, expiry |
| `StoreExact.dfy` | parameterized events with any number of `d` values: who outlives a write |
| `StoreRefusal.dfy` | once accepted, refused ever after |
| `EventStore.dfy` | the store as an object: `persist_event`, `delete_expired`, the tag rebuild |
| `Filters.dfy`, `Sql.dfy`, `QueryCompiler.dfy`, `QueryAgreement.dfy` | matcher, SQL with positional parameters and three-valued logic, compiler, agreement |
| `QueryMeaning.dfy` | what a filter asks for, field by field, of live and of stored events |
| `QueryStream.dfy` | the row loop of a subscription query |
| `RateLimit.dfy`, `Writer.dfy`, `WriterExact.dfy` | sliding windows, the rule loop, the write and broadcast steps, and exactly which events can be broadcast twice |
| `Access.dfy`, `Connection.dfy`, `ClientConnection.dfy` | read gate, connection steps, the objects that perform them |
| `ReadMeaning.dfy` | who is authenticated, who may read what, and what a request does, in plain terms |
| `Ledger.dfy`, `PaymentLedger.dfy` | accounts, invoices and the log that explains every balance |
| `Canonical.dfy`, `Delegation.dfy`, `Notice.dfy` | event serialization, NIP-26 conditions, OK reasons |

Code that changes state is a class or a method with a loop. Each such method is proved against a
function of the old state (`Persist`, `Step`, `Handle`, `OnReq`, ...), and the theorems over runs
are about those functions. What those functions come to is then said without them, in numbers,
tags and letters, by the lemmas whose names end in `Means`, `Meaning`, `Texts` or `Exactly`.

## Hypotheses on events

- `Storable`: id and author are hexadecimal, numbers are below 2^63, and a parameterized event is
  indexed once, under its own `d` value. `Sound`: also, the id is 64 lowercase digits.
- `IdsNameFields`: equal ids mean equal fields, because the id is their hash. Signatures are left
  open: an author can make several for one id.
- `AtMostOneD`: a parameterized event has no d row, or one, under its own `d` value.
- `UniqueNewest`, `OneSignature` and `SpellingsAgree` are not assumed but exact: the order of
  arrival does not matter if and only if all three hold (`StoreOrder.OrderIndependenceExactly`).
  One signature per id, distinct timestamps within a slot and lowercase `e` tags are enough for
  them (`StoreOrder.EnoughForOrder`).
- A `tie` number with every write decides which of equally new rows SQL returns first; every
  theorem holds for all ties.

## Where the code falls short

Each of these is a proved statement about the model of the code as it is.

- One deletion path decodes the `e` tag and the other compares text. So a row is hidden exactly
  when a deletion names it by text at any time, or by hash in any spelling after it arrived
  (`StoreRuns.HiddenExactly`), and the order matters for a set of events exactly when some kept
  event is named by hash and by nobody as text, or two newest events share a slot, or an id without
  a slot comes with two signatures (`StoreOrder.OrderIndependenceExactly`, with instances in
  `StoreOrder.DeletionOrderMattersForSome` and `StoreOrder.SignatureOrderMatters`).
- A parameterized event with its own `d` value twice removes itself in any store; without a valued
  first `d` tag it can be stored outside its slot (`StoreExact.OutlivesOwnWriteExactly`). Then a
  second event of the slot is stored beside it, such as no tags and then `[["d",""]]`
  (`StoreSlots.SharedSlotInstance`). Among the rows indexed under their own `d` value, every slot
  has at most one, whatever was submitted (`StoreSlots.IndexedSlotsUnique`); and among events
  indexed so, exactly the parameterized events indexed so themselves keep every slot to one row
  (`StoreSlots.SlotUniqueExactly`).
- A parameterized event that also carries a foreign `d` value is removed by the write of any event
  that is accepted for that foreign slot and indexed there, and its own slot loses it
  (`StoreExact.RemovesExactly`, `StoreExact.LosesSlotToOther`).
- A parameterized event can be broadcast twice exactly when it carries a `d` value at all
  (`WriterExact.BroadcastTwiceExactly`): between its two arrivals, a newer event that names that
  value twice removes it and then itself, such as `[["d","p"]]` at time 7 and
  `[["d","p"],["d","p"]]` at time 8 (`WriterExact.RepeaterInstance`). If every other event has no
  d row or one under its own value, an id is broadcast twice in some run exactly when this event is
  not like that (`WriterExact.BroadcastOnceExactly`): sent twice if the own value is repeated; otherwise with an
  event of the foreign slot in between, such as `[["d","p"],["d","q"]]` at time 7, then
  `[["d","q"]]` at time 8 (`WriterExact.ForeignDInstance`). These exact conditions are for
  timestamps that leave room for a newer one.
- Stored queries want full spellings in any case, the live matcher lowercase prefixes. For any
  filter and row, exactly when they agree is `QueryAgreement.AgreementExactly`; shortened and
  uppercase authors are instances of disagreement (`QueryAgreement.PrefixesDisagree`,
  `QueryAgreement.UppercaseDisagrees`). The comments in src/repo/sqlite.rs speak of prefix matches;
  the code compares whole hashes, and the model follows the code.
- An invoice is credited as often as the processor's answers for it go from Unpaid to Paid
  (`Ledger.CreditsAreRises`), so a retracted and confirmed payment is credited twice
  (`Ledger.RetractionCreditsTwice`). A repeated callback takes the admission cost again, and keeps
  the books free of debts exactly if the owner has it (`Ledger.SettlementSolventExactly`).
- No balance is ever positive in a run from empty books, with any processor, so no event is ever
  charged, and a positive cost per event lets nobody but whitelisted authors write
  (`Ledger.NobodyCanPayPerEvent`).
- Joining two condition texts with `&` fails after an empty text and after a text that ends in `&`
  (`Delegation.JoinedTexts`).
- `ensure_reason` with the fallback `saved` yields a text with no known prefix, unless the message
  brought one (`Notice.EnsuredParses`).

## Model

| member | source | states |
|---|---|---|
| `Events.BuildIndex` | src/event.rs:271-295 | no index without tags; otherwise a name and value are in the index exactly when some valued one-character tag carries them |
| `Events.TagValuesAreIndexed` | src/event.rs:309-316 | the values found by name are exactly the indexed values of that name |
| `Events.ExpirationMeans` | src/event.rs:157-169 | an event expires at n exactly when its first tag named expiration has n as its value |
| `Events.TagValuesMean` | src/event.rs:309-316 | the values by name are the second elements of the tags with that name and a value |
| `Hex.DecodeInjectiveOnLower` | src/utils.rs:32-38 | two lowercase spellings of the same bytes are the same text |
| `Hex.DecodesIffSpelled` | src/repo/sqlite.rs:991-995 | a text decodes to the bytes of a canonical one exactly when it is that text in any case |
| `Hex.DecodeEncode` | src/repo/sqlite.rs:112-113 | decoding reads back every byte written as two lowercase digits, high digit first |
| `StoreInvariants.PersistKeepsValid` | src/repo/sqlite.rs:105-246 | whatever event is written, rows agree with their events, hashes stay unique and the tag table stays the projection |
| `StoreInvariants.RunValid` | src/repo/sqlite.rs:105-246 | every store reachable by writes and cleanups is valid |
| `StoreInvariants.TagTableIsProjection` | src/repo/sqlite.rs:152-166 | in every reachable store each tag row occurs exactly as often as its stored event carries that tag, and no other row occurs |
| `StoreInvariants.DeleteKeepsProjected` | src/repo/sqlite_migration.rs:72-81 | a delete with its cascade leaves no orphan tag row and loses no row of an event that stays |
| `StoreInvariants.TagRowIffTag` | src/repo/sqlite.rs:152-166 | a tag row of a name and value exists exactly when the stored event has that valued tag |
| `StoreInvariants.TagRowCopies` | src/repo/sqlite_migration.rs:68-81 | kind and timestamp copied into a tag row are those of its event |
| `StoreEffect.ShadowedIffRival` | src/repo/sqlite.rs:118-137 | the two shadow queries refuse a write exactly when a stored event of the same slot is at least as new |
| `StoreEffect.ReplacedEffect` | src/repo/sqlite.rs:170-199 | an accepted write removes exactly the rivals of its slot and adds its own row |
| `StoreEffect.ContentEffect` | src/repo/sqlite.rs:105-246 | a storable event is inserted exactly when its hash is new and it is newer than its rivals; otherwise nothing changes |
| `StoreEffect.PersistEffect` | src/repo/sqlite.rs:201-245 | for every storable event: the new row is hidden exactly when a stored deletion names it by text, a deletion hides exactly what it names by hash, and the count reported is 1 exactly when the new row is visible |
| `StoreEffect.DeletionRecordedIff` | src/repo/sqlite.rs:225-228 | the query for a recorded deletion succeeds exactly when a stored kind-5 event of the author lists the id |
| `StoreRuns.LastWriterWins` | src/repo/sqlite.rs:118-148 | after any run of writes the store holds exactly the first-arrived among the newest of every slot, and without a slot the first of every id |
| `StoreRuns.HiddenExactly` | src/repo/sqlite.rs:201-243 | after any run of writes a row is hidden exactly when a submitted deletion names it by text, whichever came first, or names its hash in any spelling and first arrived after it |
| `StoreRuns.ViewExactly` | src/repo/sqlite.rs:105-246 | which events a run leaves, and with which hidden flag, is decided by the sequence of submissions alone |
| `StoreOrder.OrderIndependence` | src/repo/sqlite.rs:105-246 | two runs that submit the same set of events, in any order and with any repetitions, end with the same events and hidden flags |
| `StoreOrder.OrderIndependenceExactly` | src/repo/sqlite.rs:105-246 | all orders of a set of events agree exactly when every slot has one newest event, every id without a slot one signature, and every kept event named by hash is named by text |
| `StoreOrder.EnoughForOrder` | src/repo/sqlite.rs:118-228 | one signature per id, distinct timestamps within a slot and lowercase e tags are enough for the order not to matter |
| `StoreOrder.NamesHashIffNamesId` | src/repo/sqlite.rs:203-228 | for lowercase targets, comparing decoded hashes and comparing text is the same |
| `StoreOrder.DeletionOrderMatters` | src/repo/sqlite.rs:203-228 | all runs of one event and one deletion agree exactly unless the deletion names it in another spelling only |
| `StoreOrder.DeletionOrderMattersForSome` | src/repo/sqlite.rs:203-228 | a concrete event and deletion by one author on which the orders differ |
| `StoreOrder.SignatureOrderMatters` | src/repo/sqlite.rs:139-148 | two signatures for one id of any event: the orders differ |
| `StoreSafety.ReplaceableSlotsUnique` | src/repo/sqlite.rs:170-187 | any events, cleanups included: at most one row per author and replaceable kind |
| `StoreMeaning.OnePerReplaceableKind` | src/event.rs:173-178 | any events, cleanups included: one event per author for kind 0, 3, 41 and each from 10000 to 19999 |
| `StoreMeaning.OnePerParameterizedKind` | src/repo/sqlite.rs:189-199 | any events, cleanups included: one event per author, kind from 30000 to 39999 and value of its only d tag |
| `StoreMeaning.NewestReplaceableLeft` | src/repo/sqlite.rs:118-187 | for every submitted event of those replaceable kinds a run leaves one of its author and kind as new as any submitted |
| `StoreMeaning.NewestParameterizedLeft` | src/repo/sqlite.rs:128-199 | the same for the kinds 30000 to 39999 by d value |
| `StoreMeaning.OrdinaryKept` | src/repo/sqlite.rs:139-148 | an event whose kind is in none of these classes is in the store after any run of writes |
| `StoreMeaning.DeletedAreHidden` | src/repo/sqlite.rs:201-243 | any events, cleanups included: an event is hidden while a kind-5 event by its author with its id in an e tag is stored |
| `StoreMeaning.HiddenWereDeleted` | src/repo/sqlite.rs:201-243 | nothing is hidden that no submitted kind-5 event by its author spells in an e tag |
| `StoreMeaning.CleanupRemovesExactly` | src/repo/sqlite.rs:1223-1231 | a cleanup removes exactly the events whose first expiration tag is a number up to now, and changes no other row |
| `StoreSlots.IndexedSlotsUnique` | src/repo/sqlite.rs:118-199 | any events, cleanups included: at most one row per slot among those indexed under their own d value |
| `StoreSlots.SlotUniqueness` | src/repo/sqlite.rs:118-199 | cleanups included: at most one row per slot if every parameterized event is indexed under its own d value, be it repeatedly or among foreign values |
| `StoreSlots.NonemptySlotsUnique` | src/repo/sqlite.rs:118-199 | any events, cleanups included: a slot with a d value other than the empty text has at most one row |
| `StoreSlots.SlotUniqueExactly` | src/repo/sqlite.rs:118-199 | among events indexed under their own d value, a parameterized event never makes a slot hold two rows exactly when it is indexed so too |
| `StoreSlots.SharedSlotInstance` | src/repo/sqlite.rs:118-199 | an event without tags and one with an empty d value share a slot |
| `StoreSafety.DeletionInvariant` | src/repo/sqlite.rs:201-243 | any events, cleanups included: no visible row is named in a lowercase e tag of a stored deletion by its author |
| `StoreRefusal.PersistKeepsRefused` | src/repo/sqlite.rs:118-199 | an event that would be refused now is still refused after any write: what is removed is outlived by something at least as new |
| `StoreRefusal.ReportedIsVisible` | src/repo/sqlite.rs:139-246 | a reported new row was not refused, is stored and visible, and is refused from then on |
| `StoreRefusal.StoredWereSubmitted` | src/repo/sqlite.rs:139-148 | every stored event was submitted |
| `StoreExact.OutlivesOwnWriteExactly` | src/repo/sqlite.rs:189-199 | in any valid store an accepted parameterized event is stored afterwards exactly with at most one row in its own slot, and holds the slot exactly with one |
| `StoreExact.RemovesExactly` | src/repo/sqlite.rs:189-199 | in any valid store the write of a parameterized event removes exactly the rows of its author and kind that carry its d value, as their own or as a foreign one |
| `StoreExact.LosesSlotToOther` | src/repo/sqlite.rs:189-199 | a stored event of another slot is removed exactly when it carries the new d value as a foreign one |
| `EventStore.Store.PersistEvent` | src/repo/sqlite.rs:105-246 | the step-by-step write ends in the tables and count of its specification and keeps them valid |
| `EventStore.Store.InsertTags` | src/repo/sqlite.rs:152-166 | the loop appends exactly the derived tag rows of the event, in order |
| `EventStore.Store.NamedHashes` | src/repo/sqlite.rs:202-210 | the bound hashes are exactly the decoded 64-digit e values |
| `EventStore.Store.RemoveExpired` | src/repo/sqlite.rs:1223-1231 | exactly the expired rows leave, with their tag rows, and their number is returned |
| `EventStore.Store.RebuildTags` | src/repo/sqlite_migration.rs:734-767 | whatever the tag table held, the rebuild makes it exactly the projection of the events |
| `Filters.IntersectsIffHasTag` | src/event.rs:411-424 | the index of a live event intersects the wanted values exactly when the event carries one of them |
| `Filters.PrefixOfCanonical` | src/subscription.rs:286-294 | among full-length prefixes only the text itself matches |
| `Sql.EvalLocal` | src/repo/sqlite.rs:962-1099 | a condition depends on its own positional parameters only |
| `Sql.AppendCondition` | src/repo/sqlite.rs:1086-1090 | a condition appended with its parameters keeps its meaning and that of all earlier ones |
| `Sql.AnswerExists` | src/repo/sqlite.rs:1091-1097 | every query whose limit fits 64 bits has an answer in the required order and number |
| `QueryCompiler.BytesCondition` | src/repo/sqlite.rs:988-1002 | the generated alternatives hold exactly when some listed text decodes to the column, and never for an empty list |
| `QueryCompiler.TagCondition` | src/repo/sqlite.rs:1030-1069 | the subquery holds exactly when a tag row of the event has the name, a wanted value, and fits kinds and times |
| `QueryCompiler.AppendTags` | src/repo/sqlite.rs:1028-1070 | the loop over tag names adds exactly one required condition per name, in any order of the map |
| `QueryCompiler.InPlaceholders` | src/repo/sqlite.rs:1317-1325 | a list of placeholders takes exactly its parameters, and membership in it is membership among them |
| `QueryCompiler.QueryFromFilter` | src/repo/sqlite.rs:962-1099 | one placeholder per parameter, and exactly the visible, unexpired rows that match every field of the filter are selected; a limit means newest first |
| `QueryAgreement.WantedIffInterested` | src/subscription.rs:296-352 | when id and author are found alike, what the filter asks of the row is what the live matcher asks of the event |
| `QueryAgreement.CompilerCorrect` | src/repo/sqlite.rs:962-1099 | in every reachable store an answer is exactly the visible, unexpired rows the live matcher accepts, oldest first; with limit n, n newest of them |
| `QueryAgreement.CanonicalAnswers` | src/repo/sqlite.rs:962-1099 | for full lowercase ids and authors and no limit, the answer holds exactly the visible, unexpired rows the live matcher accepts |
| `QueryAgreement.AgreementExactly` | src/repo/sqlite.rs:988-1090 | for any filter and row, exactly when stored query and live matcher agree: if all else matches, both must find id and author, one by full spelling in any case, the other by lowercase prefix, or neither |
| `QueryAgreement.PrefixesDisagree` | src/subscription.rs:286-294 | a shortened author is found live and never by a stored query |
| `QueryAgreement.UppercaseDisagrees` | src/repo/sqlite.rs:991-995 | an author with an uppercase letter is found by a stored query and never live |
| `QueryAgreement.ExpiryInvisible` | src/repo/sqlite.rs:1081-1097 | at any later time a query has the same answers whether or not the cleanup ran |
| `QueryMeaning.LiveMeaning` | src/subscription.rs:296-352 | the live matcher accepts exactly if every given field matches: beginnings of id and author or delegator, kind, since <= created_at <= until, and for every tag name one of the values |
| `QueryMeaning.StoredMeaning` | src/repo/sqlite.rs:962-1099 | the compiled query asks exactly for visible, unexpired events of which every given field matches, ids and authors in full |
| `QueryMeaning.AnsweredAreWanted` | src/repo/sqlite.rs:962-1099 | in any reachable store every answered event is visible and unexpired and matches every given field, said over its tags and numbers |
| `QueryMeaning.WantedAreAnswered` | src/repo/sqlite.rs:962-1099 | without a limit every such event is answered |
| `QueryMeaning.BetweenMeaning` | src/repo/sqlite.rs:1072-1080 | a filter from s to u is answered by exactly the visible, unexpired events made from s to u, and accepts live exactly those made from s to u |
| `QueryStream.QuerySubscription` | src/repo/sqlite.rs:386-535 | each filter is compiled and answered by its tables; unaborted: all answers in order and one EOSE; aborted: a prefix, no EOSE, and a reason; after a cancel at most 99 more rows across all filters |
| `QueryStream.StreamedInterest` | src/repo/sqlite.rs:386-503 | every event streamed, in full or in part, is the content of a visible, unexpired row whose live form interests the subscription |
| `QueryStream.WantedAreStreamed` | src/repo/sqlite.rs:386-503 | a finished stream shows every row that an unlimited filter wants |
| `RateLimit.WindowBound` | src/db.rs:124-143 | a sorted history whose entries that many apart are a window apart has at most that many in any half-open window |
| `RateLimit.Decide` | src/db.rs:130-142 | the pruned queue decides as the full history: accepted exactly when fewer than the maximum are younger than the window |
| `RateLimit.SlidingWindowLimiter.Check` | src/db.rs:124-143 | the decision of the full history of that key, which is then extended; other keys keep theirs |
| `RateLimit.SlidingWindowLimiter.YoungerMeans` | src/db.rs:127-137 | what is compared with the maximum is the number of accepted events of the key less than the window of seconds old |
| `RateLimit.SlidingWindowLimiter.Bound` | src/db.rs:107-144 | in every state every half-open window holds at most `max_events` accepts of a key |
| `RateLimit.KindRateRules.CheckRules` | src/db.rs:826-838 | a submission is refused exactly when some rule has no room, although earlier rules have recorded it by then |
| `RateLimit.KindRateRules.EveryRuleBound` | src/db.rs:826-857 | the submissions that pass obey the bound of every rule, in every window and for every key |
| `RateLimit.KindRateRules.AuthorBound` | src/db.rs:829-831 | a rule per npub: of each author at most so many events pass in any window of its seconds |
| `RateLimit.KindRateRules.AddressBound` | src/db.rs:829-832 | a rule per ip: from each address at most so many events pass in any window of its seconds |
| `RateLimit.KindRateRules.GlobalBound` | src/db.rs:829-830 | a global rule: at most so many events pass in any window of its seconds |
| `Writer.BroadcastAtMostOnce` | src/db.rs:871-910 | over any run no id of a non-ephemeral event is broadcast twice, even under another signature |
| `Writer.BroadcastIsVisible` | src/db.rs:884-902 | at the moment of its broadcast a non-ephemeral event is stored and not hidden |
| `Writer.BroadcastExactly` | src/db.rs:884-902 | a storable event is broadcast exactly when its id was not submitted before, it is newer than its slot and no submitted deletion names it |
| `Writer.InsertsExactly` | src/repo/sqlite.rs:118-148 | what the store accepts, said in terms of the submissions alone |
| `Writer.WorkIsRun` | src/db.rs:869-910 | the tables of the writer are those of the run of its writes |
| `Writer.EphemeralBroadcast` | src/db.rs:871-882 | after any run an admitted event of kind 20000 to 29999 is broadcast, not stored, and answered with saved |
| `Writer.ReplyMeans` | src/db.rs:871-910 | rejected exactly without admission, saved exactly when broadcast, error exactly for a locked or failed write, duplicate exactly when a write reported no new row |
| `WriterExact.BroadcastTwiceExactly` | src/db.rs:884-902 | some run, of any events, broadcasts the id of a parameterized event twice exactly when the event carries a d value |
| `WriterExact.UnindexedStays` | src/repo/sqlite.rs:170-199 | a stored parameterized event without d rows is never removed by a write |
| `WriterExact.RepeaterInstance` | src/db.rs:884-902 | a concrete storable event with one d value, and the run that broadcasts it twice |
| `WriterExact.BroadcastOnceExactly` | src/db.rs:884-902 | while the other events have at most one d value, no run broadcasts an id twice exactly when this parameterized event has at most one too |
| `WriterExact.BroadcastAgain` | src/db.rs:884-902 | every parameterized event with more d values has a run that broadcasts it twice, alone or with a newer event of a foreign slot in between |
| `WriterExact.ForeignDInstance` | src/db.rs:884-902 | a concrete event with a foreign d value, one row in its own slot, and the run that broadcasts it twice |
| `Writer.DbWriter.HandleEvent` | src/db.rs:869-910 | one turn of the writer loop on the real store: tables, broadcasts and reply of the specification |
| `Connection.AuthOrigin` | src/conn.rs:159-281 | a connection is authenticated as a key only if an earlier message by that key passed every check against its own challenge |
| `Connection.AuthStays` | src/conn.rs:160-165 | once authenticated, always authenticated as the same key |
| `Connection.AuthExactly` | src/conn.rs:159-281 | a connection is authenticated as a key exactly when the first complete authentication while it was open was by that key |
| `ReadMeaning.AuthenticatedMeans` | src/conn.rs:175-281 | an authenticated session received a valid event by that key, of kind 22242, within 600 seconds, whose last challenge tag is this challenge and whose last relay tag has our host |
| `ReadMeaning.AuthenticatesExactly` | src/conn.rs:159-281 | an AUTH message changes a waiting connection exactly if its event is such, and then to its key |
| `ReadMeaning.OtherChallengeIgnored` | src/conn.rs:219-239 | an event with another challenge or none never changes anything |
| `Connection.PrivilegedReads` | src/server.rs:1059-1132 | every frame of a privileged kind follows a complete authentication, within 600 seconds of its time, by the author or a p-tagged key, which never changes afterwards |
| `Connection.PrivilegedRowExactly` | src/server.rs:1059-1132 | a privileged row is sent on an open connection exactly if the first complete authentication was by its author or a p-tagged key that passes the other gates |
| `Connection.RestrictedReads` | src/server.rs:1086-1131 | frames of auth-only kinds and restricted direct messages follow a complete authentication, for messages by sender or first recipient |
| `ReadMeaning.ReadConfigMeans` | src/kind_filters.rs:268-343 | a read configuration lets through exactly: script yes, not denied, and listed, or involved if privileged, or allow-all if not |
| `ReadMeaning.RowsSentExactly` | src/server.rs:1059-1132 | over all runs a stored row is sent exactly when it is readable, said over lists, tags and numbers, and unchanged |
| `ReadMeaning.ListedKindSentExactly` | src/kind_filters.rs:323-343 | a row of a kind with a plain read configuration is sent exactly when script, deny and allow say so, identifier by identifier |
| `ReadMeaning.PrivilegedListSentExactly` | src/kind_filters.rs:331-340 | a row of a privileged kind with an allow list is sent exactly to the listed, the author and the p-tagged |
| `ReadMeaning.OpenKindSent` | src/server.rs:1081-1131 | a row of a kind without configuration is sent to anybody unless expired |
| `ReadMeaning.LiveSentExactly` | src/server.rs:1264-1287 | a live event is sent exactly for the subscriptions of which a filter is interested and for which it is readable |
| `Connection.TokenBookkeeping` | src/server.rs:1414-1494 | running queries are exactly the subscriptions; every token handed out is in the map once or signalled, and all are signalled at the end |
| `ClientConnection.ClientConn.Subscribe` | src/conn.rs:106-142 | succeeds exactly for a short id that is in use or has room; the new map, and no change on failure |
| `ClientConnection.ClientConn.AuthenticateWith` | src/conn.rs:159-281 | the tag loop keeps the last challenge and relay, and the state becomes the event's key exactly when every check passes |
| `ClientConnection.ServerLoop.Handle` | src/server.rs:1227-1490 | one turn of the loop is one step of the connection, with its frames |
| `ClientConnection.ServerLoop.HandleReq` | src/server.rs:1414-1452 | duplicate, scraper, refused and registered requests; a replaced query is told to stop |
| `ReadMeaning.RefusedExactly` | src/server.rs:1421-1452 | a known subscription changes nothing, a limited scraper gets an end marker, more than 256 bytes or 32 subscriptions are refused |
| `ReadMeaning.TakenExactly` | src/server.rs:1436-1446 | every other REQ replaces the subscription of its id, stops its query, changes no other, and starts a query exactly if some limit is not 0 |
| `ReadMeaning.Utf8Means` | src/conn.rs:107-117 | the length of an id is counted in bytes of UTF-8 |
| `ClientConnection.ServerLoop.HandleClose` | src/server.rs:1453-1471 | the query of that id is told to stop and its subscription goes |
| `ReadMeaning.CloseExactly` | src/server.rs:1453-1471 | CLOSE removes exactly the subscription of that id and tells its query to stop |
| `ClientConnection.ServerLoop.HandleRealtime` | src/server.rs:1264-1287 | exactly one frame per interested subscription that may see the event |
| `ClientConnection.ServerLoop.Cleanup` | src/server.rs:1491-1494 | every query still running is told to stop |
| `Ledger.Conservation` | src/repo/sqlite.rs:750-884 | from any balanced books and over any messages, balance plus admission costs plus charges of an account is the sum of the invoices credited to it |
| `Ledger.CreditedAtMostOnce` | src/payment/mod.rs:175-184 | if the processor never retracts Paid, every invoice is credited at most once and only if called paid |
| `Ledger.CreditsAreRises` | src/repo/sqlite.rs:837-884 | in every run and with any processor an invoice is credited exactly as often as its answers went from Unpaid to Paid |
| `Ledger.RetractionCreditsTwice` | src/payment/mod.rs:175-184 | after any run, callbacks answered Paid, Unpaid and Paid credit an open invoice twice |
| `Ledger.AdmittedIffPaid` | src/payment/mod.rs:155-184 | in every run an account is admitted exactly when the processor has called an invoice of it paid |
| `Ledger.SettlementSolventExactly` | src/payment/mod.rs:175-184 | a settled callback leaves no debts exactly when its invoice was open or its owner has the admission cost once more |
| `Ledger.NonNegativeBalances` | src/payment/mod.rs:146-184 | if callbacks name open invoices, no balance goes below zero and only charges lower what an account has |
| `Ledger.NobodyCanPayPerEvent` | src/db.rs:913-924 | in every run from empty books, with any processor, no balance is positive, no event is ever charged, and with a cost per event nobody may write |
| `Ledger.WritersHavePaid` | src/db.rs:312-338 | over all runs whoever may write has the cost of an event and an invoice that the processor called paid |
| `Ledger.FreeWritersExactly` | src/db.rs:312-338 | where events cost nothing, exactly those may write who have such an invoice and no debt |
| `Ledger.CallbackMeans` | src/payment/mod.rs:175-184 | a callback makes the answer the status of the invoice; if Paid it admits the owner and moves its balance by the amount, if open, minus the admission cost; nothing else changes |
| `Ledger.CheckMeans` | src/payment/mod.rs:156-174 | a check of an account does the same for its open invoice, and without one opens account and invoice |
| `Ledger.NewAccountMeans` | src/payment/mod.rs:241-268 | a new account message opens an account, and records a new invoice over the admission cost unless an old one is open |
| `Ledger.LookupMeans` | src/repo/sqlite.rs:886-924 | the lookup finds an unpaid invoice of the account as late as any other, or none if there is none |
| `PaymentLedger.Payments.Update` | src/repo/sqlite.rs:837-884 | the new status, and the credit exactly from Unpaid to Paid; an unknown hash is an error that changes nothing |
| `PaymentLedger.Payments.CheckStatus` | src/payment/mod.rs:271-279 | the processor's answer is written down, or nothing changes on an error |
| `PaymentLedger.Payments.InvoiceInfo` | src/payment/mod.rs:241-268 | an existing account keeps its open invoice; otherwise a new one for the admission cost |
| `PaymentLedger.Payments.PayForWrite` | src/db.rs:312-338 | a write is let through exactly for an admitted account with enough balance, and its balance stays non-negative after the charge |
| `PaymentLedger.Payments.Receive` | src/payment/mod.rs:142-195 | one message ends in the books of the specification and keeps them balanced |
| `Canonical.SerializeInjective` | src/event.rs:392 | equal JSON texts come from equal values, with the escapes of section 7 of RFC 8259 |
| `Canonical.StringUnique` | src/event.rs:391-392 | an escaped string and what follows its closing quote can be told apart again |
| `Canonical.ToCanonical` | src/event.rs:374-408 | the pushed elements serialize as the six-element array of NIP-01 |
| `Canonical.CanonicalInjective` | src/event.rs:374-408 | equal canonical texts mean equal author, time, kind, tags and content |
| `Canonical.CanonicalText` | src/event.rs:374-408 | the canonical text of any event: 0, author, time, kind, tags and content in brackets, with commas between and nothing else |
| `Canonical.UnescapeEscaped` | src/event.rs:391-392 | a reader of strings written from section 7 of RFC 8259 gets every string back |
| `Decimal.ParsePrint` | src/delegation.rs:200-203 | decimal text of any u64 parses back |
| `Decimal.ParseFails` | src/delegation.rs:200-203 | a number of 2^64 or more, a text with another character and an empty one are errors |
| `Delegation.FromStr` | src/delegation.rs:213-223 | the loop returns all conditions, or fails if any piece is none |
| `Delegation.ParseText` | src/delegation.rs:187-223 | the text of any condition list parses back to it, empty lists and empty value lists included |
| `Delegation.JoinedTexts` | src/delegation.rs:213-223 | texts joined with `&` parse to the concatenation exactly when the first is neither empty nor ended by `&` |
| `Delegation.AllowsBoth` | src/delegation.rs:86-102 | the concatenation allows an event exactly when both parts do |
| `Delegation.KindTexts` | src/delegation.rs:150-185 | kind texts letter by letter: = allows exactly the listed kinds, ! exactly the others, < and > the kinds strictly below and above a single value |
| `Delegation.CreatedAtTexts` | src/delegation.rs:150-185 | the same for created_at |
| `Delegation.DelegatedFor` | src/delegation.rs:213-223 | a kind and two times joined with & allow exactly that kind strictly between the times |
| `Delegation.ConditionInside` | src/delegation.rs:187-195 | the match need not be the whole text: what stands around a condition is read over |
| `Delegation.WordBefore` | src/delegation.rs:190-197 | a word character right before the field makes it unknown |
| `Delegation.TwoOperators` | src/delegation.rs:190-198 | two operators in a row are one unknown operator |
| `Notice.ParsePrefixed` | src/notice.rs:95-109 | a known prefix, the separator and any detail parse back |
| `Notice.EnsuredParses` | src/notice.rs:114-124 | the output has a known prefix exactly when the message had one or the fallback is not `saved`, and which prefix and detail it has |
| `Notice.EnsureIdempotent` | src/notice.rs:114-124 | a second `ensure_reason` with any fallback changes nothing |
| `Notice.StatusMatchesPrefix` | src/notice.rs:134-141 | the status sent is the one the prefix of the message denotes |
| `Notice.RejectionStatus` | src/notice.rs:146-155 | the status of a rejection is the one its prefix denotes, and never saved |
| `Notice.KnownReasons` | src/notice.rs:61-75 | the status of a rejection for each of the nine known texts |
| `Notice.AddedPrefixes` | src/notice.rs:46-57 | the text put before a message without a known prefix, for every status |

## Left out

- HTTP pages, WebSocket framing, pings, metrics, logging, TLS and process start-up.
- SHA-256, Schnorr signatures and URL host parsing: `World` holds an arbitrary predicate and function for them.
- UUID generation: the challenge is an arbitrary text; that it is unpredictable is not stated.
- Scripts, the gRPC authorization client and the payment processors: their answers are inputs.
- src/repo/postgres.rs and its migrations, which join several tag keys with OR.
- Connection pools, the checkpoint task and the reader semaphore: they appear in a query only as reasons to stop.
- Index hints, which do not change results.
- Database errors during a write other than numbers that do not fit and a lock that outlasts the retries.
- The columns `first_seen` and `delegated_by`, which no modelled statement reads.
- The JSON text in column `content`: a value with the serialized fields stands for it, so reading it back always succeeds.
- Migrations other than the tag rebuild of version 16.
- The admission checks of the writer before the write, other than balance and rate rules: one flag of the input.
- The `governor` limiters of submissions and subscriptions, which only delay.
- Removal of quotes from subscription ids in frames; frames carry the id as subscribed.
- The order of the frames of one live event, which follows the iteration of a hash map: they are a set.
- Interleaving inside one payment message: handlers are atomic, and a failed processor call leaves what was done before it.
- Direct messages with invoices and terms, account sign-up pages, and whitelisted authors, who are never charged.
- NIP-05 verification, configuration files, relay information, close frames, the bulk loader.
- `Writer.BroadcastAtMostOnce`: runs without expiry, because an expired event that is sent again is stored and broadcast again.
- `QueryAgreement.CompilerCorrect`: events without delegation, and filters that find ids and authors alike, because the live matcher accepts prefixes and delegators and the stored query does not; the exact condition for ids and authors is `QueryAgreement.AgreementExactly`.
- `QueryStream.StreamedInterest`: what the database answers to each statement is an input, constrained to be an answer of the compiled query in some reachable store.
- `StoreExact.RemovesExactly`: writes without a row in their own slot, which remove at most what earlier writes with a foreign d value left behind.
- `StoreRuns.LastWriterWins`: runs without expiry, because the cleanup may remove the winner of a slot, after which an older event is accepted.
