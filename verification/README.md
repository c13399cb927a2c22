# Verification of willow-mcp's stateful core

This project models the parts of willow-mcp where several files, tables or processes have to stay
consistent, and proves what the code keeps true about them. Everything is Dafny 4.11;
`dafny verify dfyconfig.toml` checks it all.

Each component has a value-level model (states, atomic file changes, the functions that decide them)
with its theorems, and, where the program changes something in place, a class or a loop proved equal
to that model. The modules named `...Laws` say what the answers mean in the terms a caller sees: fields,
files, characters and literal names, without the functions that compute them.

| files | what they model |
|---|---|
| `Cursor`, `Keyset`, `TextOrder`, `StoreModel`, `StoreWalk`, `QueryModel`, `SearchModel`, `Store`, `StoreLaws` | the SOIL store of `src/willow_mcp/db.py`: rows, tombstones, creation keys, the four keyset walkers and the base64url cursor |
| `DispatchModel`, `DispatchRuns`, `Packet`, `DispatchLaws` | the dispatch packet protocol of `src/willow_mcp/dispatch.py` and `src/willow_mcp/handoff.py`: locked sequences of atomic writes, interleaved with other processes and crashes |
| `Decimal`, `AmendLine`, `TableSync`, `TableBoots`, `Publish`, `SyncLaws`, `PublishLaws` | the seal-driven syscall-table sync of `src/willow_mcp/constitutional.py` |
| `Steps` | sequences of atomic file changes and their prefixes, shared by the crash proofs |
| `TextLines`, `JsonText`, `LedgerModel`, `Ledger`, `LedgerLaws` | the hash-chained ledger of `src/willow_mcp/attribution_ledger.py`, on the text of the file |
| `ConsentModel`, `Consent`, `ConsentLaws` | `src/willow_mcp/consent.py` and `src/willow_mcp/consent_admin.py` |
| `JsonItems`, `BoundReceipt`, `ReceiptLaws` | `src/willow_mcp/bound_receipt.py` |
| `ShellSplit`, `ShellMask`, `ParenWalk`, `ShellLaws` | the splitter, masker and parenthesis walks of `hooks/pre_tool_use.py` |
| `ChangelogModel`, `Changelog`, `ChangelogLaws` | `tools/changelog_dedup.py` |
| `Gf2`, `Crc24`, `Crc24Laws` | `_crc24` of `scripts/fleet_seams.py`, over GF(2) (section 6.1 of RFC 4880) |

Conventions:

* A file or SQL table is a value; an atomic change (a rename, a link, a one-statement transaction) is one
  step. A crash point is a prefix of a sequence of such steps.
* Clocks, random ids, signatures, digests, `json.dumps` for general values, `shlex`, regular expression
  engines and git are parameters, with what is assumed about them written as a predicate. Hashes are
  assumed collision-free only where a lemma says so, and, where digests also have a fixed length, only on
  the texts the lemma names.
* Exceptions are error results.

## Where the code does not do what one would expect

For each property that fails there is the exact condition under which it holds, for all inputs or runs, and
a lemma with a failing input or run.

* `withdrawn` is not terminal, although the documentation says so: `verify_handoff` reads the packet before it
  takes the lock and does not read it again. No run leaves `withdrawn` exactly when no verify is under way
  (`WithdrawnIsTerminalIff`); `StaleVerifyLiftsWithdrawn` is a run that does.
* A closeout can be lost. Every closeout is kept exactly in the runs in which no handoff write finds an old
  `closeout.md` in its way (`CloseoutsAreConservedIff`), which takes a crash between the two archive renames
  (`OnlyStragglersAreLost`); `StragglerIsLost` is such a run. Handoffs are never lost (`HandoffsAreConserved`).
* A free lock does not always show a whole accept, nor agreement of status.json and meta.json: both fail exactly
  after a crash at the one place between the two writes, when the second file had other contents
  (`FreeLockShowsWholeAcceptIff`, `FreeLockAgreesWithMetaIff`); `TornAccept` is such a run.
* A query walk can lose rows. All walks over a table are complete exactly when the sort list tells any two rows
  apart before it meets a NULL (`WalksExactlyIfSeparated`; `PagesConcatenateIff` for records that themselves hold
  `_deviation` or `_action`). `NullLosesRow`, `TieLosesRow` and `RowColumnLosesRow` are walks that lose a row:
  to a missing field, to a tie, and to a sort on `_deviation`, where the cursor carries the row column while the
  condition compares the record's own field.
* An appended ledger line is not always one more line: exactly when it holds a line break, U+0085, U+2028 or
  U+2029 in a field, or the file does not end on a line of its own (`AppendIffClean`, `EntryUnbroken`);
  `SeparatorSpoilsLine` and `UnfinishedFileSpoilsLine` are inputs.
* `set_key` reads before the lock. Of two calls that both read first, both take effect exactly when the first
  asked for what was there already (`StalePairKeepsBothIff`); `StaleSetKeyLosesUpdate` is a case.
* The changelog rebuild is not always final: a second run changes nothing exactly when the rendering can be read
  back (`IdempotentIff`), and the section lists the commits exactly when no bullet holds a line break
  (`SectionListsCommitsIff`); `SeparatorNeverSettles` is an input.
* The amend line of a row is read back exactly when its id is not negative and its verb is a non-empty word
  without whitespace (`PrintFindIff`); `UnreadableLines` are two that are not.
* A difference in prose alone is not published, although the documentation says that prose is carried over: a
  completed sync leaves the bundle's text exactly when the rows differed or the text was there already
  (`BundleTextIff`); `ProseIsNotPublished` is an input.

## Model

| member | source | states |
|---|---|---|
| `Cursor.RoundTrip` | src/willow_mcp/db.py:45-55 | decoding an encoded cursor gives back every text: UTF-8, base64url, stripping the padding and re-padding by -len mod 4 undo each other |
| `Cursor.Utf8DecodesEncodings` | src/willow_mcp/db.py:50-55 | bytes that decode are the encoding of the text they decode to: no overlong form, surrogate or truncated sequence |
| `Cursor.EncodeIsUrlSafe` | src/willow_mcp/db.py:45-47 | a cursor holds only letters, digits, dash and underscore, and no padding |
| `Cursor.EncodeExamples` | src/willow_mcp/db.py:45-47 | given texts and their cursors, with both symbols that differ from plain base64 |
| `Cursor.DecodeExamples` | src/willow_mcp/db.py:50-55 | plain base64 is read too; a lone symbol and text outside ASCII are not |
| `Cursor.OnlyAsciiDecodes` | src/willow_mcp/db.py:50-55 | a cursor with a character outside ASCII does not decode |
| `Keyset.WalkSound` | src/willow_mcp/db.py:309-358 | whatever the live set is at each page, the pages of a keyset walk come out strictly ascending, so nothing is returned twice |
| `Keyset.WalkComplete` | src/willow_mcp/db.py:309-358 | a key in the live set at every page of a finished walk is returned |
| `StoreModel.StepEvolves` | src/willow_mcp/db.py:226-271 | put, update, delete and purge never rewrite a creation key, drop a row or lift a tombstone |
| `StoreModel.ResumeAt` | src/willow_mcp/db.py:309-358 | the cursor handed out after a row resumes exactly after that row's creation key |
| `StoreWalk.EveryRecordOnce` | src/willow_mcp/db.py:309-358 | with any puts, updates, deletes and purges between the pages, a finished all_paginated walk returns no record twice and every record live throughout exactly once |
| `StoreWalk.WalkAgreesWithAll` | src/willow_mcp/db.py:291-358 | on a store nobody writes to, the walk gives a result all() may give, and the only one when creation times differ |
| `StoreWalk.WalkFinishesAll` | src/willow_mcp/db.py:309-358 | as many pages as live rows are always enough |
| `StoreLaws.PutThenGet` | src/willow_mcp/db.py:226-289 | a put is read back field by field, with the first creation stamp and the action its deviation calls for; under a tombstone the id stays unread; every other id and collection reads as before |
| `StoreLaws.UpdateThenGet` | src/willow_mcp/db.py:273-372 | an update of a live record is read back and says so, of any other it changes nothing |
| `StoreLaws.DeleteLeaves` | src/willow_mcp/db.py:643-652 | a delete marks and stamps a live row, says so, and touches nothing else |
| `StoreLaws.DeleteThenPut` | src/willow_mcp/db.py:226-271 | a deleted record stays gone under a later put of its id |
| `StoreLaws.PurgeThenGet` | src/willow_mcp/db.py:670-683 | after a purge nothing of the collection is read and other collections are as before |
| `StoreLaws.AllPageMeaning` | src/willow_mcp/db.py:309-358 | any page of all_paginated holds live rows as stored, by creation and then id, after the cursor, up to the limit |
| `StoreLaws.Everything` | src/willow_mcp/db.py:291-307 | all() lists every live row once, as stored, by creation stamp |
| `QueryModel.BuildCursorCondition` | src/willow_mcp/db.py:498-511 | the loops build a condition that, without NULLs, holds exactly for keys after the cursor in the mixed-direction order |
| `QueryModel.CursorConditionExact` | src/willow_mcp/db.py:484-552 | for every sort list, cursor and row, the OR-of-ANDs holds exactly when the row is strictly after the cursor and no NULL occurs up to the deciding column |
| `QueryModel.PagesConcatenateIff` | src/willow_mcp/db.py:455-552 | for every sort list, all finished walks return the filtered set in order, each row once, exactly when every cursor a walk can hand out selects exactly the rows after its row |
| `QueryModel.WalksExactlyIfSeparated` | src/willow_mcp/db.py:455-552 | and that is so exactly when the list tells any two rows apart before it meets a NULL |
| `QueryModel.OrderedContents` | src/willow_mcp/db.py:513-523 | the ordered set is every filtered row, once, each beyond the one before |
| `QueryModel.QueryWalkFinishes` | src/willow_mcp/db.py:455-552 | as many pages as rows are always enough |
| `QueryModel.SettledRowOnce` | src/willow_mcp/db.py:455-552 | whatever is written between the pages, a row that keeps its sort key and its match is returned exactly once, for lists that hold the id and meet no NULL |
| `QueryModel.NullLosesRow` | src/willow_mcp/db.py:498-511 | two records without the sort field: two pages of one row return one of them |
| `QueryModel.TieLosesRow` | src/willow_mcp/db.py:498-511 | two records of one creation time: the same |
| `QueryModel.RowColumnLosesRow` | src/willow_mcp/db.py:526-551 | a sort on _deviation: the same, because the cursor carries the row column |
| `StoreLaws.QueryPageMeaning` | src/willow_mcp/db.py:455-552 | any page of query_paginated holds live rows as stored that pass the filters, and at the first sort column on which two returned items differ the smaller value comes first for ASC, last for DESC |
| `StoreLaws.FirstQueryPage` | src/willow_mcp/db.py:455-552 | the first page holds as many matching rows as there are up to the limit, and a next cursor exactly when there are more |
| `StoreLaws.RecordedMeaning` | src/willow_mcp/db.py:526-551 | what a cursor records of a row, column by column, the action in words |
| `StoreLaws.FieldNamesMeaning` | src/willow_mcp/db.py:437-453 | which field names are accepted, character by character |
| `StoreLaws.FieldsMeaning` | src/willow_mcp/db.py:437-485 | a query is refused for its fields exactly when a filter or sort column has no such name |
| `SearchModel.WalkAgreesWithSearchAll` | src/willow_mcp/db.py:577-641 | for every choice of limits, also pages that straddle collections, the finished walk yields exactly the in-scope hits of search_all, each once, by collection and then id |
| `SearchModel.WalkFinishesSearch` | src/willow_mcp/db.py:594-641 | the walk finishes: as many pages as hits are always enough |
| `SearchModel.SearchAllSurvivesWrites` | src/willow_mcp/db.py:594-641 | whatever is written between the pages, the walk comes in order, returns no hit twice and every hit present at each page |
| `SearchModel.SearchSurvivesWrites` | src/willow_mcp/db.py:397-435 | the same for search_paginated |
| `StoreLaws.SearchPageMeaning` | src/willow_mcp/db.py:397-435 | any page of search_paginated holds live rows as stored that match every token, by id, after the cursor |
| `StoreLaws.ScopeMeaning` | src/willow_mcp/db.py:64-86 | a scope lets through the names it lists and those a trailing star completes |
| `StoreLaws.AllHitsMeaning` | src/willow_mcp/db.py:577-592 | a hit of search_all is a live row that matches every token, in a stored collection of proper name within the scope |
| `StoreLaws.MatchingOf` | src/willow_mcp/db.py:374-395 | search() lists every live row that matches every token once, as stored |
| `StoreLaws.MatchingAll` | src/willow_mcp/db.py:577-592 | search_all() lists every such row of every collection of proper name in scope once |
| `StoreLaws.SearchAllPageMeaning` | src/willow_mcp/db.py:594-641 | any page of search_all_paginated: hits as stored, by collection and then id, up to the limit |
| `StoreClass.CursorTravels` | src/willow_mcp/db.py:498-552 | a query cursor is read back as the sort values it was made from |
| `StoreClass.CursorWalk` | src/willow_mcp/db.py:455-552 | following query cursors as strings is following their values, when the values of the rows a walk can stop at travel unchanged |
| `StoreClass.CursorPagesIff` | src/willow_mcp/db.py:455-552 | followed by their strings, the pages are complete for all limits exactly when the sort list separates the rows |
| `StoreClass.Store.Put` | src/willow_mcp/db.py:226-271 | the new table, the returned id and action, and the error that changes nothing |
| `StoreClass.Store.Get` | src/willow_mcp/db.py:273-289 | a live row or nothing; the tables stay as they were |
| `StoreClass.Store.Update` | src/willow_mcp/db.py:360-372 | only a live row is updated, keeping its creation key |
| `StoreClass.Store.Delete` | src/willow_mcp/db.py:643-652 | a live row becomes a tombstone |
| `StoreClass.Store.PurgeCollection` | src/willow_mcp/db.py:670-685 | the count is the number of live rows, and none is left |
| `StoreClass.Store.All` | src/willow_mcp/db.py:291-307 | every live row exactly once, by creation time |
| `StoreClass.Store.AllPaginated` | src/willow_mcp/db.py:309-358 | the loop returns the page and cursor of the specification, or the error of a bad cursor |
| `StoreClass.Store.QueryPaginated` | src/willow_mcp/db.py:455-552 | which error, in which order of checks, and otherwise the page the condition selects with its next cursor |
| `StoreClass.Store.ListCollections` | src/willow_mcp/db.py:554-575 | the valid, in-scope collections in name order |
| `StoreClass.Store.SearchPaginated` | src/willow_mcp/db.py:397-435 | one page of matching live rows by id |
| `StoreClass.Store.Search` | src/willow_mcp/db.py:374-395 | the matching live rows, each exactly once |
| `StoreClass.Store.SearchAll` | src/willow_mcp/db.py:577-592 | the hits of every collection in scope, each exactly once |
| `StoreClass.Store.SearchAllPaginated` | src/willow_mcp/db.py:594-641 | the collection loop with its early stop and cursor returns the page of the specification |
| `DispatchRuns.DecisionInOrder` | src/willow_mcp/dispatch.py:867-914 | what any caller decides under the lock is a sequence of writes each of which is legal on the files as they will then be |
| `DispatchRuns.StepKeepsGood` | src/willow_mcp/dispatch.py:400-437 | every step of every interleaving, crashes and outside session writes included, keeps the packet invariant |
| `DispatchRuns.RunKeepsGood` | src/willow_mcp/dispatch.py:400-437 | so does every run |
| `DispatchRuns.TwoAcceptsNeedAClear` | src/willow_mcp/dispatch.py:868-914 | in every interleaving two accepts that took effect are separated by a clear |
| `DispatchRuns.OnlyAcceptNamesTheSession` | src/willow_mcp/dispatch.py:885-889 | accepted_session_id changes only at an accept's status write, to that accept's session |
| `DispatchRuns.FreeLockShowsWholeAcceptIff` | src/willow_mcp/dispatch.py:885-914 | whoever finds the lock free on a working packet finds this accept's session file or a later outside write to it, except exactly when the accept crashed before its bind, nobody wrote the file since, and it was not the session's own at work before |
| `DispatchRuns.TornAccept` | src/willow_mcp/dispatch.py:885-903 | a run in which the accept crashes between its status write and its bind |
| `DispatchRuns.WithdrawnIsTerminalIff` | src/willow_mcp/dispatch.py:1453-1456 | no run leaves withdrawn exactly when no verify is under way: none wants the lock, none that saw the packet complete would find a passing handoff, and the holder has no verified status to write |
| `DispatchRuns.StaleVerifyLiftsWithdrawn` | src/willow_mcp/handoff.py:689-727 | a run in which a verify of the first cycle writes over the second cycle's withdrawal |
| `DispatchRuns.NeverPendingAgain` | src/willow_mcp/dispatch.py:748-793 | nothing returns to pending |
| `DispatchRuns.WithdrawnStrandsNobody` | src/willow_mcp/dispatch.py:1410-1550 | in every run a withdrawn packet lists every assignee session still at work on it; withdrawn without force there is none |
| `DispatchRuns.HandoffsAreConserved` | src/willow_mcp/dispatch.py:796-818 | through any cycles and any crash, every handoff created exists exactly once, as current or in history |
| `DispatchRuns.AcceptedPacketStartsClean` | src/willow_mcp/dispatch.py:867-889 | a packet that becomes working has no handoff |
| `DispatchRuns.CloseoutsAccounted` | src/willow_mcp/dispatch.py:796-818 | at every crash point of every run each closeout written exists exactly once, as current or in history, or was written over |
| `DispatchRuns.CloseoutsAreConservedIff` | src/willow_mcp/handoff.py:447-448 | every closeout is kept exactly in the runs in which no handoff write finds an old one in its way |
| `DispatchRuns.OnlyStragglersAreLost` | src/willow_mcp/dispatch.py:814-818 | one is in the way only after a crash between the two archive renames |
| `DispatchRuns.StragglerIsLost` | src/willow_mcp/dispatch.py:814-818 | a run in which such a crash loses a closeout |
| `DispatchRuns.FreeLockAgreesWithMetaIff` | src/willow_mcp/dispatch.py:775-793 | status.json and meta.json agree when the lock is free, except exactly when a holder crashed between them and meta.json had another status before |
| `DispatchRuns.CallRuns` | src/willow_mcp/dispatch.py:400-437 | an uninterrupted call leaves exactly the files of its decided plan |
| `DispatchLaws.OnlyTheEntitledWrite` | src/willow_mcp/handoff.py:325-360 | in every run a handoff is created, a closeout written and a packet completed only for the addressed app in the accepting session, an accept's writes only for the addressed app and runner, and each other status only by its own call |
| `DispatchLaws.ChangesAreEntitled` | src/willow_mcp/dispatch.py:748-793 | the same of the files: whichever step changes status, accepted session, handoff, history or forced list, the holder was entitled to it |
| `DispatchLaws.VerificationsAreVouched` | src/willow_mcp/handoff.py:689-727 | in every run, as often as verified was written some verify call had found the packet complete and then a handoff that passes |
| `DispatchLaws.ClearBetweenAccepts` | src/willow_mcp/dispatch.py:821-914 | in every run a status cleared is written between any two accepts that took effect |
| `DispatchLaws.QuietAcceptIsWhole` | src/willow_mcp/dispatch.py:821-943 | without crashes and outside writes, a free lock on an accepted packet shows the accepting session's file, at work on this packet |
| `DispatchLaws.FileName` | src/willow_mcp/dispatch.py:917-943 | the session file's name, character by character |
| `DispatchPacket.Packet.SessionBind` | src/willow_mcp/dispatch.py:917-943 | the session file, keeping a verifier already on disk |
| `DispatchPacket.Packet.ArchivePriorHandoff` | src/willow_mcp/dispatch.py:796-818 | the archive directory and renames in order; nothing without a handoff |
| `DispatchPacket.Packet.Accept` | src/willow_mcp/dispatch.py:821-914 | answer, files and order of writes are those the interleaving machine uses |
| `DispatchPacket.Packet.WriteHandoff` | src/willow_mcp/handoff.py:254-460 | every refusal in order; handoff created only if absent, then closeout, then status |
| `DispatchPacket.Packet.VerifyHandoff` | src/willow_mcp/handoff.py:689-727 | verified exactly when the packet is complete and its handoff passes |
| `DispatchPacket.Packet.AgentClear` | src/willow_mcp/dispatch.py:1382-1407 | clears complete or verified packets, then binds the session idle |
| `DispatchPacket.Packet.SessionsBoundTo` | src/willow_mcp/dispatch.py:1410-1433 | the scan finds exactly the assignee's sessions at work on the packet |
| `DispatchPacket.Packet.DispatchWithdraw` | src/willow_mcp/dispatch.py:1436-1550 | every refusal in order, and the sessions a forced withdrawal records |
| `DispatchLaws.Binding` | src/willow_mcp/dispatch.py:917-943 | after a bind the named file holds the new record, with the verifier it had unless one is given, and no other file changes |
| `DispatchLaws.Accepting` | src/willow_mcp/dispatch.py:821-914 | who may accept, in which states, and every file an accept leaves; a refused one changes nothing |
| `DispatchLaws.Completing` | src/willow_mcp/handoff.py:254-460 | a handoff is written exactly by the addressed app, in the accepting session, once, with acceptable content; then the handoff, the closeout and both statuses are there, else nothing changed |
| `DispatchLaws.Verifying` | src/willow_mcp/handoff.py:689-727 | the answer in every state, and the files after it |
| `DispatchLaws.Clearing` | src/willow_mcp/dispatch.py:1382-1407 | the answer in every state, and the files and session record after it |
| `DispatchLaws.Withdrawing` | src/willow_mcp/dispatch.py:1436-1550 | withdrawn exactly from pending, or from working with nobody in the way or an orchestrator's force, which lists exactly those in the way |
| `DispatchLaws.Scanning` | src/willow_mcp/dispatch.py:1410-1433 | exactly the sessions whose file has the app's prefix, this packet and is at work |
| `AmendLine.PrintFindIff` | src/willow_mcp/constitutional.py:201-212 | the printed line is read back exactly for non-negative ids and non-empty verbs without whitespace |
| `AmendLine.NegativeIdIsLost` | src/willow_mcp/constitutional.py:201-212 | with a negative id the printed line is not found at all |
| `AmendLine.SpacedVerbIsLost` | src/willow_mcp/constitutional.py:201-212 | nor with a verb of two words |
| `AmendLine.UnreadableLines` | src/willow_mcp/constitutional.py:201-212 | one line of each kind |
| `AmendLine.FindAllJoin` | src/willow_mcp/constitutional.py:201-204 | text on other lines neither hides an amend line nor adds one |
| `AmendLine.ParsesIff` | src/willow_mcp/constitutional.py:201-204 | a line is an amend line exactly when it is spelled as the pattern says, piece by piece |
| `AmendLine.SpelledParses` | src/willow_mcp/constitutional.py:426-440 | and then it is read as its number, its verb and its digests in lower case |
| `AmendLine.LowerLetters` | src/willow_mcp/constitutional.py:435-436 | what lower case does to a digest, letter by letter |
| `AmendLine.PrintedText` | src/willow_mcp/constitutional.py:207-212 | the printed line |
| `TableSync.ConfirmIff` | src/willow_mcp/constitutional.py:327-495 | a decision is confirmed exactly when its pair is sealed and verified, its only amend line names this very change, and its own fields do not contradict it |
| `TableSync.OneTextOneChange` | src/willow_mcp/constitutional.py:426-440 | one sealed text authorises at most one change of one row |
| `TableSync.PrintedLineAuthorises` | src/willow_mcp/constitutional.py:207-212 | the line printed for a change, sealed among other text, authorises that change exactly when the pattern can express its id and verb |
| `TableSync.PlanMeaning` | src/willow_mcp/constitutional.py:576-700 | an applied plan misses no live row, amends exactly the changed rows, each under its own verified pair, and adds exactly the new ones |
| `TableSync.CarriedAgrees` | src/willow_mcp/constitutional.py:524-700 | re-evaluated with only the seals the plan carries, the same tables give the very same plan |
| `SyncLaws.LastRowWins` | src/willow_mcp/constitutional.py:158-171 | of several rows with one id the last is the row, and there are no others |
| `SyncLaws.StoreDecides` | src/willow_mcp/constitutional.py:576-700 | over a governance store: refused exactly when a live row is missing from the bundle, or a row differs and the store is unreadable or holds no amendment record whose sealed, verified pair names exactly that change; else applied exactly when something is new or differs |
| `SyncLaws.CarriedDecides` | src/willow_mcp/constitutional.py:593-600 | the same over carried seals, the last of each pair id |
| `SyncLaws.AppliedPlan` | src/willow_mcp/constitutional.py:661-700 | an applied plan lists exactly the new ids and exactly the differing rows with their old and new digests and seals, in ascending order |
| `SyncLaws.RefusalNames` | src/willow_mcp/constitutional.py:576-660 | a refusal names exactly the missing, respectively the differing, rows |
| `SyncLaws.SoilReads` | src/willow_mcp/constitutional.py:465-484 | a record's id counts as a number or its decimal text between blanks |
| `SyncLaws.OnlyNumbers` | src/willow_mcp/constitutional.py:465-484 | and nothing but decimal digits with perhaps a minus counts |
| `TableBoots.EvaluateSync` | src/willow_mcp/constitutional.py:551-700 | the loops over rows, candidates and seals compute the specified plan |
| `TableBoots.BootMoves` | src/willow_mcp/constitutional.py:703-748 | one boot keeps every live row and changes one only along an edge sealed for exactly its id and verb |
| `TableBoots.RunMoves` | src/willow_mcp/constitutional.py:576-700 | over any run of boots no live row disappears, and a row moves only at the boots of its trail, in order, each time along an edge that boot held sealed for exactly this id and the verb the row then had |
| `TableBoots.UnsealedRowStays` | src/willow_mcp/constitutional.py:576-700 | a row for which no boot held a sealed edge keeps its structure for ever |
| `SyncLaws.BootLands` | src/willow_mcp/constitutional.py:703-748 | a boot that is not refused and whose write goes through leaves the bundle's ids, verbs and grants live |
| `Publish.CrashPoints` | src/willow_mcp/constitutional.py:809-842 | at every crash point the pair on disk is the old one, the new one, which verifies, or one that does not verify |
| `Publish.SamePlan` | src/willow_mcp/constitutional.py:661-683 | once the rows are the bundle's, the signature alone decides between re-signing and doing nothing |
| `Publish.BundleTextIff` | src/willow_mcp/constitutional.py:661-748 | a completed sync leaves the bundle's text exactly when the rows differed or the text was there already |
| `Publish.ProseIsNotPublished` | src/willow_mcp/constitutional.py:661-683 | two tables that differ in one note: nothing to do |
| `Publish.PublishRecovers` | src/willow_mcp/constitutional.py:661-748 | after any number of attempts cut short anywhere, one that runs to its end leaves the bundle's rows under a signature that verifies |
| `Publish.LiveTable.PublishSigned` | src/willow_mcp/constitutional.py:809-842 | signature before content, and the clean-up of a failed signing |
| `Publish.LiveTable.Sync` | src/willow_mcp/constitutional.py:703-748 | evaluate and apply on the files |
| `PublishLaws.Publishing` | src/willow_mcp/constitutional.py:809-842 | a publication leaves the wanted bytes, a signature of theirs and no candidate; a failed signing leaves both files as they were |
| `PublishLaws.Syncing` | src/willow_mcp/constitutional.py:703-748 | the files after a sync, in every case, from the rows, the records and the signature before it |
| `PublishLaws.RecoveredFiles` | src/willow_mcp/constitutional.py:661-748 | after any torn attempts, a full one leaves a verifying signature over a table of the bundle's ids, verbs and grants |
| `JsonText.ArrayBack` | src/willow_mcp/bound_receipt.py:201-216 | reading a compact JSON string array gives back its strings |
| `JsonItems.ListInjective` | src/willow_mcp/bound_receipt.py:147-198 | arrays of strings, integers and nulls are encoded injectively |
| `LedgerModel.HeadDetermines` | src/willow_mcp/attribution_ledger.py:110-153 | two ledgers that verify against one expected head have the same non-blank lines |
| `LedgerModel.AppendVerifies` | src/willow_mcp/attribution_ledger.py:71-107 | append takes a verifying ledger to a verifying one whose head is the returned hash |
| `LedgerModel.AppendIffClean` | src/willow_mcp/attribution_ledger.py:103-107 | the appended line is one more line exactly when it holds no line break and the file ends on a line of its own |
| `LedgerModel.UnfinishedFileSpoilsLine` | src/willow_mcp/attribution_ledger.py:105-106 | after a file "x" no entry is |
| `LedgerModel.SeparatorSpoilsLine` | src/willow_mcp/attribution_ledger.py:105-106 | nor is an entry whose session id is U+2028, in an empty file |
| `LedgerModel.EntryUnbroken` | src/willow_mcp/attribution_ledger.py:95-104 | an entry's line holds a line break exactly when one of its strings holds U+0085, U+2028 or U+2029 |
| `LedgerModel.ConcurrentAppendsFail` | src/willow_mcp/attribution_ledger.py:86-90 | two appends that read the same head make every later verification fail, whatever follows them |
| `LedgerLaws.EntryReads` | src/willow_mcp/attribution_ledger.py:95-104 | a written entry reads back as an object of exactly its six members, in order |
| `LedgerLaws.BreakChars` | src/willow_mcp/attribution_ledger.py:64-67 | which characters end a line |
| `LedgerLaws.BreakSplits` | src/willow_mcp/attribution_ledger.py:64-67 | a break ends one line and starts the next |
| `LedgerLaws.Attesting` | src/willow_mcp/attribution_ledger.py:71-107 | the appended line names the session, the verifier and the head there was, and the answer is its hash |
| `Ledger.LedgerFile.Head` | src/willow_mcp/attribution_ledger.py:52-68 | the hash of the last non-blank line, or genesis |
| `Ledger.LedgerFile.Append` | src/willow_mcp/attribution_ledger.py:71-107 | the entry names the current tip; the returned head is its line's hash |
| `Ledger.LedgerFile.Verify` | src/willow_mcp/attribution_ledger.py:110-153 | passes exactly when every line names the hash of the one before it and the tip is the expected one |
| `ConsentModel.WholeOldOrNew` | src/willow_mcp/consent_admin.py:120-161 | at every crash point the effective policy is wholly the old or wholly the new one, and a completed write leaves the files in agreement |
| `ConsentModel.AttemptExplained` | src/willow_mcp/consent_admin.py:133-153 | wherever a write stops, what it added to the trail explains the change it made: intent first, with the digests before and after |
| `ConsentModel.RunExplained` | src/willow_mcp/consent_admin.py:94-176 | over any run of writes cut short anywhere, the audit trail explains every change of the policy |
| `ConsentModel.ReconcileKeepsPolicy` | src/willow_mcp/consent_admin.py:172-176 | reconciling changes the effective policy at no crash point and ends every disagreement |
| `ConsentModel.ReconcileRecovers` | src/willow_mcp/consent_admin.py:172-176 | also from wherever a write stopped |
| `ConsentModel.SetKeySetsOne` | src/willow_mcp/consent_admin.py:164-169 | a key set on its own changes that key and no other |
| `ConsentModel.StalePairKeepsBothIff` | src/willow_mcp/consent_admin.py:164-169 | of two set_key calls that both read first, both take effect exactly when the first asked for what was there already |
| `ConsentModel.StaleSetKeyLosesUpdate` | src/willow_mcp/consent_admin.py:164-169 | two calls from an empty disk, of which the first is undone |
| `ConsentLaws.PermittedIff` | src/willow_mcp/consent.py:121-221 | a key is permitted exactly when it is one of the three and the settings file states it as a real true, or there is no settings file and the mirror does |
| `ConsentLaws.CanonicalBlock` | src/willow_mcp/consent.py:133-155 | in particular for a nested block, whatever else is on disk |
| `ConsentLaws.FlatBlock` | src/willow_mcp/consent.py:133-155 | for the flat shape, in the settings file or the mirror |
| `ConsentLaws.MirrorBlock` | src/willow_mcp/consent.py:133-187 | and for a nested mirror when there is no settings file |
| `ConsentLaws.StatusIff` | src/willow_mcp/consent.py:158-213 | fail, warn and the source, from the files |
| `ConsentLaws.DisagreementIff` | src/willow_mcp/consent.py:196-211 | the two files disagree on exactly the keys both name and one of them grants |
| `ConsentLaws.AcceptedIff` | src/willow_mcp/consent_admin.py:94-115 | a write is accepted exactly for the three booleans, the retired key aside |
| `ConsentLaws.SettingsText` | src/willow_mcp/consent_admin.py:123-152 | the settings written keep every other key and state the three booleans |
| `ConsentLaws.CompletedWrite` | src/willow_mcp/consent_admin.py:116-161 | the files a completed write leaves, and the two audit entries with the keys whose permission changed |
| `ConsentLaws.WriteSeen` | src/willow_mcp/consent_admin.py:94-161 | after a completed write a key is permitted exactly when the write said true |
| `ConsentLaws.ActionNamed` | src/willow_mcp/consent_admin.py:164-176 | the audit entries of set_key and reconcile name the call |
| `Consent.Resolve` | src/willow_mcp/consent.py:158-213 | the field-by-field reader computes source, policy, disagreement and status |
| `Consent.Files.WriteConsent` | src/willow_mcp/consent_admin.py:94-161 | refuses anything but exactly the three booleans, retired keys aside; otherwise intent, canonical, mirror, commit |
| `Consent.Files.SetKey` | src/willow_mcp/consent_admin.py:164-169 | unknown keys are refused; otherwise all three keys are written from the policy read |
| `Consent.Files.Reconcile` | src/willow_mcp/consent_admin.py:172-176 | refuses a malformed canonical file; otherwise writes the effective policy |
| `BoundReceipt.SignedTextInjective` | src/willow_mcp/bound_receipt.py:201-216 | two payloads with the same signed bytes agree in every field |
| `BoundReceipt.VerifiedIff` | src/willow_mcp/bound_receipt.py:448-468 | a receipt verifies exactly when it is well formed, not expired, about this call and signed under the key |
| `BoundReceipt.ChangedPayloadFails` | src/willow_mcp/bound_receipt.py:430-445 | a wire with any signed field changed does not verify with the old signature |
| `BoundReceipt.WrittenVerifiesIff` | src/willow_mcp/bound_receipt.py:387-414 | a written receipt verifies exactly until issued_at + max(1, ttl), provided ledger hash and signer id have their shapes; otherwise it is structurally invalid |
| `BoundReceipt.RefsBindCall` | src/willow_mcp/bound_receipt.py:344-363 | two calls have the same references exactly when they are the same call |
| `BoundReceipt.ReceiptIsForItsCall` | src/willow_mcp/bound_receipt.py:417-468 | a receipt written for one call never verifies against another |
| `ReceiptLaws.StructureIff` | src/willow_mcp/bound_receipt.py:246-293 | a wire is well formed exactly with these keys, this format, ten shaped payload fields and no other, and a signature of its algorithm's length |
| `ReceiptLaws.EffectShapeIff` | src/willow_mcp/bound_receipt.py:225-228 | which effect references and denial codes are well formed |
| `ReceiptLaws.SignerShapeIff` | src/willow_mcp/bound_receipt.py:30 | which signer ids are well formed |
| `ReceiptLaws.SignatureShapeIff` | src/willow_mcp/bound_receipt.py:283-289 | 64 hexadecimal digits for HMAC, 128 for Ed25519 |
| `ReceiptLaws.DenialCodeAt` | src/willow_mcp/bound_receipt.py:179-183 | a denial code character by character |
| `ReceiptLaws.AgentSpelled` | src/willow_mcp/bound_receipt.py:147-152 | the text the agent reference is a digest of |
| `ReceiptLaws.CallSpelled` | src/willow_mcp/bound_receipt.py:168-171 | the text the call digest is taken over |
| `ReceiptLaws.LedgerSpelled` | src/willow_mcp/bound_receipt.py:186-196 | the text of the ledger entry's hash |
| `ReceiptLaws.EffectSpelled` | src/willow_mcp/bound_receipt.py:335-341 | the effect reference of an allowed call, with the outcome it falls back to, and of a denied one |
| `ReceiptLaws.SignedOrder` | src/willow_mcp/bound_receipt.py:201-216 | the signed bytes read back as the format and the ten fields in order |
| `ReceiptLaws.WrittenWire` | src/willow_mcp/bound_receipt.py:387-414 | when the writer refuses, and what its wire holds key by key |
| `ReceiptLaws.WrittenLasts` | src/willow_mcp/bound_receipt.py:387-468 | a written receipt verifies for its call until issued plus its lifetime, at least a second |
| `ReceiptLaws.VerdictStages` | src/willow_mcp/bound_receipt.py:417-468 | shape, expiry, the seven references in order, then the signature |
| `ShellSplit.Split` | hooks/pre_tool_use.py:1109-1154 | the spans are the split of the command: ordered, uncut inside, one unquoted separator between neighbours |
| `ShellSplit.SplitUnique` | hooks/pre_tool_use.py:1109-1154 | a command has one such split only |
| `ShellSplit.BetweenSpans` | hooks/pre_tool_use.py:1133-1154 | between neighbours stands exactly one of the five separators, outside quotes |
| `ShellLaws.BareIsCut` | hooks/pre_tool_use.py:1115-1154 | outside quotes a command is cut at exactly these separators |
| `ShellLaws.QuotedIsWhole` | hooks/pre_tool_use.py:1115-1154 | between two quotes nothing is cut |
| `ShellLaws.BackslashExamples` | hooks/pre_tool_use.py:1123-1134 | where a backslash protects a character and where not |
| `ShellMask.FindCommit` | hooks/pre_tool_use.py:1055-1079 | finds the one place where only global options stand between git and commit, or there is none |
| `ShellMask.BlankMessages` | hooks/pre_tool_use.py:1183-1200 | exactly the inert message regions are blanked |
| `ShellMask.MaskFrame` | hooks/pre_tool_use.py:1204-1218 | masking keeps the length, changes characters only to spaces and never one the shell evaluates |
| `ShellMask.MaskBySpan` | hooks/pre_tool_use.py:1157-1218 | each subcommand is masked on its own, separators are copied, unrecognised subcommands stay verbatim |
| `ShellMask.Mask` | hooks/pre_tool_use.py:1204-1218 | the loop over spans builds that masking of the one split, with the same frame |
| `ShellLaws.SubMasked` | hooks/pre_tool_use.py:1157-1201 | which characters of a subcommand are blanked: all of a plain reader's, the plain messages of a commit, no other |
| `ShellLaws.CommitIff` | hooks/pre_tool_use.py:1055-1079 | a commit token is one behind git and global options, each alone or one of five with its argument |
| `ShellLaws.ReaderIff` | hooks/pre_tool_use.py:1036-1039 | the readers, by the last part of the path |
| `ShellLaws.Masking` | hooks/pre_tool_use.py:1204-1218 | no evaluated character is ever changed, and every subcommand is masked on its own |
| `ParenWalk.FindClose` | hooks/pre_tool_use.py:1534-1542 | the first place where the call's parenthesis closes, or the end of the text |
| `ParenWalk.NestedCloses` | hooks/pre_tool_use.py:1529-1545 | a call opened inside another's arguments closes no later |
| `ParenWalk.MaskCalls` | hooks/pre_tool_use.py:1529-1545 | exactly the arguments of calls are blanked, also those of calls the loop skips |
| `ShellLaws.Closing` | hooks/pre_tool_use.py:1534-1542 | a call closes at its own parenthesis, past a call among its arguments, or at the end |
| `ShellLaws.Blanking` | hooks/pre_tool_use.py:1529-1545 | the arguments of a call and its closing parenthesis are blanked, nothing else |
| `ShellLaws.Unclosed` | hooks/pre_tool_use.py:1529-1545 | a call that never closes is blanked to the end of the text |
| `ChangelogModel.SectionListsCommitsIff` | tools/changelog_dedup.py:201-250 | after any successful run the newest section's bullets are the visible commits of its range in configured section order, each exactly once, exactly when none of these bullets holds a line break |
| `ChangelogModel.ListsEachOnce` | tools/changelog_dedup.py:173-198 | grouping neither drops nor repeats a visible commit |
| `ChangelogModel.OutsideKept` | tools/changelog_dedup.py:249-250 | no line outside the newest section changes, whatever is rendered |
| `ChangelogModel.IdempotentIff` | tools/changelog_dedup.py:201-250 | a second run reports no change exactly when the first changed nothing or the rendering can be read back |
| `ChangelogModel.SeparatorNeverSettles` | tools/changelog_dedup.py:201-250 | a commit subject with U+2028: the second run reports a change again |
| `ChangelogModel.CleanIsIdempotent` | tools/changelog_dedup.py:113-121 | section names that do not end in whitespace and commit texts without line breaks make every rebuild final |
| `ChangelogModel.PublishedSection` | tools/changelog_dedup.py:253-276 | after any successful run whose rendering holds no line break the newest version's section is its header line and exactly the rendered lines |
| `ChangelogLaws.BulletText` | tools/changelog_dedup.py:191-197 | the text of a bullet |
| `ChangelogLaws.BlockText` | tools/changelog_dedup.py:186-197 | the lines of a section's block |
| `ChangelogLaws.VisibleIff` | tools/changelog_dedup.py:113-116 | a type is shown in the section of its last visible entry |
| `ChangelogLaws.OrderFrom` | tools/changelog_dedup.py:117-121 | the sections stand in the order of their first visible entries |
| `ChangelogLaws.ListedInOrder` | tools/changelog_dedup.py:173-198 | the rendering lists exactly the commits of shown types, by section and then by position |
| `ChangelogLaws.HeadingText` | tools/changelog_dedup.py:219-226 | what a heading line names |
| `ChangelogLaws.RebuildOutcome` | tools/changelog_dedup.py:201-250 | when the rebuild bails, with which cause, and when it changes the text |
| `ChangelogLaws.SectionForIs` | tools/changelog_dedup.py:253-276 | a version's section, from its first header to the next heading of that level |
| `Changelog.SectionsFromConfig` | tools/changelog_dedup.py:113-121 | the loops compute the visible types and the section order |
| `Changelog.RenderLines` | tools/changelog_dedup.py:173-198 | grouping by dictionary and writing in order gives the specified lines |
| `Changelog.Trimmed` | tools/changelog_dedup.py:233-237 | popping trailing blank lines gives the specified lines |
| `Crc24.Checksum` | scripts/fleet_seams.py:108-116 | the bit loops compute the remainder, below 2^24, of INIT x^(8n) + M x^24 modulo the generator |
| `Crc24.RemainderUnique` | scripts/fleet_seams.py:108-116 | that remainder is unique |
| `Crc24.BurstDetected` | scripts/fleet_seams.py:108-116 | equal-length messages that differ only inside three consecutive bytes have different checksums |
| `Crc24.ResidueZero` | scripts/fleet_seams.py:108-116 | three appended bytes give checksum zero exactly when they are the message's own checksum |
| `Crc24Laws.WorkedChecksums` | scripts/fleet_seams.py:104-116 | the checksum of nothing is the initial value, and that of one byte is worked out over the generator |
| `Crc24Laws.Examples` | scripts/fleet_seams.py:108-116 | the loops answer just these |

## Left out

- `QueryPaginated`: rows that tie on every sort column come out in id order here; SQLite may give another order. Field names with a trailing line feed, which the pattern lets through, are not distinguished, and a sort direction other than ASC or DESC is not modelled.
- `Put`: records hold scalar values only, so nested JSON and column affinity are not modelled; `now` holds no NUL character, as a timestamp never does.
- `Search`: how LIKE matches a token is a parameter.
- `Store` methods are one critical section each; the lock itself is not modelled, and neither is `stats`.
- `WriteHandoff`: the verdicts of the content and lint checks are flags of the document; the sidecar and receipt of a refused handoff are not modelled.
- `VerifyHandoff`: runs without a gap between its two reads and its lock; in `DispatchRuns` each is a step of its own.
- `DispatchWithdraw`: the listed sessions are a set, so their order and repetitions are not modelled.
- `WalksExactlyIfSeparated`: records that themselves hold a field `_deviation` or `_action` the list sorts on are left to `PagesConcatenateIff`.
- `SettledRowOnce`: sort lists without the id, or with NULLs, are treated on one table only.
- `SessionsBoundTo`: glob characters in an app id, symlinked session files and unreadable session files are not modelled.
- The re-entry bind of `session_enter`, `dispatch_send`, signature and assignment checks of `dispatch_read`, the Postgres mirror and the attribution cache are not modelled; app ids and dispatch ids are in one letter case, and no status is set other than by the modelled calls.
- `EvaluateSync`: verbs are strings, ids integers; the verb names and note seal ids of a plan, its ledger receipt and its digest are not modelled.
- `ConfirmIff`: a text id is read with ASCII digits only.
- `PublishSigned`: signing is on; the unsigned atomic write has the same two renames without the signature. Half-written candidates are never read, so a partial write of one counts as that write.
- `AppendVerifies`: the text is what reading the file gives, without carriage returns; reading a JSON line back is a parameter that agrees with the encoder.
- `RunExplained`: an audit append is one step; a half-written audit line is not modelled.
- `WriteConsent`: the terminal check and the ownership checks are not modelled; a refused path stops the write like a crash.
- `WrittenVerifiesIff`: instants are integers of microseconds and the timestamp format is a parameter that reads back what it writes; overflow of dates is not modelled.
- `RefsBindCall`: manifest digests are parameters; denial codes are ASCII, because two non-ASCII letters lower to ASCII ones.
- `ChangedPayloadFails`: only the HMAC algorithm, as in the code.
- `Mask`: the tokenizer and the message pattern are parameters; the scan that uses the masked text and the second, parenthesis-free pass of the call masker are not modelled.
- `SectionListsCommitsIff`: section names hold no line break. The header pattern and the parsed commits of a range are parameters, so git and the conventional-commit pattern are not modelled.
- The armor wrapper around the checksum, `dispatch_list`, `entries` of the ledger and the command-line front ends would only add easy members.
