# Flashcard study sessions, modelled in Dafny

This project models the core of a small flashcard learning application.
Users create flashcards (a front and a back text) and study them in
sessions. A session walks through an ordered list of card ids, records a
self-graded response per card, and reports progress: cards completed,
correct and incorrect answers, and accuracy.

The model follows the application's own layering, one Dafny module per
source file:

- `Flashcards` (`flashcard.dfy`): the flashcard record and its validation
  (text stripped, not blank, 1 to 500 characters; `0 <= correct_count <=
  study_count`), and the `Flashcard` object with `update_content`,
  `record_study_result` and `accuracy`.
- `StudySessions` (`study_session.dfy`): `StudyResponse` validation, the
  progress figures, and the `StudySession` object (`create_session`,
  `add_response`, `advance_to_next_card`, `go_back`, `complete_session`,
  `get_progress`), with the response step also stated on session values so
  that runs of responses can be reasoned about.
- `Storage` (`file_storage.dfy`): the JSON-file store, with each file held
  as a sequence of records: append, first-match lookup, replace-or-fail,
  delete-first-match and sort-then-take. Records read back are rebuilt
  through flashcard construction, as the store does.
- `FlashcardServices` (`flashcard_service.dfy`): the flashcard service's
  validation chains in their order, id guards, case-insensitive search and
  the choice of study candidates.
- `StudyServices` (`study_service.dfy`): session creation from the store,
  current-card lookup, and forwarding of answers and navigation.
- `SimpleServer` (`simple_server.dfy`): the in-memory server the
  application runs, with a global card list and a dictionary of sessions.
  Its invariant: every entry is filed under its own id, the position never
  passes the end, and there is one response per card passed, tagged with
  that card's id.
- `Base`, `Text` and `Tables` are shared definitions. They hold `Option` and
  `Result`, whitespace stripping and substring search, and the generic list
  operations the store and services use: first match, keys, converting every
  element, slice prefix and stable descending sort.

Objects whose fields the source changes in place are classes (`Flashcard`,
`StudySession`, `FileStorage`, `FlashcardService`, `StudyService`,
`Server`). Their methods carry `modifies` clauses and state the whole new
state. Pure validation and derivation are functions. Errors that the
source raises are values of a `Result` or `Outcome` datatype. Identifiers
and timestamps that the source draws from `uuid4` and the clock are
parameters.

## Model

| member | source | states |
|---|---|---|
| `Text.Strip` | backend/src/models/flashcard.py:36-38 | the stripped text is the slice between the leading and trailing whitespace; it is empty exactly when the input is blank, and otherwise it starts and ends with a non-space |
| `Text.StripIdempotent` | backend/src/models/flashcard.py:38 | stripping a stripped text changes nothing, so a stored text passes validation again unchanged |
| `Text.Lower` | backend/src/services/flashcard_service.py:217-224 | `str.lower()` character by character: same length, each letter A to Z mapped to its lower case, no upper-case ASCII letter left |
| `Text.ContainsAt` | backend/src/services/flashcard_service.py:223-224 | the substring test holds exactly when the query occurs at some offset of the text |
| `Tables.IndexOf` | backend/src/storage/file_storage.py:100-101 | the index of the first record with the key, or none exactly when no record has it |
| `Tables.Lookup` | backend/src/storage/file_storage.py:85-89 | the first record with the key, or none exactly when no record has it |
| `Tables.FindFirst` | simple_server.py:86-89 | the search loop stops at the first match and agrees with `IndexOf` |
| `Tables.KeysOf` | backend/src/models/study_session.py:69 | one key per element, in the same order |
| `Tables.Traverse` | backend/src/storage/file_storage.py:94 | every element converted in order, or the error of the first element that fails |
| `Tables.TraverseIdentity` | backend/src/storage/file_storage.py:94 | converting elements that each convert to themselves gives the list back |
| `Tables.SlicePrefix` | backend/src/services/flashcard_service.py:249-250 | Python's `s[:limit]`: always a prefix, of length `min(limit, len)` for `limit >= 0` and `len + limit` (at least 0) for a negative limit |
| `Tables.InsertDescPermutes` | backend/src/storage/file_storage.py:168 | inserting into a sorted list adds exactly that element |
| `Tables.InsertDescSorted` | backend/src/storage/file_storage.py:168 | inserting into a list sorted by descending key keeps it sorted |
| `Tables.SortDescCorrect` | backend/src/storage/file_storage.py:168 | the descending sort is a permutation of its input and is sorted by descending key |
| `Flashcards.ValidateContent` | backend/src/models/flashcard.py:26-38 | text is accepted exactly when present, 1 to 500 characters as given and not blank; the stripped text is kept and is valid stored text; each refusal has its own error |
| `Flashcards.ValidateCounts` | backend/src/models/flashcard.py:30-46 | counters are accepted exactly when `0 <= correct_count <= study_count` (the intended rule; see Findings) |
| `Flashcards.ValidateCountsAsWritten` | backend/src/models/flashcard.py:30-46 | as written: the validator raises whenever `correct_count` is given and passes `ge=0`, whatever `study_count` is; with the default only `study_count >= 0` is checked |
| `Flashcards.CountsAsWrittenRefuseStored` | backend/src/models/flashcard.py:40-46 | every well-formed record, which the intended rule accepts, is refused as written; a card built with default counters is not |
| `Flashcards.NewCard` | backend/src/models/flashcard.py:11-46 | construction succeeds exactly when both texts and the counters validate; the card is then well-formed, holds the stripped texts and keeps every other field |
| `Flashcards.Rebuild` | backend/src/storage/file_storage.py:87 | `Flashcard(**d)` accepts a record exactly when both texts are 1 to 500 characters and not blank and `0 <= correct_count <= study_count`, and then gives the record with its texts stripped |
| `Flashcards.RebuildWellFormed` | backend/src/storage/file_storage.py:87 | reading a record back gives the same record exactly when it is well-formed |
| `Flashcards.Flashcard.UpdateContent` | backend/src/models/flashcard.py:48-54 | only the texts that are passed are replaced, the other one is kept, and the update time is stamped |
| `Flashcards.Flashcard.RecordStudyResult` | backend/src/models/flashcard.py:56-60 | the study count grows by one, the correct count by one exactly on a correct answer, and `correct_count <= study_count` is preserved |
| `Flashcards.Flashcard.Accuracy` | backend/src/models/flashcard.py:62-67 | 0 before the first study, otherwise the ratio correct/studied, which lies in [0, 1] for valid counters |
| `StudySessions.NewResponse` | backend/src/models/study_session.py:21-31 | a response is accepted exactly when its flashcard id is not blank and its response time is strictly positive; an accepted response keeps its fields and is valid |
| `StudySessions.CountCorrect` | backend/src/models/study_session.py:121 | the correct answers never outnumber the responses |
| `StudySessions.CountCorrectAppend` | backend/src/models/study_session.py:121 | one more response adds one to the correct count exactly when it is correct |
| `StudySessions.AccuracyPercentage` | backend/src/models/study_session.py:124-126 | 0 with no responses, otherwise correct/total times 100, within [0, 100] |
| `StudySessions.ProgressOf` | backend/src/models/study_session.py:119-135 | completed is the number of responses, correct plus incorrect equals completed, the current card is the position plus one (not clamped), and accuracy is within [0, 100] |
| `StudySessions.ProgressAfterResponse` | backend/src/models/study_session.py:119-135 | one more response completes one more card and adds one to exactly one of the correct and incorrect counts |
| `StudySessions.Respond` | backend/src/models/study_session.py:83-98 | refused on a complete session, then for a response to another card; otherwise exactly that response is appended and the position advances by one; keeps a session in step |
| `StudySessions.RespondAllInStep` | backend/src/models/study_session.py:83-98 | a run of responses succeeds exactly when it answers the next cards in order without passing the end; the session then stays in step, with the run appended and the position advanced by its length |
| `StudySessions.ReanswerAfterBack` | backend/src/models/study_session.py:100-108 | going back keeps the responses, so answering the previous card again records it twice and can report more cards completed than the session holds |
| `StudySessions.StudySession.CreateSession` | backend/src/models/study_session.py:61-75 | refused for an empty list; otherwise an active session over the cards' ids in order, at position 0, with no responses and no completion time |
| `StudySessions.StudySession.TotalCards` | backend/src/models/study_session.py:56-59 | the total is the one progress reports |
| `StudySessions.StudySession.IsComplete` | backend/src/models/study_session.py:110-112 | complete exactly when the 1-based card number progress reports is beyond the total; an incomplete session's position is a valid index |
| `StudySessions.StudySession.CanGoBack` | backend/src/models/study_session.py:100-102 | going back is possible exactly when progress reports a card after the first |
| `StudySessions.StudySession.CurrentFlashcardId` | backend/src/models/study_session.py:77-81 | none exactly when the session is complete, otherwise the id at the current position |
| `StudySessions.StudySession.AdvanceToNextCard` | backend/src/models/study_session.py:96-98 | the position grows by one with no bound check; nothing else changes |
| `StudySessions.StudySession.AddResponse` | backend/src/models/study_session.py:83-94 | the object takes exactly the step `Respond` describes, and on a refusal nothing changes |
| `StudySessions.StudySession.GoBack` | backend/src/models/study_session.py:100-108 | refused at position 0 with nothing changed; otherwise the position drops by one and the responses are kept |
| `StudySessions.StudySession.CompleteSession` | backend/src/models/study_session.py:114-117 | the session becomes inactive with a completion time; position and responses are kept |
| `StudySessions.StudySession.GetProgress` | backend/src/models/study_session.py:119-135 | the progress of the object's own position and responses |
| `Storage.RebuildFound` | backend/src/storage/file_storage.py:85-89 | none exactly when no record has the id; a found record is read back through construction: the rebuilt card when construction accepts it (unchanged when well-formed, always with the same id), otherwise construction's error |
| `Storage.RebuildAll` | backend/src/storage/file_storage.py:91-94 | every record read back in order when construction accepts each one; otherwise the error of the first record it refuses |
| `Storage.RebuildAllWellFormed` | backend/src/storage/file_storage.py:91-94 | a table of well-formed records reads back unchanged |
| `Storage.RebuildAllKeepsIds` | backend/src/storage/file_storage.py:91-94 | reading the table back keeps the ids in table order |
| `Storage.RebuildResponse` | backend/src/storage/file_storage.py:146 | a stored response is read back exactly when it is valid, and then unchanged; a blank id is refused first, then a non-positive time |
| `Storage.RebuildSession` | backend/src/storage/file_storage.py:146 | `StudySession(**d)` rebuilds every nested response: it succeeds exactly when each response has a non-blank id and a positive time, then gives the record unchanged, and otherwise fails with a refused response's error |
| `Storage.RebuildSessions` | backend/src/storage/file_storage.py:170 | every selected session read back, succeeding exactly when each one does, and then unchanged |
| `Storage.RespondAllReadsBack` | backend/src/storage/file_storage.py:146 | a readable session stays readable through any run of accepted, validated responses |
| `Storage.FileStorage.CreateFlashcard` | backend/src/storage/file_storage.py:71-79 | the card's record is appended at the end and earlier records are unchanged |
| `Storage.FileStorage.GetFlashcard` | backend/src/storage/file_storage.py:81-89 | the first record with the id, read back, or none |
| `Storage.FileStorage.GetAllFlashcards` | backend/src/storage/file_storage.py:91-94 | every record read back, in table order |
| `Storage.FileStorage.UpdateFlashcard` | backend/src/storage/file_storage.py:96-108 | with no match: not found, table and card unchanged; otherwise the card is stamped and replaces only the first record with its id |
| `Storage.FileStorage.DeleteFlashcard` | backend/src/storage/file_storage.py:110-121 | removes only the first record with the id and reports true; with no match reports false and leaves the table unchanged |
| `Storage.FileStorage.GetFlashcardsCount` | backend/src/storage/file_storage.py:123-126 | the number of stored records |
| `Storage.FileStorage.CreateStudySession` | backend/src/storage/file_storage.py:130-138 | the session record is appended at the end |
| `Storage.FileStorage.GetStudySession` | backend/src/storage/file_storage.py:140-148 | none when no record has the id; otherwise the first such record read back, or the error of its refused response |
| `Storage.FileStorage.UpdateStudySession` | backend/src/storage/file_storage.py:150-161 | replaces only the first session record with the id, or reports not found with the table unchanged |
| `Storage.FileStorage.GetRecentSessions` | backend/src/storage/file_storage.py:163-170 | `limit` defaults to 10; the prefix of the sessions sorted by start time descending, read back: when the read succeeds, at most `limit` sessions, drawn from the table and sorted; the table is unchanged |
| `FlashcardServices.AcceptedTextStores` | backend/src/services/flashcard_service.py:60-71 | text the service accepts, once stripped, is text a stored card may hold |
| `FlashcardServices.ValidateNew` | backend/src/services/flashcard_service.py:47-65 | None is refused; then front blank, back blank, front too long, back too long, in that order, the first failure deciding the error; on success the stripped texts |
| `FlashcardServices.ValidateField` | backend/src/services/flashcard_service.py:139-153 | one provided text: blank, then too long after stripping; on success the stripped text, valid as stored text |
| `FlashcardServices.ApplyUpdate` | backend/src/services/flashcard_service.py:138-156 | the provided texts are checked front first and replace the old ones stripped; a text not provided is kept; id, creation time and counters never change; a well-formed card stays well-formed |
| `FlashcardServices.CheckOrdersDiffer` | backend/src/services/flashcard_service.py:54-65 | creation and editing report different errors for a long front beside a blank back |
| `FlashcardServices.Matching` | backend/src/services/flashcard_service.py:221-225 | a card is in the result exactly when it is in the input and its lower-cased front or back contains the query |
| `FlashcardServices.MatchingAppend` | backend/src/services/flashcard_service.py:221-225 | filtering keeps the original order: it distributes over concatenation |
| `FlashcardServices.Candidates` | backend/src/services/flashcard_service.py:246-250 | always a prefix of the cards: the first `limit` for a positive limit, all of them otherwise |
| `FlashcardServices.PlanUpdate` | backend/src/services/flashcard_service.py:130-153 | a blank id is refused, then a missing card, then a record construction refuses (with its error), then an edit `ApplyUpdate` refuses (with its error); it succeeds exactly when the id is not blank, the card is found and reads back, and the edit is accepted, and then gives the index of the first record with the stripped id and the edit of that record as read back: texts not given, counters and creation time kept, well-formed |
| `FlashcardServices.EditFetched` | backend/src/services/flashcard_service.py:145-156 | the fetched card as an object with the new texts and update time assigned |
| `FlashcardServices.FlashcardService.CreateFlashcard` | backend/src/services/flashcard_service.py:32-80 | a refused input leaves the store untouched; otherwise a well-formed card with the stripped texts and zero counters is appended |
| `FlashcardServices.FlashcardService.GetFlashcard` | backend/src/services/flashcard_service.py:82-99 | a blank id is refused; otherwise the stored card with the stripped id |
| `FlashcardServices.FlashcardService.PrepareUpdate` | backend/src/services/flashcard_service.py:130-153 | the steps before writing agree with `PlanUpdate` and yield the fetched card and its edit |
| `FlashcardServices.FlashcardService.UpdateFlashcard` | backend/src/services/flashcard_service.py:114-165 | on a refusal the store is untouched; otherwise the edited card replaces the first record with the stripped id and nothing else |
| `FlashcardServices.FlashcardService.DeleteFlashcard` | backend/src/services/flashcard_service.py:167-189 | a blank id is refused; otherwise the first record with the stripped id is removed, and the result says whether there was one |
| `FlashcardServices.FlashcardService.SearchFlashcards` | backend/src/services/flashcard_service.py:204-231 | a blank query finds nothing; otherwise the stored cards matching the stripped, lower-cased query, in store order |
| `FlashcardServices.FlashcardService.GetStudyCandidates` | backend/src/services/flashcard_service.py:233-256 | the candidates drawn from every stored card |
| `StudyServices.StudyService.CreateStudySession` | backend/src/services/study_service.py:23-45 | refused when the store is empty; otherwise a new session in step over the store's ids in store order |
| `StudyServices.StudyService.GetCurrentFlashcard` | backend/src/services/study_service.py:47-70 | no card once the session is complete; otherwise the stored card with the current id, or not found |
| `StudyServices.StudyService.SubmitResponse` | backend/src/services/study_service.py:72-92 | exactly the refusals and effects of `add_response` |
| `StudyServices.StudyService.CompleteSession` | backend/src/services/study_service.py:106-126 | inactive with a completion time; position and responses kept |
| `StudyServices.StudyService.NavigateBack` | backend/src/services/study_service.py:128-146 | refused at the first card with nothing changed; otherwise one card back |
| `StudyServices.StudyService.NavigateForward` | backend/src/services/study_service.py:148-167 | one card forward; from the last card the session becomes complete, and a complete session stays complete |
| `SimpleServer.ViewOf` | simple_server.py:171-193 | complete exactly when the position reaches the end; correct plus incorrect equals the responses; for an entry in step, complete exactly when every card is completed |
| `SimpleServer.RespondEntry` | simple_server.py:147-161 | refused past the last card; otherwise one response tagged with the current card id is appended and the position advances by one; keeps an entry in step |
| `SimpleServer.RespondEntriesInStep` | simple_server.py:144-161 | a run of answers succeeds exactly when it fits in the cards left, keeps the entry in step and advances the position by its length |
| `SimpleServer.Server.CreateFlashcard` | simple_server.py:70-82 | exactly one card is appended at the end of the list |
| `SimpleServer.Server.GetFlashcard` | simple_server.py:84-89 | the first card with the id, or not found |
| `SimpleServer.Server.StartStudySession` | simple_server.py:93-122 | refused without cards; otherwise a new entry over every card id in order at position 0 with no responses, and the reported view is that entry's view |
| `SimpleServer.Server.GetCurrentFlashcard` | simple_server.py:124-139 | unknown session, then complete session, then the first card with the current id or not found |
| `SimpleServer.Server.SubmitResponse` | simple_server.py:141-163 | unknown and complete sessions are refused with nothing changed; otherwise only that entry takes one response step (response time one second unless given), other entries and the card list are unchanged, and the server invariant is kept |
| `SimpleServer.Server.GetStudyProgress` | simple_server.py:165-193 | unknown session refused; otherwise the entry's view |
| `SimpleServer.Server.CompleteStudySession` | simple_server.py:195-204 | unknown session refused; otherwise only the completion time of that entry is set |

## Left out

- The HTTP layer: FastAPI routes, decorators, `HTTPException` status codes, CORS and app setup; each handler is a method that returns a result or an error value. `backend/src/api/flashcard_routes.py` and `backend/src/main.py` are not part of this model.
- File I/O: loading and saving the JSON files, creating them and the health check; each file is a sequence of records held in memory. Storage errors other than a missing or unreadable record (a failed read or write) are not modelled.
- Logging, which has no effect on state.
- `uuid4` and the clocks: ids and timestamps are parameters, and timestamps are integers. Where the source reads the clock twice for one record (the two default timestamps of a new flashcard) the model uses one value. Fresh ids are not required. In the file store a colliding id is stored as a second record, and every lookup finds the first; in the server's session dictionary a colliding id replaces the earlier entry.
- Unicode text handling: whitespace is the ASCII whitespace that `str.strip()` removes (space, TAB through CR, U+001C through U+001F); non-ASCII whitespace such as U+0085, U+00A0 and U+2000 through U+200A is not included, and lower-casing maps ASCII letters only.
- Floating point: accuracy and response times are `real`, with no rounding.
- Validation machinery: type coercion, `isinstance` checks on non-string input, and the several errors pydantic can collect at once; the model reports the first failure in field order. The correct-count validator as written raises rather than compares (see Findings); the rest of the model uses the intended comparison with `study_count`.
- `FlashcardService.get_all_flashcards`, `get_flashcard_count` and `StudyService.get_session_progress` only delegate to the store or the session; `Storage.FileStorage.GetAllFlashcards`, `Storage.FileStorage.GetFlashcardsCount` and `StudySessions.StudySession.GetProgress` model them.
- The root, health and list endpoints of `simple_server.py`: they return constants or the card list.
- The session table's key: the store searches session records by an `id` key that the session model does not declare. The key is modelled as the session id.
- Session records read back are re-validated only through their responses' validators, which are the only validators the session model declares; type coercion of the other session fields is not modelled.
- `Storage.FileStorage.GetRecentSessions`: compares start times as integers rather than ISO strings and does not model a record without a start time; that the sort keeps the table order of equal start times is not proved.
- `FlashcardServices.FlashcardService.UpdateFlashcard`: the object that the store returned is modelled by a fresh object built from its record, so aliasing between the two is not captured.
- Concurrency: every operation runs alone, as in the source.

## Findings

| source | as written | input that shows it | evidently intended | confidence | as-written member | corrected member |
|---|---|---|---|---|---|---|
| backend/src/models/flashcard.py:40-46 | the validator is declared with pydantic 2's `field_validator` but treats its second argument as a dict and calls `values.get('study_count', 0)`; pydantic 2 passes a `ValidationInfo` there, which has no `get`, so the call raises `AttributeError` | any record read back with `Flashcard(**d)` (backend/src/storage/file_storage.py:87, 94), for example a new card with `study_count` 0 and `correct_count` 0 | refuse `correct_count` above the already validated `study_count` | medium, not executed; by reading the decorator's calling convention | `Flashcards.ValidateCountsAsWritten`, `Flashcards.CountsAsWrittenRefuseStored` | `Flashcards.ValidateCounts` |
