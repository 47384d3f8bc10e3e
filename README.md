# Grandpa's Birthday Flashback Quiz — a Dafny model

The quiz shows one historical event at a time. The player drops it on one of
two zones: "before" Grandpa's birth year (1939) or "during" his lifetime. Each
drop is judged right or wrong. The verdict is stored under the event's id and
the record is appended to that zone's log. The quiz then moves to the next
event and is complete after the last one. At the end a shareable summary lists
every record by event id as a green or red square, followed by the score.

The model covers the page component's state and its three computations:
- the initial state;
- the drop handler;
- the running score and the share text.

Modules:
- `Types` (types.dfy): the event, quiz state and drop zone types.
- `Events` (events.dfy): the shipped ten-event catalog and the reference year.
- `Quiz` (quiz.dfy): the drop handler as a pure transition `Drop` on a `Page`
  (the quiz state plus the two zone logs). It comes with an invariant `Inv`
  that every reachable state satisfies for a catalog with distinct ids (as the
  shipped one). With a repeated id a later answer overwrites an earlier one,
  and the invariant, and the agreement of the two scores, can fail.
- `Share` (share.dfy): the summary. The logs are merged and sorted by event id
  with an insertion sort. Each record maps to a glyph, and the score is
  counted.
- `App` (app.dfy): the component as a class `Home`. Its two fields are the two
  React state cells. Its `HandleDrop` method overwrites both cells, and it is
  proved to compute exactly `Quiz.Drop` and to keep `Inv`.

Modelling choices:
- Event ids are strings of decimal digits in the source. Here they are `nat`.
  The same number serves as the answer key and as the sort key that
  `parseInt` produces.
- Years are `int` even though the source's `number` is a float, because every
  catalog year is an integer.
- The two emoji squares are the abstract constructors `CorrectGlyph` and
  `IncorrectGlyph`. The share text is the record `(glyphs, correct, total)`.
  The fixed sentences around these values are not modelled.
- The share denominator is the length of the shipped catalog, exactly as the
  source writes it. It is not the length of `quizState.events`.
- The invariant ties completion to `0 < index == |events|`. For an empty
  catalog the initial state already sits at the end, but it is not complete,
  and no drop can complete it.

## Model

| member | source | states |
|---|---|---|
| Events.CatalogIsOrderedById | src/data/events.ts:5-56 | the shipped catalog has ten events whose ids strictly increase, so all ids are distinct |
| Quiz.IsCorrect | src/app/page.tsx:31-33 | a drop is correct exactly when the zone is the one the year belongs to (before 1939 → before, otherwise during); a 1939 event belongs to the during zone |
| Quiz.CurrentEvent | src/app/page.tsx:25 | there is a current event exactly when the index is inside the catalog, and if so it is a catalog event |
| Quiz.TotalCorrect | src/app/page.tsx:26 | the running score counts the answers set to true, so it never exceeds the number of answers |
| Quiz.Initial | src/app/page.tsx:10-23 | the start state keeps the catalog, starts at index 0, is not complete and satisfies the invariant |
| Quiz.Drop | src/app/page.tsx:28-55 | without a current event nothing changes; otherwise the index advances by one, completion is set exactly when the new index is the catalog length, the event's id is added to the answers with the verdict and other answers are unchanged, the record is appended to the chosen zone's log, and the other log and the catalog are unchanged |
| Quiz.DropWithCurrent | src/app/page.tsx:35-53 | with a current event, the new logs are the old ones with the record appended to the zone, the answers are the old ones updated at the event's id, and the index is one higher |
| Quiz.CorrectZones | src/app/page.tsx:31-33 | for each event, the zone that makes its drop correct |
| Quiz.AppendAllRecords | src/app/page.tsx:35-38 | appending to the before log puts the record between the two logs, appending to the during log puts it at the end of the merged logs, and either way the merged logs gain exactly that record as a multiset |
| Quiz.AppendEvents | src/app/page.tsx:35-38 | appending to either zone adds exactly the record's event to the multiset of logged events |
| Quiz.AppendCount | src/app/page.tsx:35-38 | appending to either zone adds one to the count of correct records exactly when the record is correct |
| Quiz.AppendKeepsVerdicts | src/app/page.tsx:31-38 | a record appended with the zone's own verdict keeps every record in the before log judged for before and every record in the during log judged for during |
| Quiz.AppendKeepsAgreement | src/app/page.tsx:35-43 | when every logged record's verdict is stored under its id and the new record's id is not yet a key, every record of the appended logs has its verdict stored under its id in the updated answers |
| Quiz.DropPreservesLogInv | src/app/page.tsx:35-38 | a drop keeps the logs equal, as a multiset of events, to the processed prefix of the catalog, with each record called for its own zone |
| Quiz.DropPreservesAnswersInv | src/app/page.tsx:40-43 | with distinct ids, a drop keeps the answers keyed by exactly the processed ids, each matching its record, with the true answers counting the correct records |
| Quiz.DropPreservesInv | src/app/page.tsx:28-55 | with distinct ids, every drop keeps the whole invariant (progress, logs and answers) |
| Quiz.CompleteIsFinal | src/app/page.tsx:29 | once the quiz is complete, further drops change nothing |
| Quiz.RunPreservesInv | src/app/page.tsx:45-53 | for a catalog with distinct ids, any sequence of drops keeps the invariant and the catalog, and the index is the smaller of the drop count added to the start index and the catalog length |
| Quiz.RunCompletes | src/app/page.tsx:45-46 | on a non-empty catalog with distinct ids, as many drops as events complete the quiz with the index at the end |
| Quiz.AnswersOnePerEvent | src/app/page.tsx:40-43 | for a catalog with distinct ids (as the shipped one), in every reachable state there is exactly one answer per processed event |
| Quiz.CorrectRunIsAllCorrect | src/app/page.tsx:31-38 | dropping every remaining event on its correct zone keeps every logged record correct |
| Quiz.SingleEventScenario | src/app/page.tsx:31-46 | for a one-event catalog holding the 1941 event, a drop on before logs it as wrong and a drop on during logs it as right; either way the answer is stored under id 3 and the quiz completes |
| Quiz.EventsOfConcat | src/app/page.tsx:63 | the events of concatenated logs are the concatenated events |
| Quiz.CountCorrectConcat | src/app/page.tsx:63 | the correct count of concatenated logs is the sum of the counts |
| Share.Insert | src/app/page.tsx:63-64 | inserting into an id-sorted list yields a sorted list one longer |
| Share.InsertAddsRecord | src/app/page.tsx:63-64 | insertion adds exactly the new record to the multiset of records |
| Share.InsertAddsEvent | src/app/page.tsx:63-64 | insertion adds exactly the new record's event to the multiset of events |
| Share.InsertAddsVerdict | src/app/page.tsx:63-64 | insertion adds one to the correct count exactly when the new record is correct |
| Share.SortById | src/app/page.tsx:63-64 | the sort by numeric id returns a list of the same length in nondecreasing id order |
| Share.SortIsPermutation | src/app/page.tsx:63-64 | the sorted list is a permutation of the merged logs |
| Share.SortKeepsEvents | src/app/page.tsx:63-64 | sorting keeps the multiset of logged events |
| Share.SortKeepsCount | src/app/page.tsx:63-67 | sorting keeps the number of correct records |
| Share.Glyphs | src/app/page.tsx:66 | one glyph per record, green exactly when the record is correct, so the green glyphs count the correct records |
| Share.CreateShareText | src/app/page.tsx:61-70 | the glyph row has one glyph per dropped record and is the glyph row of an id-sorted permutation of both logs; the numerator is the number of correct records in both logs, equal to the number of green glyphs; the denominator is the catalog length |
| Share.SortedPermutationIsUnique | src/app/page.tsx:62-64 | a list in nondecreasing id order that is a permutation of a list in strictly increasing id order is that list |
| Share.SortedEventsAreNondecreasing | src/app/page.tsx:62-64 | the events of an id-sorted log have nondecreasing ids |
| Share.ScoresAgree | src/app/page.tsx:26 | for a catalog with distinct ids (as the shipped one), in every reachable state the running score on the page equals the numerator of the share text |
| Share.CompletedShareFollowsCatalog | src/app/page.tsx:62-66 | for a completed quiz over a catalog with increasing ids, the sorted results list the catalog's events in catalog order, and glyph i is green exactly when the answer stored for event i is true |
| Share.AllCorrectShareText | src/app/page.tsx:66-67 | when every record is correct, every glyph is green and the numerator is the number of records |
| Share.AllCorrectGivesFullScore | src/app/page.tsx:61-69 | on a non-empty catalog with distinct ids, dropping every event on its correct zone gives an all-green row of one glyph per event and a numerator equal to the catalog length |
| Share.AllCorrectCount | src/app/page.tsx:67 | a log is all correct exactly when its correct count is its length |
| Share.TenOutOfTen | src/data/events.ts:5-56 | with the shipped catalog, dropping every event correctly gives ten green glyphs and a score of 10 out of 10 |
| App.Home.constructor | src/app/page.tsx:10-23 | the component starts in the initial state over the shipped catalog, which satisfies the invariant |
| App.Home.HandleDrop | src/app/page.tsx:28-55 | the handler's new cells are exactly `Quiz.Drop` of the old ones, the invariant is kept, and the index advances by one up to the catalog length |

## Left out

- Rendering: the JSX for the quiz, the zones and the completion screen is not modelled. Neither is the `DroppedEvent` component (src/components/DroppedEvent.tsx) or the layout (src/app/layout.tsx).
- `handleDragOver` and the browser drag-and-drop wiring: they only suppress the browser default and deliver the zone, so the zone is a parameter of the drop.
- Sharing (src/app/page.tsx:72-82): `navigator.share`, the clipboard and the alert are browser I/O. Only the text they receive is modelled.
- React's asynchronous state updates and the `useCallback` memoisation: a drop is modelled as one atomic step from the current state.
- Share.CreateShareText: the glyph row is stated for some id-sorted permutation of both logs. It does not state which one comes first among records with equal ids. When ids are distinct, as in the shipped catalog, the order is unique (`Share.SortedPermutationIsUnique`). The sort's stability is not stated.
- Share.CreateShareText: the sentences around the emoji row and the score, and the concrete emoji characters, are not modelled.
- `parseInt` on ids that are not decimal numerals: ids are natural numbers here, so a non-numeric id, and the NaN comparison it would cause, cannot be expressed.
- Quiz.IsCorrect: years are integers, so fractional years are not modelled.
