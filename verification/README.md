# Tweet timeline store — a Dafny model

This project models the core of a small C++ program (`Twitter.cpp`). The program keeps
a simulated Twitter account's tweets in a fixed-capacity timeline. It stores up to
`CAPACITY` = 10 records `Tweet { id, msg, likes }`, where `msg` is a buffer of `MSGSIZE` = 100
characters. It also keeps a count `usedSize` and a selected position `selected`, with
-1 meaning "no tweet selected". From the menu a user can:

- select a tweet by id;
- add a tweet, whose id is 1 + the highest id present, or 100 on an empty timeline;
- edit or like the selected tweet;
- delete the selected tweet, which moves the later tweets one place towards the front and clears the selection.

Layout:

- `tweets.dfy`, module `Tweets`: the constants, the `Tweet` record and `Message`.
  A `Message` is the text in front of a buffer's terminator, so it holds at most `MSGSIZE - 1` characters and no NUL.
  The module also has `CopyMessage`, which reads the C string in a character buffer.
- `timeline.dfy`, module `Timeline`: the operations as pure functions over the used prefix
  `timeline[0 .. usedSize)`. They are `NextId` (with `MaxId`), `SelectTweet`, `AddTweet`,
  `EditTweet`, `LikeTweet` and `DeleteTweet`. The module also holds the lemmas that relate them.
- `scans.dfy`, module `Scans`: the three loops of the program, written as loops with
  invariants. They are getNextId's running maximum, selectTweet's linear search and
  doDeleteTweet's left shift. Each loop is proved equal to the reference definition in `Timeline`.
- `store.dfy`, module `Store`: the state `main` keeps (`Store(timeline, selected)`) and its
  invariant `Valid`. `Valid` says: at most CAPACITY tweets, distinct ids, every id ≥ 100,
  no negative like count, and a selection that is -1 or a used position. The module also has
  main's rule for adopting a returned position, one menu step `Step`, runs of steps, and the
  three starter tweets.
- `as_written.dfy`, module `AsWritten`: four defects of the code, modelled as written over the whole
  10-slot array. Slots past `usedSize` hold whatever memory held. `Undefined` marks an access
  outside the array. For each defect there is an input that shows it, and an if-and-only-if
  lemma that says exactly when the code agrees with the corrected operation.

The store operations follow the documented contracts of `Twitter.cpp`, and every invalid case is
guarded. Where the code does something else, the difference is logged under "## Findings".
The comments at Twitter.cpp:36-39, 49-52 and 62-66 say that a selection which is not a valid
position changes nothing, and `EditTweet`, `LikeTweet` and `DeleteTweet` do exactly that for every
such selection. The code itself tests only `selected == -1` (doEditTweet and doLikeTweet write it as
`selected < usedSize && selected == -1`, the same test since `usedSize ≥ 0`). `Store.Valid` keeps the
selection at -1 or a used position, so in reachable states the two agree; `AsWritten` shows what the
code does otherwise.

getNextId starts its running maximum at -110. On the timeline's ids alone, that only makes a difference
when every id is below -110. `Scans.ScanNextId` states the exact result with the sentinel.
`Store.Valid` keeps every id ≥ 100, so in reachable states the result is the documented "1 + highest id".

## Model

| member | source | states |
|---|---|---|
| Tweets.CText | Twitter.cpp:252-255 | the C string of a buffer: a prefix of it with no NUL, at most `limit` long, that stops only at a NUL, the limit or the buffer's end |
| Tweets.CopyMessage | Twitter.cpp:252-255 | the message stored from a C string buffer is a NUL-free prefix of the buffer of at most MSGSIZE - 1 characters, ending at the terminator when shorter |
| Tweets.CopyMessageRoundTrip | Twitter.cpp:134-136 | a NUL-free text that fits, written with its terminator, reads back as exactly that text |
| Timeline.MaxId | Twitter.cpp:345-352 | the scanned maximum is at least every id and is the id of some tweet |
| Timeline.NextId | Twitter.cpp:334-356 | 100 on an empty timeline; otherwise larger than every id, and one more than an id that is present, i.e. 1 + the highest id |
| Timeline.SelectTweet | Twitter.cpp:379-418 | -1 exactly when no used tweet has the id (so -1 on an empty timeline); otherwise the first position in `[0, usedSize)` holding it; as a function it leaves the timeline untouched |
| Timeline.AddTweet | Twitter.cpp:237-261 | full: returns -1 and leaves the timeline unchanged; otherwise appends at position usedSize, returns it, grows by one, keeps earlier entries, gives the new tweet the next id, the message and 0 likes |
| Timeline.EditTweet | Twitter.cpp:297-316 | with no selection, or one that names no tweet, nothing changes; otherwise only the selected tweet's message is replaced, its id and likes and all other tweets kept |
| Timeline.LikeTweet | Twitter.cpp:44-54 | with no selection, or one that names no tweet, nothing changes (as documented); otherwise the selected tweet gets exactly one more like, and every other field and tweet is kept |
| Timeline.DeleteTweet | Twitter.cpp:359-377 | with no selection, or one that names no tweet, nothing changes (as documented at 57-66); otherwise exactly the selected tweet leaves (multiset), earlier tweets keep their place, later ones move one place forward, and the selection becomes -1 |
| Timeline.RemoveAt | Twitter.cpp:366-376 | the timeline with entry p taken out: one shorter, entries before p kept in place, entries after p one place nearer the front |
| Timeline.SelectFindsUniquePosition | Twitter.cpp:407-414 | with distinct ids, searching a tweet's id returns that tweet's position |
| Timeline.AddKeepsIdsDistinct | Twitter.cpp:246-249 | adding keeps ids pairwise distinct and at least 100, because the new id exceeds every present id |
| Timeline.DeleteForgetsId | Twitter.cpp:366-376 | deleting keeps ids distinct and the deleted id is no longer present |
| Timeline.NextIdAfterDeletingMax | Twitter.cpp:334-356 | once the tweet with the highest id is deleted, the next id is at most that deleted id: ids are recomputed, not counted |
| Timeline.ExampleAdds | Twitter.cpp:237-261 | three adds from an empty timeline return positions 0, 1, 2 and give ids 100, 101, 102 with no likes |
| Timeline.ExampleSelectLikeDelete | Twitter.cpp:319-377 | on ids 100, 101, 102, id 101 is found at 1; a like gives it 1 like; deleting it leaves 100 and 102 with no selection |
| Scans.ScanNextId | Twitter.cpp:334-356 | the loop with its -110 starting maximum returns 100 when empty and 1 + max(-110, highest id) otherwise, which is NextId whenever no id is below -110 |
| Scans.ScanForId | Twitter.cpp:379-418 | the loop over `[0, usedSize)` returns -1 exactly when the id is absent, else the first matching position, the same answer as SelectTweet |
| Scans.ShiftLeft | Twitter.cpp:366-376 | the shift loop yields the timeline with the selected entry removed, the others in order, one shorter, a permutation minus that entry |
| Store.Adopt | Twitter.cpp:171-184 | defines main's rule after Select and Add: a returned position replaces the selection only when it is > -1, otherwise the selection stays |
| Store.Step | Twitter.cpp:166-194 | one pass of the menu switch; Display and Exit change nothing, Select leaves the timeline alone, Edit and Like keep the selection, the length and every id |
| Store.AdoptKeepsSelectionValid | Twitter.cpp:171-184 | adopting a returned position only when it is > -1 keeps the selection valid, and the selection stays put exactly when -1 (or the same position) came back |
| Store.AddPreservesValid | Twitter.cpp:178-184 | the Add choice keeps the invariant; when full the whole state is unchanged, otherwise the new tweet becomes selected |
| Store.DeletePreservesValid | Twitter.cpp:359-377 | the Delete choice keeps the invariant and always leaves no selection |
| Store.StepPreservesValid | Twitter.cpp:166-194 | every menu choice keeps: at most CAPACITY tweets, distinct ids ≥ 100, likes ≥ 0, selection -1 or a used position |
| Store.Run | Twitter.cpp:138-196 | defines the do-while menu loop over a sequence of choices: each choice is one `Step`, and the loop ends at the first Exit (choice 7) |
| Store.RunPreservesValid | Twitter.cpp:138-196 | any sequence of menu choices keeps that invariant |
| Store.RunStopsAtExit | Twitter.cpp:196 | choices after the first Exit have no effect: the run equals the run of the choices before it |
| Store.Starters | Twitter.cpp:133-136 | defines the three starter adds from an empty timeline, each returned position stored as the selection directly |
| Store.Seeded | Twitter.cpp:133-136 | the state before the menu loop is valid, holds the C texts of the three literals under ids 100, 101, 102 with no likes, and selects the third |
| Store.StartersValid | Twitter.cpp:133-136 | the three starter tweets get ids 100, 101, 102, no likes and their texts, the third one is selected, and the state is valid (`Seeded` feeds them the C strings of the literals through CopyMessage) |
| Store.SelectThenLike | Twitter.cpp:171-189 | selecting a present id then liking selects that tweet and gives it exactly one more like, leaving all else |
| Timeline.AddDeleteAddReissuesId | Twitter.cpp:346-355 | add, delete the added tweet, add again: the second new tweet lands at the same position with the same id as the first |
| AsWritten.ScanFrom | Twitter.cpp:407-418 | defines the `i <= usedSize` loop from position i: a match returns i, reading past the array is undefined, passing usedSize returns -1 |
| AsWritten.SelectAsWritten | Twitter.cpp:379-418 | defines selectTweet as written: -1 on an empty timeline, otherwise the `i <= usedSize` scan from 0 |
| AsWritten.ScanFromMeaning | Twitter.cpp:407-418 | the `i <= usedSize` scan finds the first match among the used tweets, else reads slot usedSize: undefined when it is past the array, a "found" position when it holds the id |
| AsWritten.SelectAsWrittenAgreesIff | Twitter.cpp:379-418 | the code's search agrees with the corrected one exactly when the timeline is empty, the id is present, or slot usedSize exists and holds another id |
| AsWritten.SelectFindsSlotPastEnd | Twitter.cpp:408-413 | with one tweet (id 100) and an uninitialised slot 1 that happens to hold 101, searching 101 returns 1, not a used position; the corrected search returns -1 |
| AsWritten.SelectReadsPastFullArray | Twitter.cpp:408-413 | on a full timeline an absent id makes the scan read timeline[10] |
| AsWritten.ShiftFrom | Twitter.cpp:368-373 | defines the copying loop from position i: slot i takes slot i + 1 until usedSize, undefined once slot i + 1 is past the array |
| AsWritten.DeleteAsWritten | Twitter.cpp:359-377 | defines doDeleteTweet as written: only -1 means no selection; otherwise the copying loop from the selection, usedSize - 1 and selection -1 |
| AsWritten.ShiftFromMeaning | Twitter.cpp:369-373 | the copying loop moves each entry in `[i, usedSize)` one place forward and is undefined exactly when slot usedSize is past the array |
| AsWritten.DeleteAsWrittenAgreesIff | Twitter.cpp:359-377 | with a tweet selected, the code is defined exactly when the timeline is not full, and then its used prefix equals the corrected delete, with usedSize - 1 and no selection |
| AsWritten.DeleteReadsPastFullArray | Twitter.cpp:369-373 | deleting position 0 of a full timeline reads timeline[10] |
| AsWritten.DeleteAtUsedDropsLast | Twitter.cpp:362-376 | a selection equal to usedSize (which the scan past the end can return) silently drops the last tweet |
| AsWritten.LikeAsWritten | Twitter.cpp:319-330 | defines doLikeTweet as written: the increment of `timeline[selected].likes` happens for every selection, undefined outside the array |
| AsWritten.LikeAsWrittenAgreesIff | Twitter.cpp:319-330 | for a valid selection, the code agrees with the documented like exactly when a tweet is selected |
| AsWritten.LikeWithoutSelectionWritesBeforeArray | Twitter.cpp:321-329 | with selection -1 the code writes timeline[-1].likes, where the documented behaviour changes nothing |
| AsWritten.CopyAsWritten | Twitter.cpp:251-255 | defines addTweet's copy as written: MSGSIZE characters of the source, undefined when the source is shorter |
| AsWritten.CopyAsWrittenAgreesIff | Twitter.cpp:252-255 | the fixed-width copy is defined exactly on sources of at least MSGSIZE characters, and then the copied buffer holds the same message |
| AsWritten.CopyReadsPastShortLiteral | Twitter.cpp:252-255 | copying the two-character literal "A\0" reads past its end, while the corrected copy stores "A" |

## Findings

| source | as written | input that shows it | evidently intended | confidence | as-written member | corrected member |
|---|---|---|---|---|---|---|
| Twitter.cpp:408 | selectTweet's loop runs `i <= usedSize`, reading the slot past the used tweets | one tweet with id 100 and an uninitialised slot 1 that happens to hold 101, search 101: returns 1; or a full timeline and an absent id: reads timeline[10] | `i < usedSize` | high; not executed | AsWritten.SelectFindsSlotPastEnd | Timeline.SelectTweet |
| Twitter.cpp:371 | doDeleteTweet copies `timeline[i + 1]` for i up to usedSize - 1 | full timeline (10 tweets), selection 0: reads timeline[10] | loop to `usedSize - 1` | high; not executed | AsWritten.DeleteReadsPastFullArray | Scans.ShiftLeft |
| Twitter.cpp:329 | doLikeTweet increments `timeline[selected].likes` after the "no tweet selected" branch too | selection -1: writes timeline[-1].likes | increment only in an else branch | high; not executed | AsWritten.LikeWithoutSelectionWritesBeforeArray | Timeline.LikeTweet |
| Twitter.cpp:252-255 | addTweet copies MSGSIZE characters from `message` whatever its length | the starter literals of main (Twitter.cpp:134-136), shorter than 100 characters; in the model "A\0" | copy up to and including the terminator | high; not executed | AsWritten.CopyReadsPastShortLiteral | Tweets.CopyMessage |

The rest of the model uses the corrected definitions:

- `Store.Step` uses `SelectTweet`, `LikeTweet` and `DeleteTweet`.
- `Store.Seeded` uses `CopyMessage` for the starter texts.

Given the first finding, `AsWritten.DeleteAtUsedDropsLast` shows a consequence in the code as written.
A selection of usedSize that slipped through the search makes Delete remove the last tweet instead of the chosen one.

## Left out

- Console I/O: the menu prompts, `cin` reads and their retry loops, and the messages printed for errors. The searched id and the message text are parameters (`Command`). The error messages are only visible as the -1 results and the unchanged state.
- displayTimeline: it only renders text.
- doAddTweet: it reads the message with `cin.getline` into the free slot and then calls addTweet. The `Add` command covers it with the text as a `Message`. Its path that falls off the end without returning is unreachable and is not modelled.
- The tweet array as a mutable C array: the corrected model works on the sequence of used entries. Only `AsWritten` models the whole array, because the defects live past the used entries.
- Timeline.NextId: ids are unbounded integers, so the 32-bit `int` overflow of `maxID + 1` is not modelled. Reaching it needs over two billion adds.
- Timeline.LikeTweet: like counts are unbounded integers, so the 32-bit overflow of `likes += 1` is not modelled.
