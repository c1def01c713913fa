# Workout to-do app: the core helpers, modelled in Dafny

The web app keeps a per-user to-do list of catalog exercises. It offers an
exact ("rigid") and a fuzzy exercise search over the catalog, and logs every
search to a history that it turns back into suggestions. It can also add an
exercise by voice. A transcript such as `exercise "Push Up" for 2 minutes 30
seconds` is parsed, the spoken name is searched, and the first match is
added. The spoken duration is then written onto the new item as its working
time.

This project restates those helpers of `web-app/app.py` as pure functions
over an in-memory store and proves what they promise:

- `common.dfy` (module `Common`): `Option` for Python's `None`, and the user
  and exercise id types.
- `text.dfy` (`Text`): Python's `\s` class, `normalize_text`, and the
  catalog-side key the exact search compares against (only ` ` and `-`
  removed, then lower-cased). Also substring containment, which stands for
  the fuzzy search.
- `catalog.dfy` (`Catalog`): lookup by `_id`, `search_exercise_rigid`,
  `search_exercise` and `get_instruction`.
- `history.dfy` (`History`): `add_search_history`, `get_search_history`
  (newest first) and `get_matching_exercises_from_history`.
- `todo.dfy` (`TodoList`): the to-do engine. The store maps a user to a
  document whose `todo` field may be absent. It holds `get_todo`,
  `get_exercise_in_todo`, `get_latest_todo_id`, `add_todo`, `delete_todo`
  (`$pull`) and `edit_exercise` (positional `$set`). Each mutation returns
  the boolean the source returns together with the new store.
- `todo_props.dfy` (`TodoProperties`): the id invariant and the properties
  that relate several calls.
- `voice.dfy` (`Voice`): `parse_voice_command`. Its two regular expressions
  are hand-written scanners, and declarative readings of the patterns come
  with soundness and completeness lemmas. It also holds the
  `f"{minutes}:{seconds}"` working-time text.
- `voice_examples.dfy` (`VoiceExamples`): whole transcripts run through the
  parser.
- `voice_add.dfy` (`VoiceAdd`): `add_with_voice` after the transcription
  step. It parses, runs the fuzzy search, adds the first match, then writes
  the time.

Some of what `app.py` does is easy to miss; the model keeps it:

- Ids can be reused. `add_todo` gives a new item the largest id remaining
  plus one (app.py:145-149), so the new id can repeat one that was deleted.
  On a list numbered 1000, 1001, ... without gaps, deleting the largest id
  makes the next add hand out that same id again
  (`TodoProperties.DeleteLastThenAddReusesId`). On a list with gaps the
  next id is the new largest plus one: after [1000, 1005] loses 1005, the
  next id is 1001.
- The working time is formatted as `f"{minutes}:{seconds}"` (app.py:586),
  without zero padding: 2 minutes 5 seconds becomes `"2:5"`.
- The duration pattern (app.py:520) needs the word `second`, so
  "for 5 minutes" alone yields no duration. Its minutes group is not
  optional, so the `else 0` for the minutes at app.py:522 is dead code: the
  dictionary is only built when `time_match` is set.
- Not every failure is a return value. When a list is non-empty but no item
  carries an id, the `max` at app.py:540 raises (`Latest.NoIdError`,
  `VoiceStatus.LatestRaised`).
- The handler tests the latest id for truthiness (app.py:580-582), so an id
  of 0 stops it just as `None` does.

## Model

| member | source | states |
|---|---|---|
| Text.Normalize | web-app/app.py:59-62 | the normalised text holds no `\s` character, no hyphen and no upper-case letter |
| Text.NormalizeFixedPoint | web-app/app.py:59-62 | a string is its own normal form exactly when it holds no separator and no upper-case letter |
| Text.NormalizeIdempotent | web-app/app.py:59-62 | normalising twice is normalising once |
| Text.NormalizeExamples | web-app/app.py:59-62 | "Push-Up", "push up" and "PUSHUP" all normalise to "pushup" |
| Text.NormalizeConcat | web-app/app.py:59-62 | normalisation works piece by piece over a concatenation |
| Text.LowerChar | web-app/app.py:62 | an upper-case ASCII letter becomes the same letter in lower case; every other character is kept |
| Text.Lower | web-app/app.py:62 | lower-casing keeps the length and maps every character on its own |
| Text.LowerCharAlike | web-app/app.py:62 | two characters lower-case alike exactly when they are equal or the same ASCII letter in two cases |
| Text.LowerAlike | web-app/app.py:62 | two texts lower-case alike exactly when they have the same length and agree position by position up to ASCII case |
| Text.Drop | web-app/app.py:61 | deleting a class of characters never lengthens the text and leaves only characters of the input outside the class |
| Text.DropKeeps | web-app/app.py:61 | every character outside the deleted class survives the deletion |
| Text.DropConcat | web-app/app.py:61 | deletion works piece by piece over a concatenation |
| Text.CatalogKey | web-app/app.py:95-103 | the catalog key holds no plain space, no hyphen and no upper-case letter |
| Text.CatalogKeyMatchesNormalize | web-app/app.py:87-111 | for a name whose only whitespace is the plain space, the catalog key equals the normalised name |
| Text.CatalogKeyKeepsOtherSpace | web-app/app.py:95-103 | a name holding a tab, a non-breaking space or any other non-space whitespace has a key no normalised query can equal |
| Text.PushUpKeys | web-app/app.py:64-85 | the spoken "Push Up" and the catalog name "Push-Up" both reduce to "pushup" |
| Catalog.FindExercise | web-app/app.py:139 | the lookup by `_id` returns the first exercise carrying the id, and nothing exactly when no exercise carries it |
| Catalog.Select | web-app/app.py:68-85 | the filtered `find` keeps exactly the catalog exercises the filter holds of, never more than the catalog |
| Catalog.SelectFirst | web-app/app.py:68-85 | the first exercise the filtered `find` returns is the earliest catalog exercise the filter holds of |
| Catalog.SearchRigid | web-app/app.py:87-111 | the exact search returns exactly the catalog exercises whose key equals the normalised query |
| Catalog.SearchFuzzy | web-app/app.py:64-85 | the fuzzy search returns exactly the catalog exercises whose key contains the normalised query |
| Catalog.SearchFuzzyConcat | web-app/app.py:64-85 | fuzzy results come in catalog order: searching two catalog parts gives the first part's results, then the second's |
| Catalog.SearchFuzzyFirst | web-app/app.py:64-85 | the first fuzzy result is the earliest catalog exercise whose key contains the normalised query |
| Catalog.SearchRigidConcat | web-app/app.py:87-111 | results come in catalog order: searching two catalog parts gives the first part's results, then the second's |
| Catalog.SearchRigidFindsOwnName | web-app/app.py:87-111 | searching an exercise's own name finds it when the name has no whitespace but plain spaces |
| Catalog.SearchRigidMissesOtherSpace | web-app/app.py:95-103 | an exercise whose name holds non-space whitespace is never found by the exact search |
| Catalog.RigidWithinFuzzy | web-app/app.py:64-111 | every exact match is a fuzzy match |
| Catalog.FuzzyEmptyQueryMatchesAll | web-app/app.py:64-85 | a query that normalises to nothing fuzzily matches the whole catalog, in order |
| Catalog.GetInstruction | web-app/app.py:243-260 | an unknown id gives the error naming it; otherwise the first exercise with the id gives its name and its instruction or the fixed default text |
| History.AddSearchHistory | web-app/app.py:207-213 | recording a search appends one entry with the user, the query and the time, and keeps every earlier entry |
| History.OtherUsersUnaffected | web-app/app.py:207-213 | recording a search for one user leaves every other user's entries as they were |
| History.EntriesOf | web-app/app.py:217-219 | the user's entries are exactly the log entries carrying the user |
| History.SortByTimeDesc | web-app/app.py:220 | the sort returns a newest-first permutation of its input |
| History.GetSearchHistory | web-app/app.py:216-223 | the history is newest first and is a permutation of exactly the user's entries |
| History.GetMatchingExercisesFromHistory | web-app/app.py:263-276 | an exercise is suggested exactly when it is in the catalog and its key equals the normalised text of one of the user's past queries |
| History.MatchAll | web-app/app.py:270-273 | the collected matches are exactly the catalog exercises whose key equals the normalised text of some entry |
| History.MatchAllConcat | web-app/app.py:270-273 | suggestions keep history order and duplicates: two history parts give the first part's matches, then the second's |
| TodoList.GetTodo | web-app/app.py:117-121 | the list is empty without a document or without a `todo` field, and is the stored array otherwise |
| TodoList.GetExerciseInTodo | web-app/app.py:225-240 | the scan returns nothing exactly when no item carries the id, and otherwise the first item carrying it |
| TodoList.FirstIndex | web-app/app.py:197-198 | the positional `$` points at an item with the id, and no earlier item has it |
| TodoList.GetLatestTodoId | web-app/app.py:535-540 | `None` exactly for an empty list, the `max` error exactly when no item has an id, otherwise a present id no smaller than any other |
| TodoList.MaxId | web-app/app.py:146 | the maximum counts id-less items as 999, defaults to 999, bounds every item and is attained |
| TodoList.NextId | web-app/app.py:145-149 | the new id is 1000 for an empty or missing list and otherwise the largest id present plus one, id-less items counting as 999; it exceeds every present id |
| TodoList.MaxPresentId | web-app/app.py:540 | the largest id carried by an item, attained and bounding every present id; nothing exactly when no item has an id |
| TodoList.AddTodo | web-app/app.py:138-178 | an unknown exercise fails and changes nothing; otherwise exactly one item is appended with the next id, the exercise's id and name and the given fields, and nothing else changes |
| TodoList.RemoveId | web-app/app.py:127 | `$pull` keeps exactly the items not carrying the id |
| TodoList.DeleteTodo | web-app/app.py:124-135 | succeeds exactly when some item carried the id; afterwards none does, the survivors are exactly the others, in their old order (`RemoveId`, see `TodoProperties.RemoveIdConcat`), and on failure nothing changes |
| TodoList.EditExercise | web-app/app.py:181-205 | fails without change when no field is given or no item has the id; otherwise only the first item with the id gets the given fields, and ids, exercise, name, length and other items are untouched |
| TodoProperties.AddPreservesValid | web-app/app.py:145-171 | adding keeps every list's ids at least 1000 and strictly increasing |
| TodoProperties.RemoveIdKeepsValid | web-app/app.py:127 | `$pull` keeps a valid list valid |
| TodoProperties.DeletePreservesValid | web-app/app.py:124-135 | deleting keeps every list valid |
| TodoProperties.EditPreservesValid | web-app/app.py:181-205 | editing keeps every list valid |
| TodoProperties.RemoveIdConcat | web-app/app.py:127 | the survivors of `$pull` keep their relative order |
| TodoProperties.LatestIsLast | web-app/app.py:535-540 | on a valid list the latest id is the last item's id |
| TodoProperties.AddedItemIsLatest | web-app/app.py:535-540 | right after an add, the new id is the latest id and the new last item is the first to carry it |
| TodoProperties.NextIdOfConsecutive | web-app/app.py:145-149 | on a list numbered 1000, 1001, ... the next id continues the count |
| TodoProperties.AddKeepsConsecutive | web-app/app.py:138-178 | adding to a list numbered 1000, 1001, ... keeps the numbering consecutive |
| TodoProperties.AddManyNumbersFrom1000 | web-app/app.py:145-149 | n adds to an empty or missing list number the items 1000 to 1000 + n - 1 |
| TodoProperties.RemoveLastOfConsecutive | web-app/app.py:127 | pulling the largest id of a consecutively numbered list removes just the last item |
| TodoProperties.DeleteLastOfConsecutive | web-app/app.py:124-135 | deleting the largest id succeeds and leaves the first n - 1 items, still consecutive |
| TodoProperties.DeleteLastThenAddReusesId | web-app/app.py:145-149 | on a list numbered 1000, 1001, ... without gaps, deleting the largest id makes the next add hand out that same id again (on a list with gaps the next id is the new largest plus one, by `TodoList.NextId`) |
| TodoProperties.AddAddDeleteEditScenario | web-app/app.py:138-205 | two adds give ids 1000 and 1001; deleting 1000 and setting only the weight of 1001 leaves one item, 1001, with the new weight and everything else as added |
| Voice.LetterAtLowers | web-app/app.py:517-520 | the `re.IGNORECASE` letter test holds exactly where the character lower-cases to the pattern's letter |
| Voice.CloseQuote | web-app/app.py:517 | the lazy group ends at the first quote, and no newline comes before it |
| Voice.FindExerciseName | web-app/app.py:517-518 | a captured name is non-empty, holds no newline, and has no quote after its first character |
| Voice.ExerciseMatchAt | web-app/app.py:517 | a name captured at one start position is non-empty, holds no newline and has no quote after its first character; `ExerciseMatchAtSound` and `ExerciseMatchAtComplete` show it is exactly the pattern's match there |
| Voice.ExerciseMatchAtSound | web-app/app.py:517 | what the name scanner captures at a position is a match of the name pattern there |
| Voice.ExerciseMatchAtComplete | web-app/app.py:517 | every match of the name pattern at a position is what the scanner captures there |
| Voice.FindExerciseNameSound | web-app/app.py:517-518 | the name search returns the group of the leftmost match |
| Voice.FindExerciseNameComplete | web-app/app.py:517-518 | wherever the name pattern matches, the search finds a name |
| Voice.SecondsFrom | web-app/app.py:520 | a seconds tail is found only where six characters remain for `second`; `SecondsFromSound` and `SecondsFromComplete` show it is exactly the `\s*(\d+)?\s*second` match |
| Voice.SecondsFromSound | web-app/app.py:520 | what the seconds scanner captures is a match of the `\s*(\d+)?\s*second` tail |
| Voice.SecondsFromComplete | web-app/app.py:520 | every match of that tail gives the scanner's capture, with seconds 0 when the group is empty |
| Voice.SecondsAfterMinute | web-app/app.py:520 | after `minute` a tail is found only where the text has room for `minute` and `second`; `SecondsAfterMinuteSound` and `SecondsAfterMinuteComplete` show it is exactly the `s?` and tail match |
| Voice.SecondsAfterMinuteSound | web-app/app.py:520 | what the scanner finds after `minute` matches `s?` and the tail, the optional `s` given back when needed |
| Voice.SecondsAfterMinuteComplete | web-app/app.py:520 | every match after `minute` gives the scanner's capture |
| Voice.MinuteAt | web-app/app.py:520 | a head found at a position is a non-empty digit run, whitespace, then `minute` in any case |
| Voice.MinuteAtComplete | web-app/app.py:520 | digits, whitespace and `minute` are exactly what the head scanner finds |
| Voice.TimeMatchAt | web-app/app.py:520-524 | a duration matched at a position starts with a digit there; `TimeMatchAtSound` and `TimeMatchAtComplete` show it is exactly the pattern's match there |
| Voice.TimeMatchAtSound | web-app/app.py:520-524 | what the duration scanner captures at a position is a match of the duration pattern there |
| Voice.TimeMatchAtComplete | web-app/app.py:520-524 | every match of the duration pattern at a position gives the scanner's capture: minutes and seconds are unique |
| Voice.FindTime | web-app/app.py:520-524 | a duration is found only when a digit comes at or after the start; `FindTimeSound` and `FindTimeComplete` show it is the leftmost match |
| Voice.FindTimeSound | web-app/app.py:520-524 | the duration search returns the capture of the leftmost match |
| Voice.FindTimeComplete | web-app/app.py:520-524 | wherever the duration pattern matches, the search finds a duration |
| Voice.FirstTimeAt | web-app/app.py:520-524 | a duration match with no digit before it is the one the search returns |
| Voice.ParseVoiceCommand | web-app/app.py:515-533 | a parsed name is non-empty, holds no newline and has no quote after its first character |
| Voice.ParseFailsIffNoExercise | web-app/app.py:517-528 | parsing fails exactly when the name pattern matches nowhere |
| Voice.ParsedNameIsLeftmost | web-app/app.py:517-518 | a parsed name is the group of the leftmost name match |
| Voice.ParsedTimeIsLeftmost | web-app/app.py:520-524 | a parsed command has a duration exactly when the duration pattern matches somewhere, and then it is the leftmost match's capture, seconds 0 when unspoken |
| Voice.NoQuoteNoCommand | web-app/app.py:517-528 | a transcript without quotes never parses |
| Voice.NoSecondWordNoTime | web-app/app.py:520-524 | without the word `second` there is no duration |
| Voice.NoDigitNoTime | web-app/app.py:520-524 | without a digit there is no duration |
| Voice.TimePhraseAt | web-app/app.py:520-524 | digits, ` minutes `, digits, ` seconds` with no digit before them are the duration found |
| Voice.NatToDecimal | web-app/app.py:586 | `str()` of a number is non-empty decimal digits with no leading zero |
| Voice.DecimalRoundTrip | web-app/app.py:522-523 | `int()` of `str(n)` is n |
| Voice.DecimalRoundTripBack | web-app/app.py:522-523 | `str()` of `int()` of digits without a leading zero gives the digits back |
| Voice.WorkingTimeText | web-app/app.py:586 | the working-time text holds a colon |
| Voice.WorkingTimeTextRoundTrip | web-app/app.py:586 | the working-time text splits at its only colon into the decimal minutes and seconds it was written from |
| VoiceExamples.TimePhraseFound | web-app/app.py:520-524 | in any transcript with no digit before `<m> minutes <s> seconds`, the duration found is (m, s) |
| VoiceExamples.ParseNameAndDuration | web-app/app.py:515-533 | for a non-empty name holding no digit, quote or newline and decimal m and s, `exercise "<name>" for <m> minutes <s> seconds` parses to the name and (m, s) |
| VoiceExamples.ParseNameOnly | web-app/app.py:515-533 | for a non-empty name holding no digit, quote or newline, `exercise "<name>"` followed by text without digits parses to the name and no duration |
| VoiceExamples.ParseFullCommandExample | web-app/app.py:515-533 | `exercise "Push Up" for 2 minutes 30 seconds` parses to "Push Up" and (2, 30) |
| VoiceExamples.ParseNameOnlyExample | web-app/app.py:515-533 | `exercise "Squats"` parses to "Squats" with no duration |
| VoiceExamples.ParseUnquotedExample | web-app/app.py:515-533 | "do some exercise" does not parse |
| VoiceAdd.AddWithVoice | web-app/app.py:554-569 | the handler stops on an empty transcript, on a parse failure or on an empty search exactly when those happen, and then leaves the store unchanged |
| VoiceAdd.AddAndTime | web-app/app.py:572-591 | once the search has found something, none of the early stops can happen |
| VoiceAdd.SaveTime | web-app/app.py:579-591 | writing the time either succeeds or stops, and a stop leaves the store unchanged |
| VoiceAdd.MatchIsAddable | web-app/app.py:567-576 | the first fuzzy match is in the catalog, so `add_todo` finds its id |
| VoiceAdd.SaveTimeOnLast | web-app/app.py:579-591 | when the last item holds the latest id, a truthy id gives the last item, and only it, the working time; id 0 stops the handler |
| VoiceAdd.AddAndTimeAppends | web-app/app.py:572-591 | after a successful search the list gains exactly one item at the end, built from the exercise with the next id; it is timed unless the id is 0, which stops the handler; other users are untouched |
| VoiceAdd.VoiceAddNeverFailsAfterSearch | web-app/app.py:572-591 | the add never fails, the latest-id lookup never raises and the time write never misses |
| VoiceAdd.VoiceAddAppendsOneItem | web-app/app.py:543-597 | a handler that gets as far as the add appends exactly one item built from the first fuzzy match; it holds the spoken duration exactly when the handler succeeds and a duration was spoken, with nothing rolled back |
| VoiceAdd.VoiceAddTakesEarliestMatch | web-app/app.py:567-576 | the appended item carries the id of the earliest catalog exercise whose key contains the spoken name, normalised |
| VoiceAdd.VoiceAddMissingIffIdZero | web-app/app.py:579-582 | the handler stops at "failed to retrieve the latest item" exactly when a duration was spoken, an exercise was found and the new id is 0 |
| VoiceAdd.VoiceAddOnValidStore | web-app/app.py:543-597 | on a store with valid lists that stop never happens, and the handler leaves the store valid |
| VoiceAdd.AddAndTimeKeepsValid | web-app/app.py:572-591 | the add-and-time step keeps a valid store valid |
| VoiceAdd.VoiceAddOutcome | web-app/app.py:559-591 | for a parsed command whose search finds e first, the list gains e with the next id, timed when a duration was spoken and the id is truthy |
| VoiceAdd.WorkingTimeExamples | web-app/app.py:586 | 2 min 30 s is written "2:30", and 2 min 5 s is written "2:5" |
| VoiceAdd.VoiceAddPushUpExample | web-app/app.py:543-597 | a user with no list who says `exercise "Push Up" for 2 minutes 30 seconds` gets one item, id 1000, "Push-Up", working time "2:30" |
| VoiceAdd.VoiceAddIdZeroExample | web-app/app.py:579-582 | on a list whose only id is -1, the new item gets id 0; the handler stops without the time and keeps the item |

## Left out

- Flask routing, templates, sessions, `login_required` and the JSON
  responses and status codes: web glue. `VoiceStatus` names the stopping
  points of `add_with_voice`; their messages and codes are not modelled.
- The missing-audio check, the upload, the `ffmpeg` conversion and the call
  to the transcription service are I/O and network. The transcript is a
  parameter of `VoiceAdd.AddWithVoice`. A failed transcription call returns
  a non-empty error text, which then fails to parse.
- Registration, login and password hashing: a foreign crypto library.
- MongoDB itself. Writes are taken to succeed, so `modified_count`,
  `matched_count` and `inserted_id` are not modelled. `$push` onto a
  document always changes it.
- The read-then-write race in id allocation: concurrency is not modelled.
- The current user is a parameter; `current_user.id` is not modelled.
- `ObjectId(...)` parsing and `int(...)` coercion of ids: ids arrive
  already typed.
- `datetime.utcnow()`: a history entry's time is an integer supplied by the
  caller.
- Catalog.SearchFuzzy: the `$regexMatch` reads the normalised query as a
  regular expression; the model reads it literally, as substring
  containment. The two agree for queries without regex metacharacters.
- Text.Lower: lower-cases ASCII letters only. Python's `str.lower` also
  folds other scripts, and the exact search then compares with
  `$toLower`, which is ASCII-only.
- Voice.ParseVoiceCommand: `\d` and IGNORECASE are read as ASCII digits
  and ASCII letters. Python also accepts other Unicode decimal digits and a
  few case-folding pairs that reach the patterns' words: the long s `ſ`
  (U+017F) for `s`, and the dotless `ı` (U+0131) and dotted `İ` (U+0130)
  for `i`, in `exercise`, `minute` and `second`.
- History.SortByTimeDesc: entries with equal times come out in an order
  chosen by an insertion sort, not MongoDB's unspecified order. Only the
  newest-first order and the permutation are promised.
- Catalog.GetInstruction: an exercise is taken always to have a
  `workout_name`, so the `"Unknown Workout"` default is not modelled.
- `get_exercise`, the other route handlers and the machine-learning client
  are outside these helpers.
