# todomato command core in Dafny

A model of the part of the todomato task manager that turns command arguments
into changes to the task list. Four commands are covered:

- **add**: a keyword tokenizer. It scans the argument for the earliest of
  seven keywords (`" at "`, `" from "`, `" until "`, `" to "`, `" in "`,
  `" due "`, `" on "`) and splits there. The text after the keyword fills the
  slot the keyword names (start time, end time, location or date). This
  repeats on the rest of the text. Whatever comes before the first keyword is
  the description.
- **update**: `<index> <keyword> <value> ...`. Five keywords (`" starttime "`,
  `" endtime "`, `" desc "`, `" date "`, `" location "`) are located, and the
  values after them are sliced at fixed offsets. A description or location ends
  at a backslash. The edits are applied to task `index - 1` in a fixed order.
- **delete**: one index, several indices (parsed, sorted, reversed, then
  deleted from the largest down), or `all`.
- **undo**: pops the top snapshot of the history stack back into the live
  list.

Modules:

- `Wrappers`: `Option` and `Result`.
- `JavaText`: the Java library behaviour the processors depend on, written out.
  - `String.indexOf`, `lastIndexOf` and `contains`.
  - `Pattern.split` on a literal, with limit 0, so trailing empty strings are
    dropped.
  - `Integer.parseInt` and `Integer.toString`.
  - `int` division and remainder, which truncate toward zero.
  - the 32-bit `index - 1`.
- `Tasks`: the shared state and the types every processor uses.
  - The `Task` value.
  - The exceptions, as a `Failure` datatype.
  - The code the processors call but that is not modelled (time and date
    parsers, constructors, renderings), as function-valued fields of
    `Collaborators`. The parsers and the constructors may fail, and the
    parsers may return `null` (an `Option`). The renderings `render` and
    `renderList` cannot fail. The time parser and
    `convertStringToDateTime` can only fail with an exception that is not an
    `InvalidInputException` (type `Unchecked`), because `retrieveStartTime`,
    `retrieveEndTime` and `setUserTask` declare no exception. Such a failure
    escapes `processAdd`, which declares `NumberFormatException`.
  - The static state of the `Processor` base class, as a class `Processor`
    with three fields: `list` (the live list), `oldLists` (the history stack,
    top last) and `saved` (every list handed to `FileHandler.updateFile`).
- `AddProcessor`, `UpdateProcessor`, `DeleteProcessor`, `UndoProcessor`: one
  module per source file.
  - Static Java methods that change the shared state become methods taking the
    `Processor` with `modifies p`.
  - Loops stay loops. The arrays that a processor writes cell by cell stay
    arrays: `taskDetails` in add, `edit` in `findDetailToEdit`, and the index
    array that delete reverses. Arrays that are only built once and then read
    are sequences (see "## Left out").
  - Each method is proved against a function of the state before the call.
    The properties are then proved about that function.

Behaviour of the code worth noting, which the model follows:

- `processAdd` pushes no snapshot (AddProcessor.java:64-74). An undo after an
  add therefore pops the snapshot of the previous delete or update.
- `processUpdate` never calls `updateFile` (UpdateProcessor.java:28-57).
- When an update fails part-way, the edits made before the failure stay in
  the list, and the snapshot stays pushed (`ApplyEditsFailure`).
- Update recognises only the five keywords above. It has no `startdate`,
  `enddate`, `recur`, `priority`, `complete`, `!` or `@`.
- Add does not check the description: the description may be empty (input
  `" at 5pm"`). The only `InvalidInputException` it converts into
  `"Invalid input format"` comes from `parseDateString`. A keyword with nothing
  after it makes `stringFragments[1]` throw, and that exception is not caught.
- Indices are removed one after another from the shrinking list, so a
  repeated index is not skipped: "delete 2,2" removes tasks 2 and 3
  (`RepeatedIndexShifts`).
- When several indices are deleted and one is below 1, the larger indices are
  removed first. The out-of-bound message is then returned with those removals
  kept and not saved (`ZeroIndexFailsAfterRemoval`).
- The messages the integration test expects ("Added ...", "Last action
  undone") come from the command dispatcher, which is not part of this model.

## Model

| member | source | states |
|---|---|---|
| JavaText.IndexOf | src/todomato/UpdateProcessor.java:161 | the result is the leftmost position where t occurs, or -1 exactly when t occurs nowhere |
| JavaText.FirstOccurrenceIsIndexOf | src/todomato/AddProcessor.java:179 | any position that is a first occurrence of t is the one indexOf returns |
| JavaText.LastIndexOf | src/todomato/UpdateProcessor.java:107 | the result is an occurrence with no occurrence after it, or -1 when there is none |
| JavaText.Split | src/todomato/AddProcessor.java:226-232 | without the separator the input comes back whole; otherwise the first fragment is the text before the first separator, and a second fragment is shorter than the input |
| JavaText.ContainsOccurs | src/todomato/AddProcessor.java:191 | contains is true exactly when t occurs at some position |
| JavaText.SplitSecond | src/todomato/AddProcessor.java:45 | the second element of split is the text after the first separator, up to the next separator if there is one |
| JavaText.JoinFields | src/todomato/AddProcessor.java:228-229 | putting the separator back between the fields gives back the input |
| JavaText.FieldsAreFree | src/todomato/AddProcessor.java:228-229 | no field contains the separator |
| JavaText.SplitHasSecond | src/todomato/AddProcessor.java:45 | split has a second element exactly when some field after the first separator is non-empty |
| JavaText.ParseInt | src/todomato/UpdateProcessor.java:162 | succeeds exactly on an optional '+' or '-' followed by decimal digits whose value is within int range, and then gives that value, negated after '-'; it fails on the empty string, a bare sign, any non-digit other than a leading sign, and a value outside the int range |
| JavaText.NatToString | src/todomato/DeleteProcessor.java:76 | the canonical digits of n: their decimal value is n, and there is no leading zero except in "0" itself |
| JavaText.ParseNatToString | src/todomato/DeleteProcessor.java:80 | parseInt reads Integer.toString(n) back as n |
| JavaText.ToZeroBased | src/todomato/UpdateProcessor.java:33 | index - 1 in 32-bit arithmetic: one less, except that MIN_VALUE wraps to MAX_VALUE |
| JavaText.JavaDiv | src/todomato/UpdateProcessor.java:73 | the quotient is rounded toward zero |
| JavaText.JavaRem | src/todomato/UpdateProcessor.java:74 | quotient times divisor plus remainder is the dividend, and the remainder has the dividend's sign |
| Tasks.Processor.StoreCurrentList | src/todomato/UpdateProcessor.java:30 | pushes the current list onto the history and changes nothing else |
| Tasks.Processor.UpdateFile | src/todomato/AddProcessor.java:72 | records the current list as saved and changes nothing else |
| AddProcessor.EarliestAmong | src/todomato/AddProcessor.java:204-217 | among the first n keywords: -1 exactly when none occurs, otherwise one that occurs and precedes every other occurring one (earliest position, and the earlier-declared keyword on a tie) |
| AddProcessor.FirstKeyword | src/todomato/AddProcessor.java:204-217 | -1 exactly when no keyword occurs; otherwise the earliest keyword, with ties going to the one declared first |
| AddProcessor.FirstKeywordUnique | src/todomato/AddProcessor.java:204-217 | any keyword meeting that description is the one picked, so the tie-break fully decides the result |
| AddProcessor.KeywordIsInString | src/todomato/AddProcessor.java:189-196 | true exactly when some keyword occurs in the input |
| AddProcessor.GetFirstKeyword | src/todomato/AddProcessor.java:204-217 | the loop returns the earliest keyword, with ties going to the first declared; it returns -1 exactly when none occurs |
| AddProcessor.SplitByKeyword | src/todomato/AddProcessor.java:226-232 | the first fragment is the text before the keyword, and the second is strictly shorter than the input (so the parse loop terminates) |
| AddProcessor.WordsBeforeNextKeyword | src/todomato/AddProcessor.java:177-181 | a prefix of the input that the keyword immediately follows and that does not contain the keyword |
| AddProcessor.BeforeFirstKeywordIsFree | src/todomato/AddProcessor.java:177-181 | the text before the earliest keyword contains no keyword at all |
| AddProcessor.RetrieveLocation | src/todomato/AddProcessor.java:151-160 | a keyword-free prefix of the text: all of it when no keyword follows, otherwise the part up to the earliest keyword |
| AddProcessor.FirstWord | src/todomato/AddProcessor.java:105-108 | the prefix up to the first space, or the whole text when there is no space |
| AddProcessor.RetrieveTime | src/todomato/AddProcessor.java:139-149 | given the index of the first space (or the length when there is none), it is the time parser applied to the first word |
| AddProcessor.SlotOf | src/todomato/AddProcessor.java:109-127 | each keyword fills one of the start time, end time, date or location slots |
| AddProcessor.Handle | src/todomato/AddProcessor.java:103-165 | fails exactly when the keyword is " on " and parseDateString throws (its exception, passed on as is), or the keyword fills a time slot and the time parser throws on the first word (its exception, never an InvalidInputException); otherwise it fills its own slot and leaves every other slot unchanged; the date slot gets what parseDateString returns, possibly null, a time slot what the time parser returns for the first word, and the location slot RetrieveLocation |
| AddProcessor.KeywordHandler | src/todomato/AddProcessor.java:103-130 | the array afterwards holds Handle's slots, or is unchanged when the date or time parser throws, and the exception is Handle's |
| AddProcessor.ParseFrom | src/todomato/AddProcessor.java:38-47 | the description is set only once: from the text before the first keyword, and never again afterwards |
| AddProcessor.ParseSlots | src/todomato/AddProcessor.java:27-47 | a successful parse always has a description |
| AddProcessor.SetUserTask | src/todomato/AddProcessor.java:83-93 | succeeds exactly when the three conversions succeed, and then the task holds the description, the converted start time, end time and date, and the location; otherwise it fails with the exception of the first conversion that fails (start, end, date), never an InvalidInputException |
| AddProcessor.ParseRound | src/todomato/AddProcessor.java:38-47 | one round of the loop either throws what the recursive definition throws, or leaves a strictly shorter rest from which the definition carries on with the slots as the round left them |
| AddProcessor.Parsed | src/todomato/AddProcessor.java:27-52 | a parsed task's description is a keyword-free prefix of the input, and all of the input when no keyword occurs |
| AddProcessor.ParseTask | src/todomato/AddProcessor.java:27-52 | the loop computes the same task (or exception) as the recursive definition Parsed |
| AddProcessor.ProcessAdd | src/todomato/AddProcessor.java:64-74 | on success the task is appended, the list saved, and the task's rendering returned; an InvalidInputException gives "Invalid input format" and any other exception, including one that parseDateString throws unchecked, escapes, in both cases with the list unchanged; no snapshot is pushed |
| AddProcessor.NoKeywordWholeDescription | src/todomato/AddProcessor.java:34-36 | with no keyword, the whole input is the description and every other slot is null; the task is built exactly when converting null does not throw |
| AddProcessor.DescriptionBeforeFirstKeyword | src/todomato/AddProcessor.java:41-44 | the description is the text before the earliest keyword, and it contains no keyword |
| AddProcessor.OneClauseTask | src/todomato/AddProcessor.java:27-52 | for d + keyword + t, where that keyword occurs only there and no other keyword occurs, the task is what setUserTask builds from the slots keywordHandler fills from t, with d as the description, or keywordHandler's exception |
| AddProcessor.StartTimeOfAt | src/todomato/AddProcessor.java:38-47 | "d at t" with no other keyword: the description is d and the start time is the converted value the time parser reads from t's first word |
| AddProcessor.ParseFailures | src/todomato/AddProcessor.java:38-47 | the loop fails only with an index exception, or with an exception that parseDateString or the time parser throws on some input; an InvalidInputException can only come from parseDateString |
| AddProcessor.ParsedFailures | src/todomato/AddProcessor.java:27-52 | parseTask fails only in those ways or with an exception convertStringToDateTime throws; an InvalidInputException can only come from parseDateString, so only its failures become "Invalid input format" in processAdd |
| UpdateProcessor.OffsetsAreKeywordLengths | src/todomato/UpdateProcessor.java:11-18 | each hard-coded offset equals its keyword's length, so every value is sliced right after its keyword |
| UpdateProcessor.GetTaskIndex | src/todomato/UpdateProcessor.java:159-163 | fails with an index exception exactly when there is no space; otherwise it succeeds exactly when parseInt reads the text before the first space, and gives that number, and fails with a number-format exception when it does not |
| UpdateProcessor.TaskIndexOfNumeral | src/todomato/UpdateProcessor.java:159-163 | a decimal index followed by a space is read back as that index |
| UpdateProcessor.EditPositions | src/todomato/UpdateProcessor.java:144-152 | each entry is the first occurrence of its keyword, or -1 |
| UpdateProcessor.FindDetailToEdit | src/todomato/UpdateProcessor.java:144-152 | the array loop yields EditPositions |
| UpdateProcessor.TimeValue | src/todomato/UpdateProcessor.java:67-87 | succeeds exactly when four characters after the keyword exist and parse; then hour * 100 + minute is the parsed number n, and the minute lies strictly between -100 and 100 and carries n's sign (Java's truncating division); it fails with an index exception exactly when the four characters are missing, otherwise with a number-format exception |
| UpdateProcessor.TimeOfFourDigits | src/todomato/UpdateProcessor.java:69-74 | four digits HHMM give hour HH and minute MM |
| UpdateProcessor.StopIndex | src/todomato/UpdateProcessor.java:124-133 | the end of the argument exactly when there is no backslash; otherwise it stops at a backslash: the first one when it is not before the keyword, else the last one |
| UpdateProcessor.FreeText | src/todomato/UpdateProcessor.java:102-137 | succeeds exactly when the keyword ends at or before the stop index, and then gives the text between them |
| UpdateProcessor.DateValue | src/todomato/UpdateProcessor.java:89-100 | succeeds exactly when five characters follow " date ", split on "/" into at least two parts, and the first two parse; it sets a date exactly when there are two parts, the day and month being the two parsed numbers, and three parts change nothing; otherwise it fails with an index or number-format exception |
| UpdateProcessor.SplitDayMonth | src/todomato/UpdateProcessor.java:93 | splitting "DD/MM" (digits, non-empty month) on "/" gives exactly the day and the month |
| UpdateProcessor.DateOfDayMonth | src/todomato/UpdateProcessor.java:91-97 | "DD/MM" in digits gives day DD and month MM |
| UpdateProcessor.ApplyEdit | src/todomato/UpdateProcessor.java:35-54 | a successful edit needs an index in range and changes no other task |
| UpdateProcessor.ApplyEdits | src/todomato/UpdateProcessor.java:35-55 | the list keeps its length, every other task is unchanged, and with no keyword present nothing changes |
| UpdateProcessor.ApplyEditsFailure | src/todomato/UpdateProcessor.java:35-55 | when the edits stop with an exception, some edit k whose keyword occurs threw it on the list as the earlier edits left it; the fields edited before k (in the order start time, end time, description, date, location) hold their new values and the fields from k on are unchanged; with the index out of range the list is unchanged |
| UpdateProcessor.Update | src/todomato/UpdateProcessor.java:28-57 | the list keeps its length; an unreadable index fails with the list unchanged; every task other than the target is unchanged; a success returns the target task as it ends up in the list |
| UpdateProcessor.ProcessUpdate | src/todomato/UpdateProcessor.java:28-57 | pushes the old list first and never saves; the list and result equal Update on the old list |
| UpdateProcessor.ApplyEditsFields | src/todomato/UpdateProcessor.java:35-55 | after edits with no exception, each field whose keyword occurs holds the value sliced after it, and each other field is unchanged |
| UpdateProcessor.UpdatedTask | src/todomato/UpdateProcessor.java:28-57 | a successful update returns the task at index n - 1, with exactly the fields named in the argument replaced |
| UpdateProcessor.UpdateTouchesOnlyTarget | src/todomato/UpdateProcessor.java:28-57 | whatever happens, every task other than the target is unchanged |
| UpdateProcessor.DescriptionAndLocationExample | src/tests/IntegrationTest.java:45-46 | "4 desc Dinner with Parents\ location home\" sets description "Dinner with Parents" and location "home" |
| DeleteProcessor.RemoveAt | src/todomato/DeleteProcessor.java:82 | removes exactly position i: the same as keeping every other position in order |
| DeleteProcessor.RemoveThenWithout | src/todomato/DeleteProcessor.java:93-95 | removing position m and then only lower positions is the same as removing all of them at once |
| DeleteProcessor.Sort | src/todomato/DeleteProcessor.java:91 | a permutation of the indices |
| DeleteProcessor.SortAscending | src/todomato/DeleteProcessor.java:91 | the sorted indices are ascending, and strictly so when the indices are distinct |
| DeleteProcessor.Reverse | src/todomato/DeleteProcessor.java:99-106 | in place, cell i ends up holding the old cell length-1-i |
| DeleteProcessor.Reversed | src/todomato/DeleteProcessor.java:99-106 | the same length, with position i holding the input's position length-1-i |
| DeleteProcessor.ReverseTwice | src/todomato/DeleteProcessor.java:99-106 | reversing twice is the identity |
| DeleteProcessor.ReversedIsPermutation | src/todomato/DeleteProcessor.java:99-106 | reversing is a permutation |
| DeleteProcessor.SortedReversedDescending | src/todomato/DeleteProcessor.java:91-92 | sort then reverse gives descending order, strictly descending for distinct indices |
| DeleteProcessor.DeletionOrder | src/todomato/DeleteProcessor.java:91-92 | the deletion order is a descending permutation of the parsed indices |
| DeleteProcessor.ParseAll | src/todomato/DeleteProcessor.java:88-90 | fails exactly when some token does not parse; otherwise gives each token's value, all within int range |
| DeleteProcessor.DeleteEach | src/todomato/DeleteProcessor.java:93-95 | the only failure is an index exception; without it, one task is gone per index |
| DeleteProcessor.DescendingDeletes | src/todomato/DeleteProcessor.java:93-95 | distinct in-range indices in descending order remove exactly the positions they name, and the survivors keep their order |
| DeleteProcessor.DeleteMultipleSpec | src/todomato/DeleteProcessor.java:86-97 | fails only with a number-format or index exception; number-format exactly when some token does not parse, and then before any removal; never grows the list; a success removes one task per token and reports the token count |
| DeleteProcessor.DeleteSingleSpec | src/todomato/DeleteProcessor.java:79-84 | a failure leaves the list unchanged; number-format exactly when the token does not parse, otherwise an index exception; it succeeds exactly when the parsed index names a task, and then removes exactly that task and returns its rendering |
| DeleteProcessor.Delete | src/todomato/DeleteProcessor.java:49-60 | fails only with a number-format or index exception; never grows the list; "all" alone empties it; every success message starts with "Deleted: " |
| DeleteProcessor.Status | src/todomato/DeleteProcessor.java:61-67 | a success passes the message through; a number-format exception gives the number-format message and an index exception the out-of-bound one |
| DeleteProcessor.DeleteAll | src/todomato/DeleteProcessor.java:70-77 | the list ends up empty, and the count is its size before the call |
| DeleteProcessor.DeleteSingleTask | src/todomato/DeleteProcessor.java:79-84 | equals DeleteSingleSpec: parse, look up, remove, and render the removed task |
| DeleteProcessor.DeleteMultiple | src/todomato/DeleteProcessor.java:86-97 | parses every index before any removal, then sorts, reverses in place and deletes; equals DeleteMultipleSpec |
| DeleteProcessor.DeleteInOrder | src/todomato/DeleteProcessor.java:93-95 | the deletion loop computes DeleteEach on the array's order |
| DeleteProcessor.ProcessDelete | src/todomato/DeleteProcessor.java:40-68 | an empty list throws "empty list" with nothing changed; otherwise the snapshot is pushed, the list becomes Delete's result, and it is saved only on success; failures give the two fixed messages |
| DeleteProcessor.DeleteAllEmpties | src/todomato/DeleteProcessor.java:53-54 | "all" empties the list and reports the old size |
| DeleteProcessor.DeleteSingleRemoves | src/todomato/DeleteProcessor.java:79-84 | any token parseInt reads as an index k in range ("3", "03", "+3") removes exactly the k-th task and reports "Deleted: " and its rendering |
| DeleteProcessor.DeleteMultipleRemovesExactly | src/todomato/DeleteProcessor.java:86-97 | distinct in-range indices remove exactly those tasks, with the count of tokens as the message |
| DeleteProcessor.TooLargeFailsFirst | src/todomato/DeleteProcessor.java:91-95 | an index past the end fails before any removal, so the list is unchanged |
| DeleteProcessor.NonNumericChangesNothing | src/todomato/DeleteProcessor.java:61-63 | a non-numeric token leaves the list unchanged and gives the number-format message |
| DeleteProcessor.RepeatedIndexShifts | src/todomato/DeleteProcessor.java:93-96 | "2,2" removes task 2 and then task 3, which moved into its place, and reports two deletions |
| DeleteProcessor.ZeroIndexFailsAfterRemoval | src/todomato/DeleteProcessor.java:93-95 | "2,0" removes task 2 and then fails, keeping that removal |
| UndoProcessor.Undo | src/todomato/UndoProcessor.java:11-19 | with history, the popped snapshot plus the remaining stack is the old stack; without history, nothing changes |
| UndoProcessor.UndoWalksBack | src/todomato/UndoProcessor.java:11-19 | n undos leave the n-th snapshot from the top live and drop the n newest snapshots; further undos change nothing |
| UndoProcessor.UndoIdle | src/todomato/UndoProcessor.java:16-18 | with an empty history, any number of undos changes nothing |
| UndoProcessor.UndoAfterStore | src/todomato/UndoProcessor.java:13 | undoing right after a snapshot push restores the list and the history |
| UndoProcessor.ProcessUndo | src/todomato/UndoProcessor.java:11-19 | pops the top snapshot into the list, saves it and returns its rendering; with no history it returns "No changes to undo" and saves nothing |
| UndoProcessor.DeleteThenUndo | src/todomato/DeleteProcessor.java:45 | on a non-empty list, a delete (successful or not) followed by an undo restores the list and the history |
| UndoProcessor.UpdateThenUndo | src/todomato/UpdateProcessor.java:30 | an update followed by an undo restores the list and the history |

## Left out

- File persistence (`FileHandler`): each call to `updateFile` is recorded in
  the `saved` log. Writing the file, and failing to write it, are not modelled.
- The inherited parsers `parseTimeStringFromInput`, `parseDateString` and
  `convertStringToDateTime` are given functions. So are the `Time` and `Date`
  constructors, `Task.toString` and `TaskList.toString`. Time and date values
  are an abstract type `Moment`. The parsers may fail with any exception or
  return `null`, and the constructors may fail with any exception, which the
  callers pass through; but which inputs make them fail is not modelled: their
  source is not part of this model.
- AddProcessor.Handle / AddProcessor.ParseFailures: `parseTimeStringFromInput`
  and `convertStringToDateTime` are assumed never to throw an
  `InvalidInputException`, since their callers declare none. Any other
  exception they throw is modelled and escapes `processAdd`.
- The delete argument's regular expression `\s*(,| )\s*`: `ProcessDelete`
  receives the tokens that the split produces.
- `Arrays.sort` is library code. It is modelled as a sorting function whose
  result is written back into the array; the library's in-place algorithm is
  not modelled.
- The index array of `processUpdate` (`whichToEdit`) and the array of index
  strings in `deleteMultiple` (`strIndices`) are sequences. Each is built once
  and only read, so the model does not capture any aliasing of them.
- The source of the `Processor` base class, and so of `storeCurrentList` and
  of the static `list`, `oldLists` and `fileHandler`, is not part of this
  model. They are modelled from their uses: the class `Tasks.Processor` holds
  the shared state, `StoreCurrentList` pushes the live list, and `UpdateFile`
  logs it. A snapshot is assumed to be a deep copy. Tasks are values here, so
  an update cannot reach into a snapshot through a shared task object.
- `TaskList` is not part of this model. Its `getListItem` and
  `deleteListItem` are taken to be those of a list: they throw
  `IndexOutOfBoundsException` outside `[0, size)`, `deleteListItem` shifts the
  later tasks down, and the list is modelled as a sequence.
- The `Task` and `TaskDT` classes are not part of this model. Their setters
  are taken to be plain field updates, and fields that neither processor reads
  or writes are omitted.
- UpdateProcessor.ApplyEditsFields: "every other field keeps its value"
  holds only for plain setters. If `setStartTime` or `setEndTime` moves the
  other time bound to keep start before end (and `setDate` likewise), an update
  such as "1 starttime 1500" on a task ending at 1400 also changes the end
  time, which this model does not capture.
- UpdateProcessor.UpdatedTask: states "exactly the named fields are replaced"
  under the same plain-setter assumption, so it misses any bound that a setter
  corrects.
- AddProcessor.SetUserTask: sets the start time, end time and date without
  any correction between them, under the same assumption.
- JavaText.ParseInt: accepts only ASCII digits `0`-`9`. `Integer.parseInt`
  also accepts every other Unicode decimal digit (so "delete ٢" deletes task 2
  in Java but gives the number-format message here).
- Strings are sequences of Unicode scalar values, while Java indexes strings
  by UTF-16 code units. For text holding characters outside the Basic
  Multilingual Plane, positions, lengths and substrings differ: in
  "1 starttime 1😀3" the four characters after the keyword exist in Java
  (`parseInt` then throws `NumberFormatException`) but not here
  (UpdateProcessor.TimeValue gives an index failure).
- `Popup`, the command dispatcher and the integration test driver are not
  modelled.
- Counters and list sizes are unbounded: `deleteAll` does not model its count
  overflowing past 2^31 - 1.
- `StringIndexOutOfBoundsException`, `ArrayIndexOutOfBoundsException` and
  `IndexOutOfBoundsException` are one failure, because `processDelete` catches
  them all as the last of these.
- DeleteProcessor.Without: states only that the result is no longer than the
  list. Its meaning is given by `RemoveAt` and `DescendingDeletes`.
