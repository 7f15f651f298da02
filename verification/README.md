# Desktop utilities: calculator engine, password generator, todo list

This project models the pure logic of three small desktop applications in
Dafny and proves properties of that model. The windows, widgets, animation and
files are not modelled.

- **Calculator** (`task2/calculator.py`). `CalcEngine` has five operations,
  each a pure transition on an immutable `Engine` value:
  - `input` appends a key, or continues from or restarts after `=`;
  - `backspace` drops the last character;
  - `clear` empties the buffer;
  - `toggle_sign` negates the trailing number the regular expression `(-?\d+\.?\d*)$` finds;
  - `evaluate` strips, rewrites the glyphs `×`, `÷` and `%`, applies the character whitelist, evaluates, formats, and records at most five history entries.

  Beside the engine sit the window's live preview line and its keyboard map.
  The host language's expression evaluator and its `%.10g` formatter are not
  modelled. They are the two fields of a `Host` value that every evaluation
  takes as a parameter. The error that `evaluate` raises becomes a `Result`
  failure (`ZeroDivision` or `Invalid`), and `evaluate` itself leaves the
  engine unchanged on that path. The window's `=` handler then shows the
  message and clears the engine, so the buffer and the last result are
  emptied and the history is kept (`CalcDisplay.PressEquals`).
- **Password generator** (`task3/PasswordGenerator.py`). The model covers:
  - the character set built from the option switches;
  - the password drawn from it, with the random source as a function `pick` from position to index;
  - the strength level read off the entropy;
  - the five-entry, duplicate-free history, its delete button and its newest-first display;
  - the copy button's guard.
- **Todo list** (`task1/todo.py`). The window's state is the task list, the
  filter, the id being edited, the entry text and the priority menu. Each
  button is a function on that state: add/save, start edit, cancel edit,
  toggle, delete (the confirmation dialog's answer is a parameter) and set
  filter. The model also covers the filtered list and the counters.

Modules:
- `Wrappers`: `Option`, `Result`, `Min`.
- `PyStr`: Python's `str.isspace`, `strip`, `str(int)` and `replace`.
- `Seqs`: subsequences and duplicate-free lists.
- `CalcEngine`, `CalcProperties` and `CalcDisplay`: the calculator.
- `PasswordGen` and `PasswordHistory`: the password generator.
- `Todo`: the todo list.

### Behaviour of the calculator code worth knowing

- `evaluate` rewrites `%` to `/100` and hands the text to the host's `eval` behind a
  character whitelist. So `××` becomes the power operator and `÷÷` becomes
  floor division (`CalcProperties.DoubledTimesIsPower` and
  `CalcProperties.DoubledDivideIsFloorDivision`).
- The whitelist also lets through texts whose value is neither a number nor
  an error: `...` evaluates to `Ellipsis`, `()` to the empty tuple, and
  `(-1)**.5` to a complex number. Each is shown and committed as its `str`
  text (`CalcEngine.Value`'s `Other` case).
- `str` of an int with more than 4300 digits raises, so a result such as
  `9**9999` is refused as invalid input (`CalcProperties.LongIntResultRefused`).
- Re-evaluating a result is not idempotent. An exponent result such as
  `1e+15` is refused the next time (`CalcProperties.ExponentResultNotReevaluable`).
- The sign toggle is not an involution (`CalcProperties.ToggleNotInvolution`).

## Model

| member | source | states |
|---|---|---|
| CalcEngine.Init | task2/calculator.py:61-66 | A new engine has an empty buffer, no last result, an empty history and is not in the just-evaluated state |
| CalcEngine.Input | task2/calculator.py:69-78 | After `=`, a single operator key gives last result + key, and any other single key replaces the buffer. Otherwise the key is appended. The history and last result are kept and the flag is cleared |
| CalcEngine.SingleCharSubstring | task2/calculator.py:71 | Python's `key in "+-×÷%"` is a substring test; for a one-character key it is exactly membership |
| CalcEngine.Backspace | task2/calculator.py:80-82 | The result buffer plus the dropped last character is the old buffer; an empty buffer stays empty; the flag is cleared |
| CalcEngine.Clear | task2/calculator.py:84-87 | The buffer and last result become empty and the flag is cleared, while the history survives |
| CalcEngine.SearchFrom | task2/calculator.py:94 | The leftmost-first search returns a start whose suffix matches `-?\d+\.?\d*`. No earlier start matches, and None means no start matches |
| CalcEngine.TrailingNumber | task2/calculator.py:94 | The match start of the `$`-anchored search. `$` may also sit before one final newline |
| CalcEngine.MatchArea | task2/calculator.py:94 | The text a `$`-anchored match may end in is the buffer less its last character exactly when that character is a newline, and the whole buffer otherwise |
| CalcEngine.ToggleText | task2/calculator.py:89-101 | With no trailing number the buffer is unchanged. Otherwise the prefix is kept, an unsigned number gains `-` and a signed one loses it |
| CalcEngine.ToggleSign | task2/calculator.py:89-101 | Only the buffer changes, to the toggled text; the flag is cleared |
| CalcEngine.FormatResult | task2/calculator.py:120-127 | An int is `str(i)`, or invalid when it has more than 4300 digits. An integral float below 1e15 is `str(int(x))`, which parses back to the same number. Any other finite float is its `%.10g` text. An object of any other type is its `str` text. `int()` of an infinity or NaN fails |
| CalcEngine.PushHistory | task2/calculator.py:130-131 | The new entry goes first, the old entries follow in order, and the length is capped at five |
| CalcEngine.Compute | task2/calculator.py:112-127 | Text outside the whitelist after the glyph rewrite fails as invalid. An evaluator error is passed on. When the evaluator returns a value, the result is exactly that value's formatting, so an infinite or NaN float fails as invalid rather than as division by zero |
| CalcEngine.Commit | task2/calculator.py:130-135 | The buffer and last result become the result, the flag is set, and the history gains the entry at the front, capped at five |
| CalcEngine.Evaluate | task2/calculator.py:104-136 | A blank stripped buffer returns ("", "") and changes nothing. A failure changes nothing. A success commits the stripped text and its result |
| CalcProperties.NumberShape | task2/calculator.py:94 | A matched number starts with a digit or `-` and continues only with digits and points |
| CalcProperties.DigitsAndPointShape | task2/calculator.py:94 | The `\d+\.?\d*` tail holds only digits and points |
| CalcProperties.TrailingNumberIs | task2/calculator.py:94 | A matching start with no matching start before it is the search's answer |
| CalcProperties.ToggleUnsignedAt | task2/calculator.py:97-101 | On an unsigned trailing number, the toggle inserts `-` before it |
| CalcProperties.ToggleSignedAt | task2/calculator.py:97-101 | On a signed trailing number, the toggle removes its `-` |
| CalcProperties.SignedRest | task2/calculator.py:94 | A signed match is `-` followed by an unsigned match |
| CalcProperties.SignedTail | task2/calculator.py:94 | In `a` + `-u`, the leftmost match is the `-u` |
| CalcProperties.UnsignedTail | task2/calculator.py:94 | In `a` + `u`, where `a` does not end in a digit, a point or `-`, the leftmost match is `u` |
| CalcProperties.PrefixCharBlocks | task2/calculator.py:94 | A character other than a digit, a point or `-` blocks every match that starts before it |
| CalcProperties.NumberShapeAt | task2/calculator.py:94 | A non-digit, non-point after the first character means no match |
| CalcProperties.ToggleTwiceRestoresUnsigned | task2/calculator.py:89-101 | Toggling twice restores a buffer whose trailing number was unsigned |
| CalcProperties.ToggleTwiceRestoresSigned | task2/calculator.py:89-101 | Toggling twice restores a buffer whose trailing number starts with `-`, when that sign is not preceded by a digit, a point or `-` |
| CalcProperties.ToggleSignedAfter | task2/calculator.py:89-101 | On any text ending in `-` and an unsigned number, the match starts at that sign and the toggle removes it |
| CalcProperties.ToggleUnsignedAfter | task2/calculator.py:89-101 | On any text ending in an unsigned number, with no digit, point or `-` before it, the match starts at the number and the toggle signs it |
| CalcProperties.ToggleNotInvolution | task2/calculator.py:89-101 | On `3-12` the first toggle gives `312` and the second gives `-312`, so the toggle is not an involution |
| CalcProperties.ToggleDropsFinalNewline | task2/calculator.py:94-101 | `$` matches before a final newline, and the rewrite then loses that newline: `12\n` becomes `-12` |
| CalcProperties.NormalizeAppend | task2/calculator.py:112 | The glyph rewrite distributes over concatenation |
| CalcProperties.NormalizeIsReplaceChain | task2/calculator.py:112 | The one-pass rewrite equals the source's chain of three `replace` calls |
| CalcProperties.DoubledTimesIsPower | task2/calculator.py:112 | `6××2` is rewritten to the power expression `6**2` |
| CalcProperties.DoubledDivideIsFloorDivision | task2/calculator.py:112 | `8÷÷3` is rewritten to the floor division `8//3` |
| CalcProperties.PercentIsHundredth | task2/calculator.py:112 | `50%` is rewritten to `50/100` |
| CalcProperties.AllSafeAppend | task2/calculator.py:115 | The whitelist class holds for a concatenation exactly when it holds for both parts |
| CalcProperties.NormalizeAllSafe | task2/calculator.py:112-116 | After the rewrite, every character is in the whitelist class exactly when every original character is a whitelist character or a glyph |
| CalcProperties.WhitelistAfterNormalize | task2/calculator.py:112-116 | The whitelist accepts the rewritten text exactly when the original is non-empty and made of whitelist characters and glyphs |
| CalcProperties.ForeignCharacterRejected | task2/calculator.py:104-116 | One foreign character in the stripped buffer makes evaluation fail as invalid, with the engine unchanged |
| CalcProperties.StepPreservesValid | task2/calculator.py:69-135 | Every operation keeps the history at most five. It also keeps this invariant: when just evaluated, the buffer is the last result, which heads the history |
| CalcProperties.RunPreservesValid | task2/calculator.py:64 | Over any keystroke sequence the invariant holds and the history never exceeds five entries |
| CalcProperties.InitValid | task2/calculator.py:61-66 | The new engine satisfies the invariant |
| CalcProperties.ContinuationAfterEquals | task2/calculator.py:69-76 | Right after a successful `=`, an operator key gives result + operator, and a digit starts over |
| CalcProperties.EmptyKeyAfterEquals | task2/calculator.py:71-72 | An empty key after `=` takes the operator branch, since the empty string occurs in every string |
| CalcProperties.BackspaceUndoesInput | task2/calculator.py:69-82 | Outside the just-evaluated state, backspace after typing a character gives the engine back unchanged |
| CalcProperties.FullHistoryEvictsOldest | task2/calculator.py:130-131 | With a full history, a success puts the new entry first and drops exactly the oldest one |
| CalcProperties.EvaluateCommits | task2/calculator.py:104-136 | Converse of `Evaluate`: a non-blank stripped buffer that computes is committed with that result |
| CalcProperties.EvaluateSucceeded | task2/calculator.py:104-136 | A successful evaluation of a non-blank buffer committed the stripped text and the result computed from it |
| CalcProperties.ComputeSucceeds | task2/calculator.py:112-127 | Converse of `Compute`: whitelisted text whose value formats has that text as its result |
| CalcProperties.ReevaluateIntegerResult | task2/calculator.py:104-135 | Evaluating the text of an integer again commits that same text as both expression and result; an integer beyond the digit limit is refused and nothing changes |
| CalcProperties.LongIntResultRefused | task2/calculator.py:118-127 | An int result with more than 4300 digits makes evaluation raise: the outcome is invalid input and the engine is unchanged |
| CalcProperties.NonFiniteResultRefused | task2/calculator.py:120-123 | An infinite or NaN float result makes evaluation fail as invalid input, with the engine unchanged |
| CalcProperties.IntTextShape | task2/calculator.py:106-116 | The text of an integer is digits and `-` only, with no whitespace at either end |
| CalcProperties.NormalizeDigitsAndMinus | task2/calculator.py:112-116 | Text of digits and minus signs is unchanged by the rewrite, and passes the whitelist when non-empty |
| CalcProperties.ExponentResultNotReevaluable | task2/calculator.py:104-127 | A result text containing `e` is refused as invalid when evaluated again |
| CalcProperties.ExponentRejected | task2/calculator.py:115-116 | Any buffer containing the letter `e` is refused as invalid, with the engine unchanged |
| CalcProperties.LetterEForeign | task2/calculator.py:112-116 | The letter `e` is neither a whitelist character nor a display glyph |
| CalcProperties.TypedAddition | task2/calculator.py:69-78 | Typing 2, +, 3 from a new engine gives the buffer `2+3` |
| CalcProperties.NormalizeAddition | task2/calculator.py:112-116 | `2+3` is unchanged by the rewrite and is whitelisted |
| CalcProperties.ScenarioAddition | task2/calculator.py:104-136 | `2 + 3 =` returns (`2+3`, `5`) |
| CalcProperties.TypedDivision | task2/calculator.py:69-78 | Typing 1, 0, ÷, 0 gives the buffer `10÷0` |
| CalcProperties.NormalizeDivision | task2/calculator.py:112-116 | `10÷0` is rewritten to `10/0`, which is whitelisted |
| CalcProperties.ScenarioDivisionByZero | task2/calculator.py:104-119 | `10 ÷ 0 =` raises division by zero and `evaluate` leaves the buffer as typed (the window then clears it, see `CalcDisplay.PressEquals`) |
| CalcProperties.NormalizeProduct | task2/calculator.py:112-116 | `7×3` is rewritten to `7*3`, which is whitelisted |
| CalcProperties.ComputeSeven | task2/calculator.py:112-127 | `7` computes to `7` |
| CalcProperties.EvaluateSeven | task2/calculator.py:104-136 | Typing 7 and `=` commits 7 with history [(7, 7)] |
| CalcProperties.TypedProductAfterSeven | task2/calculator.py:69-76 | After `7 =`, typing × and 3 gives `7×3` |
| CalcProperties.ComputeProduct | task2/calculator.py:112-127 | `7×3` computes to `21` |
| CalcProperties.EvaluateProduct | task2/calculator.py:104-136 | `=` on `7×3` after `7 =` returns (`7×3`, `21`) |
| CalcProperties.ScenarioContinuation | task2/calculator.py:69-136 | `7 =` then `× 3 =` returns (`7`, `7`) and then (`7×3`, `21`) |
| CalcDisplay.Preview | task2/calculator.py:500-520 | An empty buffer shows `0`. Text outside the whitelist, evaluator errors, an infinite or NaN float and an int too long for `str` show an empty line. Any other finite float shows its `%.10g` text, integral or not; any other int or non-numeric value shows its `str` text. The text is not stripped first |
| CalcDisplay.PreviewBlankWhenComputeFails | task2/calculator.py:500-520 | Whenever evaluating a non-empty text would fail, its preview is blank |
| CalcDisplay.PreviewMatchesCommitForExactValues | task2/calculator.py:500-520 | For an int within the digit limit or a non-numeric value, the preview equals the text evaluation commits; for a longer int, evaluation fails and the preview is blank |
| CalcDisplay.PreviewOfIntegralFloat | task2/calculator.py:500-520 | For an integral float below 1e15, the preview is `%.10g` of it while the committed text is its integer digits |
| CalcDisplay.PressEquals | task2/calculator.py:478-491 | A successful `=` commits as `evaluate` does; a failed one clears the engine: empty buffer and last result, flag down, history kept |
| CalcDisplay.FailedEqualsClears | task2/calculator.py:478-491 | When evaluation fails, `evaluate` leaves the engine as it was, but after the window's `=` the buffer is empty and the history is kept |
| CalcDisplay.PressKey | task2/calculator.py:523-531 | A key in the dictionary types its mapped character: appended to the buffer, or after `=` appended to the last result for an operator and starting a new buffer otherwise. A key outside the dictionary is not typed |
| CalcDisplay.KeyMapInjective | task2/calculator.py:524-529 | Distinct keys type distinct characters |
| CalcDisplay.NormalizeUndoesKeyMap | task2/calculator.py:524-529 | Every key but `%` is typed as a character that the evaluation rewrite turns back into the key |
| CalcDisplay.PercentKeyDividesByHundred | task2/calculator.py:524-529 | The `%` key's character is rewritten to `/100` |
| PyStr.SkipSpace | task2/calculator.py:106 | The forward scan stops at the first non-space |
| PyStr.SkipSpaceBack | task2/calculator.py:106 | The backward scan stops after the last non-space |
| PyStr.StripLeft | task2/calculator.py:106 | The result is a suffix of the input and does not start with a space |
| PyStr.StripRight | task2/calculator.py:106 | The result is a prefix of the input and does not end with a space |
| PyStr.SkipSpaceDrops | task2/calculator.py:106 | Everything the forward scan skips is whitespace |
| PyStr.SkipSpaceBackDrops | task2/calculator.py:106 | Everything the backward scan skips is whitespace |
| PyStr.SkipSpaceStops | task2/calculator.py:106 | The forward scan never passes a non-space |
| PyStr.SkipSpaceBackStops | task2/calculator.py:106 | The backward scan never passes a non-space |
| PyStr.StripIsInnerSlice | task2/calculator.py:106 | `strip()` is an inner slice with only whitespace cut on either side and non-space ends |
| PyStr.StripKeeps | task2/calculator.py:106 | Every non-space character of the input survives `strip()` |
| PyStr.StripTrimmed | task2/calculator.py:106 | Text with non-space ends is its own strip |
| PyStr.StripEmptyIffAllSpace | task2/calculator.py:106-108 | `strip()` is empty exactly when the text is all whitespace |
| PyStr.SkipSpaceAll | task2/calculator.py:106 | On all-whitespace text the scan reaches the end |
| PyStr.StripIdempotent | task2/calculator.py:106 | Stripping twice equals stripping once |
| PyStr.ReplaceCharAppend | task2/calculator.py:112 | A character replacement distributes over concatenation |
| PyStr.DigitChar | task2/calculator.py:123 | A digit value's character is a decimal digit |
| PyStr.DigitValue | task2/calculator.py:123 | A digit character's value is below ten |
| PyStr.NatToString | task2/calculator.py:123 | Decimal text of a natural number is non-empty digits with no leading zero |
| PyStr.IntToString | task2/calculator.py:123 | `str(int)` starts with `-` exactly for negatives, is otherwise digits, and is integer text |
| PyStr.NatToStringRoundTrip | task2/calculator.py:123 | Parsing the decimal text of a natural number gives it back |
| PyStr.IntToStringRoundTrip | task2/calculator.py:123 | Parsing `str(i)` gives `i` back |
| PasswordGen.CharRange | task3/PasswordGenerator.py:71-78 | A class is the run of consecutive character codes between its ends |
| PasswordGen.CharRangeMembers | task3/PasswordGenerator.py:71-78 | A run holds exactly the characters between its ends |
| PasswordGen.ClassMembers | task3/PasswordGenerator.py:71-78 | The lowercase, uppercase, digit and punctuation classes hold exactly their ASCII ranges |
| PasswordGen.ClassSizes | task3/PasswordGenerator.py:71-78 | The classes hold 26, 26, 10 and 32 characters |
| PasswordGen.DropAmbiguous | task3/PasswordGenerator.py:79-80 | The filter keeps exactly the non-ambiguous characters, in order, with every copy of each kept and no copy of an ambiguous one |
| PasswordGen.BuildCharset | task3/PasswordGenerator.py:68-81 | A character is in the set exactly when its class is selected and it is not excluded as ambiguous. The set is the selected classes, or the ambiguity filter applied to them when excluding |
| PasswordGen.ExcludingShrinksCharset | task3/PasswordGenerator.py:79-80 | Excluding ambiguous characters never lengthens the character set, and it removes exactly the ambiguous ones |
| PasswordGen.CharsetEmptyIffNoClass | task3/PasswordGenerator.py:68-81 | The set is empty exactly when no class is selected, with or without exclusion |
| PasswordGen.SpaceNeverInCharset | task3/PasswordGenerator.py:68-81 | No character set holds a space |
| PasswordGen.Draws | task3/PasswordGenerator.py:86 | `n` draws give `n` characters, the k-th being the set's character at the k-th pick |
| PasswordGen.GeneratePassword | task3/PasswordGenerator.py:83-86 | An empty set gives the empty password. Otherwise the length is the requested length (none if negative), every character is from the set, and each one is the picked one |
| PasswordGen.IndexOf | task3/PasswordGenerator.py:86 | The returned position holds the character sought |
| PasswordGen.GenerateReachesAll | task3/PasswordGenerator.py:83-86 | Every password of the requested length over the set is produced by some sequence of draws |
| PasswordGen.StrengthLevel | task3/PasswordGenerator.py:93-99 | The level is between 0 and 4 |
| PasswordGen.StrengthCountsThresholds | task3/PasswordGenerator.py:93-99 | The level is the number of thresholds 28, 40, 60 and 80 the entropy reaches |
| PasswordGen.StrengthMonotone | task3/PasswordGenerator.py:93-99 | More entropy never gives a lower level |
| PasswordGen.StrengthSteps | task3/PasswordGenerator.py:93-99 | Below the i-th threshold the level is at most i; at it the level is i + 1 |
| PasswordGen.CopyGuardRefusesRealPassword | task3/PasswordGenerator.py:602-606 | The guard as written refuses the genuine punctuation password `((((` |
| PasswordGen.CopyGuardAcceptsGenerated | task3/PasswordGenerator.py:555-559 | The intended guard accepts every non-empty generated password and refuses only the empty text and the no-charset notice |
| PasswordHistory.Record | task3/PasswordGenerator.py:570-573 | A new password is appended and the oldest is dropped once the list exceeds five; a known one leaves the history unchanged; nothing foreign enters |
| PasswordHistory.RecordKeepsValid | task3/PasswordGenerator.py:570-573 | Recording keeps the history duplicate-free and at most five long, keeps the password, and puts a new one last |
| PasswordHistory.RecordIdempotent | task3/PasswordGenerator.py:570-573 | Recording the same password twice equals recording it once |
| PasswordHistory.Position | task3/PasswordGenerator.py:470 | The first position of a password in the history |
| PasswordHistory.Delete | task3/PasswordGenerator.py:468-471 | An absent password changes nothing. Otherwise exactly one occurrence goes, and the rest stays in order |
| PasswordHistory.DeleteKeepsValid | task3/PasswordGenerator.py:468-471 | Deleting keeps the history valid, and the deleted password is gone |
| PasswordHistory.Displayed | task3/PasswordGenerator.py:448 | The display shows the last five entries (or fewer), newest first |
| PasswordHistory.NewestShownFirst | task3/PasswordGenerator.py:448 | A newly generated password heads the display |
| PasswordHistory.Generate | task3/PasswordGenerator.py:553-573 | With no class selected the field shows the notice and the history stays. Otherwise the drawn password is shown and recorded |
| PasswordHistory.GenerateKeepsValid | task3/PasswordGenerator.py:553-573 | Generating keeps the history valid, and a positive-length password passes the intended copy guard |
| Seqs.SubsequenceLength | task1/todo.py:240 | An ordered subsequence is never longer than the whole |
| Seqs.SubsequenceReflexive | task3/PasswordGenerator.py:469-470 | Every sequence is an ordered subsequence of itself |
| Seqs.DropOneIsSubsequence | task3/PasswordGenerator.py:470 | Removing one position leaves an ordered subsequence |
| Seqs.DropOneNoDup | task3/PasswordGenerator.py:470 | Removing one position from a duplicate-free list keeps it duplicate-free and drops that element |
| Todo.Init | task1/todo.py:77-79 | At start-up the loaded tasks are kept, the filter is "All", nothing is being edited, the entry is empty and the priority is "Medium" |
| Todo.InitShowsAll | task1/todo.py:77-78 | At start-up the shown list is the whole loaded list |
| Todo.NewTask | task1/todo.py:55-62 | A new task carries the given text and priority and the given id, and is not completed |
| Todo.Shown | task1/todo.py:240 | The shown list is the tasks passing the filter, in order, with every copy of a passing task kept and none of a failing one |
| Todo.ShownAll | task1/todo.py:256-259 | Any filter other than Active or Completed shows every task |
| Todo.DoneCount | task1/todo.py:397 | At most every task is done |
| Todo.GetStats | task1/todo.py:395-401 | The total is the number of tasks, done is at most total, and pending is their non-negative difference |
| Todo.StatsMatchFilters | task1/todo.py:395-401 | The done count is the length of the Completed list; pending is the length of the Active list |
| Todo.FirstWithId | task1/todo.py:336-338 | The first position holding the id, or None when no task has it |
| Todo.SaveEdit | task1/todo.py:336-340 | Only the first task with the edited id changes, taking the new text and priority; the length is unchanged |
| Todo.AddOrSave | task1/todo.py:329-351 | A blank stripped entry changes nothing. In edit mode the edit is saved, otherwise a new task is appended. The entry, the priority and edit mode are reset, and the filter stays |
| Todo.StartEdit | task1/todo.py:353-360 | The entry and priority take the task's values and its id is remembered; the tasks stay |
| Todo.CancelEdit | task1/todo.py:362-367 | Edit mode ends and the entry and priority reset; the tasks stay |
| Todo.CancelUndoesStartEdit | task1/todo.py:353-367 | Cancelling right after opening a task for editing ends where cancelling alone would |
| Todo.Toggle | task1/todo.py:369-372 | Only the toggled task's done flag changes, to the check box's value |
| Todo.ToggleBackRestores | task1/todo.py:369-372 | Setting the check box back to the task's old value restores the whole state |
| Todo.ToggleMovesDoneCount | task1/todo.py:369-372 | A toggle changes the done counter by exactly the change in the task's flag |
| Todo.WithoutId | task1/todo.py:376 | The remaining tasks are those whose id differs, in order, with every copy kept |
| Todo.Delete | task1/todo.py:374-380 | Unconfirmed, nothing changes. Confirmed, every task with the id goes, and editing that task is cancelled |
| Todo.DeleteNeverLengthens | task1/todo.py:374-379 | A delete, confirmed or not, never lengthens the task list |
| Todo.ShownNeverLonger | task1/todo.py:240 | No filter shows more tasks than the list holds |
| Todo.SetFilter | task1/todo.py:382-384 | Only the filter changes: the tasks, the edited id, the entry and the priority stay |
| Todo.AddThenDeleteRestores | task1/todo.py:329-380 | Adding a task under a fresh id and deleting that id gives the original list back |
| Todo.WithoutIdAppend | task1/todo.py:376 | Removing the id of a task appended at the end removes that task |
| Todo.WithoutIdFresh | task1/todo.py:376 | Removing an id no task has changes nothing |
| Todo.EditUnchangedIsNoop | task1/todo.py:329-360 | Opening a task and saving it untouched leaves every task unchanged |
| Todo.SaveKeepsIdAndDone | task1/todo.py:336-340 | A save never changes a task's id or done flag, nor the list's length |

## Left out

- The host's expression evaluator (`eval`) and float arithmetic are not modelled. They are the `eval` field of `Host`, and properties that need a value take the evaluator's answer as a requirement.
- The `%.10g` float formatter is not modelled. It is the `formatG` field of `Host`.
- The message text, colour and timed refresh of the window's error path (`task2/calculator.py:485-498`) are left out. Its `clear()` of the engine is modelled by `CalcDisplay.PressEquals`.
- `calculate_entropy` (`task3/PasswordGenerator.py:88-91`) is left out because it needs `log2` over reals. The strength level takes the entropy as its input.
- The random source (`SystemRandom().choice`) is the parameter `pick`: position k draws index `pick(k) % |charset|`.
- The multi-password batch (`_generate_multi`), the strength bar, the history's reuse button, the animation thread and the settings file are left out. They are user interface or input/output.
- The todo list's JSON file load and save are left out. The id and creation time come from the clock, so they are parameters of `Todo.AddOrSave`.
- The delete confirmation dialog's answer is the parameter `confirmed` of `Todo.Delete`.
- Widget styling, focus and the refresh calls after each action are left out.
- `\d` matches only the ASCII digits here. Python also matches the other Unicode decimal digits, which are not modelled.
- The 4300-digit limit on `str` of an int is Python's default since 3.11 (and in the 3.10.7 and 3.9.14 updates); an interpreter without it would format every int.
- PasswordGen.ClassSizes: gives the sizes of the four classes. The sizes after removing ambiguous characters are not stated.
- PasswordGen.StrengthLevel: its own contract states only the range. The correspondence with the thresholds is in `PasswordGen.StrengthCountsThresholds`.
- Todo.Toggle: identifies the task by its position in the list. The source's check box holds the task object itself.
- The other keyboard bindings (`task2/calculator.py:533-537`: Return and keypad Enter for `=`, BackSpace for backspace, Escape and Delete for clear) are outside `CalcDisplay.PressKey`; they call the engine operations directly.
- CalcDisplay.PressKey: reads the key dictionary as the set of bound keys. How Tk parses the event patterns built from it (such as `<KeyPress-->` for the minus key) is not modelled.
- CalcEngine.Input: its contract describes one-character keys after `=`. The empty key is covered separately by `CalcProperties.EmptyKeyAfterEquals`, and longer keys are left to the body.

## Findings

| source | as written | input that shows it | evidently intended | confidence | as-written member | corrected member |
|---|---|---|---|---|---|---|
| task3/PasswordGenerator.py:604 | the copy button refuses any text starting with `(` in order to skip the notice `(no charset selected)` | punctuation only, four draws of `(`, giving the password `((((` | refuse only empty text and the notice itself | high, not executed | PasswordGen.CopyGuardRefusesRealPassword | PasswordGen.CopyGuardAcceptsGenerated |
