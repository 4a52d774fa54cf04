# Legislation review tool — a Dafny model

`app.py` is a Streamlit tool for reviewing legislation records.
It pairs the records of two sources, Qistas and the Legislative Diwan, by
position. It shows the pair under the cursor as a comparison table, and the
reviewer then records which source is correct (or types in the correct data).
This project models the logic behind that screen:

- `values.dfy` (module `Values`): spreadsheet cells as pandas hands them
  over (`None`, `NaN`, int, whole-number float, text). It also defines the
  Python string operations the tool relies on: `str(v)`, `str.strip()`,
  `str.isdigit()` and the decimal value of a digit string.
- `status.dfy` (module `StatusParser`): `parse_status`, including the
  grammar that `float()` accepts after `replace(',', '.')`.
- `records.dfy` (module `Records`): `get_legislation_data` and the number of
  reviewable pairs.
- `diff.dfy` (module `DiffEngine`): the rows of `render_law_comparison`
  without their HTML. A row is (field name, Qistas text, Diwan text,
  differs). The module also holds `FIELD_MAPPING`, the seven always-shown
  fields and the three fields shown only for a legislation that is no
  longer in force.
- `wizard.dfy` (module `Wizard`): the record indices of the step strip drawn
  by `render_wizard_steps`, and how each step is marked.
- `session.dfy` (module `Session`): the class `ReviewSession` over
  `st.session_state`. It holds the verdict log, the cursor, the custom-form
  flag and the delete-confirmation flag. Each button is a method. The two
  JSON files written by `save_persistent` are ghost fields. The invariant
  `Valid()` says that loading those files reproduces the in-memory log and
  cursor.

Three behaviours of the code are worth stating on their own, because the
model follows them exactly:

- Choosing a source at the last pair does not move the cursor to a
  "complete" position. `move_to_next_record` only advances while
  `cursor + 1 < total`, so the cursor stays on the last pair, and a further
  choice there appends another verdict for the same pair. After reviewing
  three pairs out of three, the cursor is 2, not 3. The "complete" branch
  with its restart button is reached only when the stored cursor is already
  at or past the pair count, for example after the sources shrink.
  `ReviewThreePairs` and `ChooseAgainAtLastPair` state this.
- Present cells are compared as the untrimmed `str(v)`: white space is
  removed only to decide whether a cell is blank, so "X " and "X" differ.
  The int 5 and the text "5" both show as "5" and do not differ, but the
  float 5.0 shows as "5.0" and differs from both (app.py:429-432).
- A cell is missing when it is None, NaN or blank after stripping. A cell
  whose text is the missing mark "—" itself shows exactly like a missing
  one, so it never differs and, in a conditional row, counts as missing
  when deciding whether to drop the row (app.py:432, 445).

## Model

| member | source | states |
|---|---|---|
| Values.TrimStart | app.py:129 | `lstrip` keeps a suffix of the text that does not start with white space |
| Values.TrimEnd | app.py:129 | `rstrip` keeps a prefix of the text that does not end with white space |
| Values.TrimStartSpace | app.py:129 | what `lstrip` removes is white space only |
| Values.TrimEndSpace | app.py:129 | what `rstrip` removes is white space only |
| Values.Strip | app.py:129 | `str.strip()` keeps a text whose first and last characters are not white space, and no longer than the input |
| Values.StripSlice | app.py:129 | what `strip` keeps is one contiguous slice of the text, with only white space before and after it |
| Values.StripKeeps | app.py:129 | every non-white-space character survives `strip` at its offset |
| Values.StripPadded | app.py:129 | stripping white space from around a trimmed text gives exactly that text |
| Values.StripEmptyIffSpace | app.py:429 | a text strips to '' if and only if it is all white space |
| Values.NatToString | app.py:429 | `str(n)` of a non-negative int is an ASCII digit string that reads back as `n`; 0 is exactly "0" and no other number starts with '0' |
| Values.IntToString | app.py:429 | `str(i)` has no surrounding white space; it is the digits of `i`, with a leading '-' when negative, reads back as `i`, and has no leading zero; it is `str(n)` of the magnitude, after a '-' when negative |
| Values.Str | app.py:429 | `str(v)`: a text is itself, None is "None", NaN is "nan", an int is its digits with an optional '-', a whole float those digits followed by ".0"; any other cell than a text gives a non-empty text without surrounding white space; an int has no '.', a float ends in ".0", so the two never show the same text |
| StatusParser.ReadNumeral | app.py:133 | whatever `float()` accepts in this grammar is a well-formed numeral that spells the text back exactly |
| StatusParser.ReadSpell | app.py:133 | every well-formed numeral is read back as itself (round trip with `Spell`) |
| StatusParser.ReplaceCommas | app.py:133 | `replace(',', '.')` keeps the length and changes only the commas |
| StatusParser.ParseText | app.py:129-136 | the text branch: an empty text has no code, and any code other than the inactive token's is `int(float(v.replace(',', '.')))`, so the `isdigit` shortcut agrees with the float path |
| StatusParser.ParseStatus | app.py:123-136 | total: None and NaN give none (int(nan) raises and is caught), an int or whole float gives its value |
| StatusParser.ParseBlank | app.py:124-130 | None, NaN and texts that are blank after stripping have no code |
| StatusParser.ParseInactive | app.py:129-131 | "غير ساري", with any white space around it, gives 2 |
| StatusParser.ParseDigits | app.py:132 | a digit string gives the number it denotes |
| StatusParser.ParseNumeral | app.py:129-134 | a padded numeral with a '.' or ',' separator gives its value truncated toward zero ("1,5" → 1, "-2.9" → -2) |
| StatusParser.ParseTextSpell | app.py:131-134 | a well-formed numeral, unpadded, is not the inactive token and reads as its truncated value, on the digit path or the float path |
| StatusParser.ParseTwoSeparators | app.py:133-136 | a text with two separators has no code; float() raises and the exception is swallowed |
| StatusParser.ParseTextTwoSeparators | app.py:133-136 | the same for a text already stripped |
| StatusParser.ParseOnlyNumerals | app.py:128-136 | a text gives a code only when, stripped, it is the inactive token (code 2) or a numeral with one separator (its truncated value) |
| StatusParser.ParseTextNumeral | app.py:131-134 | the stripped text of a code other than the inactive token is a well-formed numeral spelled with one separator |
| StatusParser.UnreplaceCommas | app.py:133 | a numeral read after replacing commas by points was written in the original text with one of the two separators |
| StatusParser.ParseShownNumber | app.py:125-134 | the text `str(v)` of a numeric cell parses to the same code as the cell |
| StatusParser.ShownNumeral | app.py:125-134 | `str(v)` of an int or whole float is a well-formed numeral whose truncated value is `v` |
| StatusParser.ExampleInactive | app.py:131 | "غير ساري" gives 2 |
| StatusParser.ExamplePaddedDigits | app.py:129-132 | " 2 " gives 2 |
| StatusParser.ExampleCommaDecimal | app.py:133-134 | "1,5" gives 1 |
| StatusParser.ExampleThousands | app.py:133-134 | "1,000" gives 1, because the comma is replaced, not removed |
| StatusParser.ExampleTwoCommas | app.py:133-136 | "1,5,3" gives none |
| StatusParser.ExampleEmpty | app.py:130 | "" gives none |
| Records.PairCount | app.py:559 | the number of pairs is the length of the shorter source |
| Records.GetLegislationData | app.py:144-148 | past the end the record is empty; otherwise it keeps the row's columns, has no NA cell, and holds '' exactly where the row held None or NaN |
| DiffEngine.MappingFor | app.py:379-399 | a known type gets its own entry of `FIELD_MAPPING` (a law reads Law_Name and Law_Number, an instruction or agreement its own columns); an unknown type falls back to the bylaw mapping; Qistas always reads LegName and LegNumber |
| DiffEngine.CaptionsDistinct | app.py:401-416 | no two fields share a caption |
| DiffEngine.Shown | app.py:429-430 | a cell shows as "—" exactly when it is None, NaN, blank after stripping, or literally "—"; otherwise it shows as the untrimmed `str(v)` |
| DiffEngine.DisplayRows | app.py:425-433 | one row per always-shown field, in order, built from that field's columns |
| DiffEngine.ConditionalCandidates | app.py:437-442 | one candidate row per conditional field, in the order canceled-by, end date, replaced-by |
| DiffEngine.KeepPresent | app.py:444-446 | the rows kept are exactly the candidate rows with at least one side present |
| DiffEngine.KeepPresentOrdered | app.py:437-449 | dropping rows keeps the order of the remaining ones |
| DiffEngine.TailRanked | app.py:436-449 | the conditional rows keep the order of `CONDITIONAL_FIELDS` |
| DiffEngine.ConditionalTail | app.py:436-449 | the rows after the seventh: at most three, present only when the status reads 2, each a candidate conditional row with at least one side present, and every such candidate kept |
| DiffEngine.BuildRows | app.py:422-449 | the table has 7 to 10 rows, exactly 7 unless the status reads 2, and its first seven rows are the always-shown fields of the type's mapping; BuildRowsSplit, DiffersExactly, ConditionalRowsOrdered and ConditionalRowsShown state the rest |
| DiffEngine.BuildRowsSplit | app.py:422-449 | the table is the seven always-shown rows followed by the conditional rows |
| DiffEngine.BuildRowsShape | app.py:402-436 | between 7 and 10 rows, exactly 7 unless the status reads 2; the first seven are name, number, year, replaced-for, magazine date, active date and status, each from the type's columns |
| DiffEngine.DisplayRowsDiffer | app.py:424-433 | each always-shown row differs exactly when both sides are present and unequal |
| DiffEngine.ConditionalTailDiffers | app.py:436-449 | the same holds for every conditional row that is kept |
| DiffEngine.DiffersExactly | app.py:429-449 | a row differs exactly when both sides are present and their texts are unequal |
| DiffEngine.ConditionalRowsOrdered | app.py:413-449 | rows after the seventh are conditional fields, in the order canceled-by, end date, replaced-by |
| DiffEngine.TailHolds | app.py:436-449 | a conditional field's row is in the tail exactly when the status reads 2 and the row is kept, and no other row carries its field name |
| DiffEngine.ConditionalRowsShown | app.py:436-449 | a conditional field appears after the seventh row exactly when the status reads 2 and one of its sides has a value, and then as the row built from its columns |
| DiffEngine.UnknownKindIsBylaw | app.py:399 | an unknown legislation type gives the same table as a bylaw |
| DiffEngine.EmptyShownMissing | app.py:426-430 | a missing column (read as '') shows as "—" |
| DiffEngine.EmptyDiwanRows | app.py:425-442 | against an empty Diwan record every row is "—" on the Diwan side |
| DiffEngine.PastEndOfDiwan | app.py:372-373 | past the end of the Diwan source every Diwan cell is "—" and no row differs |
| DiffEngine.PastEndOfQistas | app.py:372-373 | past the end of the Qistas source the table has seven rows, each "—" on the Qistas side, and none differs |
| DiffEngine.TextsCompareUntrimmed | app.py:429-432 | two present texts differ exactly when they are unequal as written, white space included |
| DiffEngine.ExampleTrailingSpace | app.py:429-432 | "X " against "X" is a difference |
| DiffEngine.ShownFive | app.py:429 | the int 5 shows as "5" |
| DiffEngine.ShownTextFive | app.py:429 | the text "5" shows as "5" |
| DiffEngine.ShownFiveFloat | app.py:429 | the float 5.0 shows as "5.0" |
| DiffEngine.ExampleIntAgainstFloat | app.py:429-432 | the int 5 against the float 5.0 is a difference |
| DiffEngine.ExampleTextAgainstFloat | app.py:429-432 | the text "5" against the float 5.0 is a difference |
| DiffEngine.DashIsMissing | app.py:429-432 | a cell holding "—" is missing, and its row never differs |
| DiffEngine.CanceledOnlyInQistas | app.py:436-449 | status 2 with a canceling law known only to Qistas: the canceled-by row appears, "—" on the Diwan side, not marked as a difference |
| DiffEngine.CanceledRow | app.py:436-448 | with status 2 and a canceller known only to Qistas, the canceled-by row holds that canceller against "—" and does not differ |
| Wizard.StepCount | app.py:321 | `min(5, total)` steps |
| Wizard.Window | app.py:321-333 | `min(5, total)` consecutive indices; while reviewing, all are record indices and the cursor's record is among them; at or past the end, they are the last records |
| Wizard.Classify | app.py:336-350 | done before the cursor, current at it, upcoming after it |
| Wizard.WindowCoversCursor | app.py:324-333 | while reviewing, the steps show consecutive indices from a start within [0, total) and include the cursor |
| Wizard.WindowInRange | app.py:321-333 | every shown index is a record index, neighbouring steps are one apart, and the cursor is shown |
| Wizard.OneCurrentStep | app.py:336-345 | exactly one step is current; those before it are done, those after it upcoming |
| Wizard.WindowAfterLast | app.py:330-331 | once the cursor is at or past the end, the steps show the last records, all done |
| Wizard.ExampleMiddle | app.py:332-333 | cursor 4 of 10 shows 2..6 |
| Wizard.ExampleNearEnd | app.py:330-331 | cursor 8 of 10 shows 5..9 |
| Wizard.ExampleShortSource | app.py:325-326 | cursor 1 of 3 shows 0..2 |
| Session.LoadedLog | app.py:104-106 | a missing verdict file loads as the empty log |
| Session.LoadedCursor | app.py:107-109 | a missing progress file loads as cursor 0 |
| Session.SaveLoadRoundTrip | app.py:104-121 | loading what was saved gives it back, the empty log and cursor 0 included |
| Session.NewEntry | app.py:150-155 | the entry has the date, the source tag and every field of the data, and a data field of the same name overrides the first two |
| Session.Advance | app.py:159-166 | the cursor moves one step exactly when another pair remains, otherwise it stays |
| Session.AdvanceStaysInRange | app.py:159-166 | a cursor on a pair stays on a pair, and at the last pair it does not move |
| Session.FormDefaults | app.py:510-521 | one text per reference field, `str(v) if v else ""`: a text as it is, a non-zero int or float as its `str`, NaN as "nan", None and zero as '' |
| Session.EnteredRecord | app.py:518-530 | the submitted record holds each typed-in text under its field name |
| Session.UntouchedFormKeepsTexts | app.py:510-530 | an untouched form over a record of texts records that same record |
| Session.UntouchedFormBlanksZero | app.py:517-521 | an untouched form records '' where the reference held 0 |
| Session.TagOfNewEntry | app.py:151-155 | an entry's source field is the tag when the data has no field of that name |
| Session.ReviewTwoPairs | app.py:478-487 | choosing Qistas and then Diwan on three pairs logs two verdicts with those tags, cursor at 2 |
| Session.ReviewSession.Initialize | app.py:103-113 | log and cursor come from the files (empty and 0 when missing), both flags off, invariant established |
| Session.ReviewSession.SavePersistent | app.py:116-121 | both files now hold the in-memory log and cursor; nothing else changes |
| Session.ReviewSession.SaveComparisonRecord | app.py:150-157 | exactly one entry is appended at the end and saved; the earlier entries, the cursor and the flags are unchanged |
| Session.ReviewSession.MoveToNextRecord | app.py:159-166 | the cursor becomes `Advance(cursor, total)`; the log is unchanged |
| Session.ReviewSession.ChooseQistas | app.py:478-481 | the Qistas row under the cursor is appended with the Qistas tag, the cursor advances and stays on a pair |
| Session.ReviewSession.ChooseDiwan | app.py:484-487 | the Diwan row under the cursor is appended with the Diwan tag, the cursor advances and stays on a pair |
| Session.ReviewSession.ChooseNone | app.py:490-492 | the custom form opens; nothing else changes and nothing is saved |
| Session.ReviewSession.SubmitCustom | app.py:529-533 | the typed-in record is appended with the "other source" tag, the form closes, the cursor advances and stays on a pair |
| Session.ReviewSession.CancelCustom | app.py:535-537 | the form closes; log, cursor and files are unchanged |
| Session.ReviewSession.Back | app.py:546-551 | the cursor moves one step back, the form closes, the log is unchanged and progress is saved |
| Session.ReviewSession.Restart | app.py:587-595 | the cursor returns to 0, the form closes, the log is kept and progress is saved |
| Session.ReviewSession.StartDelete | app.py:626-629 | the confirmation is requested; nothing else changes |
| Session.ReviewSession.ConfirmDelete | app.py:635-654 | the log is emptied, the cursor is 0, the files hold [] and 0, and the confirmation is reset |
| Session.ReviewSession.CancelDelete | app.py:656-658 | the confirmation is reset; nothing else changes |
| Session.ReviewThreePairs | app.py:478-533 | three pairs, choosing Qistas, Diwan, then a custom record, give three verdicts with those tags in order, with the cursor at 2 |
| Session.ChooseAgainAtLastPair | app.py:159-166 | a further choice at the last pair appends a fourth verdict for that pair and leaves the cursor at 2 |

## Left out

- Streamlit rendering, the CSS and HTML of the table, cards, wizard circles and progress bar (app.py:168-281, 354-366, 452-462, 564-584): only what those views compute is modelled.
- Loading the Excel sources and finding their paths (app.py:33-81): the model takes the two sources as sequences of rows that are already ordered.
- The `GroupKey` sort done by pandas (app.py:745-748): it is foreign library code, and the rows come in already sorted.
- JSON file I/O (app.py:85-99, 640-651) is replaced by the ghost fields `savedLog` and `savedCursor`. A save error that the code swallows is not modelled, and neither are file contents that are not a list or a non-negative integer.
- `datetime.now()` is the `now` parameter. The Excel export (app.py:605-622) is not part of this model.
- The progress percentage (app.py:563) uses float division and is not modelled.
- `generate_side_card` (app.py:665-720) is never called and only builds HTML.
- The first `main` (app.py:285-315) is shadowed by the second definition and is not modelled.
- The grid layout of the custom form (app.py:505-527) is not modelled: only the map of entered texts matters.
- ParseStatus: `float()` syntax beyond an optional sign, digits and one separator is read as no code here. This covers exponents ("1e3"), underscores ("1_000") and "inf"/"nan" spellings; Python reads the first two as numbers.
- ParseStatus: precision loss when `float()` reads a long decimal is not modelled; the model truncates the exact value.
- ParseStatus: Python `bool` cells, which `isinstance(val, int)` accepts, are not modelled.
- IsDigit: only ASCII, Arabic-Indic and extended Arabic-Indic digits count. The other Unicode decimal digits that `int()` accepts are not modelled.
- Value: date cells (Magazine_Date, ActiveDate, EndDate) are modelled as their text. If pandas hands over a Timestamp, the table shows `str(ts)`, which matches a text cell; but `json.dump` would then fail inside `save_to_file` and the error is only reported (app.py:85-90). Because `open(filename, 'w')` has already truncated the file and `json.dump` writes in pieces, the verdict file is left cut short and unreadable; on the next fresh start `load_from_file` reports the decode error and returns None, so the whole log loads as [] (app.py:92-99, 104-106), and every later save fails the same way while that entry stays in memory. That failure is not modelled.
- Value: floats are modelled as whole numbers only. Fractional floats, `-0.0`, and the exponent form `str()` uses from 1e16 up are not modelled.
- Record: a record is a map, so the column order of a pandas row (and the field order of the custom form and of saved entries) is not modelled.
- Session.ReviewSession.Back: the "previous" button exists only while a pair is under review; the model asks only for a cursor above 0.
