# Disperse ledger editor, modelled in Dafny

The `Disperse` component is a line editor for a payout ledger. Each line is
meant to read `address=amount` or `address,amount` (a space separates too).
The user types lines, adds one with Enter on the last line (on any other
line Enter only moves the focus) and deletes an empty one with Backspace.
"Next" validates the ledger. Validation reports:

- per line, a wrong address length, a missing `0x` prefix, and an amount
  that is missing, not a number or not positive;
- per address found on two or more lines, one duplicate group listing those
  lines.

When there are duplicates, two links ("Keep the first one" and "Combine
Balance") keep only the first line of every address and clear the
diagnostics.

The model is split into these modules:

- `Tokenizer`: the `split(/=|,| /)` grammar, the address and amount pieces,
  and a recogniser for amounts that `Number` makes positive.
- `Validator`: `validateInput` as a pure function `Validate`, its
  address-to-lines map, and the imperative loops as methods proved equal to
  `Validate`.
- `Messages`: the text of each diagnostic.
- `Dedup`: `handleDuplicateAddress`.
- `Edits`: the handlers for typing, Enter and Backspace.
- `Editor`: the component state (`inputFields`, `errors`, `hasDuplicates`)
  as a state machine over user events.

Three points where the code does less than its labels or its layout
might suggest; the model follows the code:

- The link labelled "Combine Balance" (`src/components/Home/index.tsx:158`)
  suggests merging the amounts of a recipient's lines. It calls the same
  `handleDuplicateAddress` as "Keep the first one" (`:156`), so both keep
  the first line of every address.
- There is no paste handler: the browser puts pasted text into the one
  line being edited.
- Backspace deletes a line only when its text is exactly empty (`:39`). A
  line of spaces is not deleted.

Diagnostics are kept as data (`Validator.Diagnostic`), not as strings.
`Messages.Render` turns them into the exact texts the component shows.

## Model

| member | source | states |
|---|---|---|
| Tokenizer.Split | src/components/Home/index.tsx:57 | the split of an entry always has a piece 0, even for the empty entry |
| Tokenizer.SplitPiecesArePlain | src/components/Home/index.tsx:57 | no piece contains `=`, `,` or a space |
| Tokenizer.SplitFirstPiece | src/components/Home/index.tsx:57-58 | piece 0 is the longest separator-free prefix of the entry |
| Tokenizer.Separators | src/components/Home/index.tsx:57 | the separators dropped by the split are all separator characters, and there are none exactly when the entry has none |
| Tokenizer.SplitRejoin | src/components/Home/index.tsx:57 | splitting loses nothing: there is one more piece than separators, and pieces joined by the separators give back the entry |
| Tokenizer.RejoinSplit | src/components/Home/index.tsx:57 | inverse direction: separator-free pieces joined by separators split back into the same pieces and separators |
| Tokenizer.AddressBeforeFirstSeparator | src/components/Home/index.tsx:57-58 | the address is a separator-free prefix of the entry; it is followed by a separator unless it is the whole entry, and it is the whole entry exactly when the entry has no separator |
| Tokenizer.SplitAfterFirst | src/components/Home/index.tsx:57 | after the first separator, the remaining pieces are the split of the rest of the entry |
| Tokenizer.AmountTokenAfterFirstSeparator | src/components/Home/index.tsx:57-59 | the amount token is missing exactly when the entry has no separator, and otherwise it is the text between the first separator and the next one |
| Tokenizer.MissingOrEmptyAmountRejected | src/components/Home/index.tsx:59-71 | an entry without separator, or with an empty amount token, fails the amount check |
| Validator.LineDiagnostics | src/components/Home/index.tsx:61-71 | a line's diagnostics are all format diagnostics about that line |
| Validator.LineDiagnosticsReport | src/components/Home/index.tsx:61-71 | a line's diagnostics name a check exactly when its verdict rejects that check |
| Validator.LineDiagnosticsInCheckOrder | src/components/Home/index.tsx:61-71 | a line's diagnostics follow the order length, prefix, amount |
| Validator.FormatDiagnosticsLines | src/components/Home/index.tsx:56-71 | the per-line pass yields only format diagnostics, each about an existing line |
| Validator.FormatDiagnosticsSorted | src/components/Home/index.tsx:56-71 | format diagnostics come by ascending line, and within a line in the order length, prefix, amount |
| Validator.FormatDiagnosticsComplete | src/components/Home/index.tsx:61-71 | a line gets a diagnostic for a check exactly when its verdict rejects that check |
| Validator.RecordNew | src/components/Home/index.tsx:75-76 | a new address gets a new map entry with its line, placed at the end of the iteration order |
| Validator.RecordKnown | src/components/Home/index.tsx:73-74 | a known address has its line appended to its own entry; no other entry changes |
| Validator.RecordSpec | src/components/Home/index.tsx:73-77 | on a map without repeated keys, the keys stay unchanged when the address is known and gain the address at the end when it is new |
| Validator.LinesOfSpec | src/components/Home/index.tsx:73-77 | the reference list of an address's lines holds exactly the 1-based lines carrying it, ascending |
| Validator.NoLinesWithout | src/components/Home/index.tsx:73-77 | an address on no line has no lines |
| Validator.FirstSeenSpec | src/components/Home/index.tsx:80 | the first-seen order lists every address of the ledger once, and nothing else |
| Validator.GroupsKeys | src/components/Home/index.tsx:73-80 | the map's keys, in iteration order, are the addresses in order of first occurrence |
| Validator.GroupsSpec | src/components/Home/index.tsx:73-77 | one map entry per distinct address of the ledger, holding exactly that address's lines |
| Validator.GroupsInFirstSeenOrder | src/components/Home/index.tsx:73-80 | every entry has a line, and entries iterate in ascending order of their first line |
| Validator.DuplicatesSpec | src/components/Home/index.tsx:80-82 | duplicate groups are exactly the map entries with two or more lines |
| Validator.DuplicatesKeepOrder | src/components/Home/index.tsx:80-82 | filtering keeps the entries' ascending first-line order |
| Validator.JudgedFormatErrors | src/components/Home/index.tsx:61-71 | on judged lines, a format diagnostic is reported exactly for an existing line whose verdict rejects that check |
| Validator.ReportedDuplicateIsGroup | src/components/Home/index.tsx:73-84 | a reported duplicate group lists all lines of its address, and there are two or more |
| Validator.GroupIsReported | src/components/Home/index.tsx:73-84 | every address on two or more lines is reported with exactly its lines |
| Validator.JudgedDuplicates | src/components/Home/index.tsx:73-84 | both directions together: a duplicate group is reported exactly for an address on two or more lines, listing those lines |
| Validator.JudgedOrder | src/components/Home/index.tsx:84 | the errors are in report order: format diagnostics first by line and check, then duplicate groups by first line |
| Validator.JudgedHasDuplicates | src/components/Home/index.tsx:84-87 | `hasDuplicates` holds exactly when some reported error is a duplicate group |
| Validator.ValidateReportsFormatErrors | src/components/Home/index.tsx:56-71 | on the ledger, a format diagnostic for line L and check C is reported exactly when line L exists and C fails on it |
| Validator.MissingAmountReported | src/components/Home/index.tsx:57-71 | a line without separator, or with an empty amount token, is reported as a wrong amount |
| Validator.ValidateReportsDuplicates | src/components/Home/index.tsx:73-84 | on the ledger, the duplicate groups are exactly the addresses on two or more lines, each with all its lines |
| Validator.ValidateOrder | src/components/Home/index.tsx:84 | the ledger's errors are in report order |
| Validator.TwoLinesFromGroup | src/components/Home/index.tsx:73-81 | an address with two or more lines sits on two distinct lines |
| Validator.GroupFromTwoLines | src/components/Home/index.tsx:73-81 | an address on two distinct lines has two or more lines |
| Validator.SharedAddress | src/components/Home/index.tsx:73-81 | an address has two or more lines exactly when two distinct lines carry it |
| Validator.HasDuplicatesIff | src/components/Home/index.tsx:80-87 | `hasDuplicates` holds exactly when a duplicate group is reported, and exactly when two distinct lines share an address |
| Validator.CheckLine | src/components/Home/index.tsx:61-71 | the three `if`s push exactly `LineDiagnostics` of the line's verdict |
| Validator.CollectLines | src/components/Home/index.tsx:52-78 | the `forEach` computes the format diagnostics of every line and the address-to-lines map |
| Validator.CollectDuplicates | src/components/Home/index.tsx:80-82 | the filter-and-map pass computes the duplicate groups of the map |
| Validator.ValidateInput | src/components/Home/index.tsx:52-87 | the imperative `validateInput` produces the same errors and flag as `Validate` |
| Messages.Decimal | src/components/Home/index.tsx:62 | a line number is written as a non-empty run of digits without a leading zero |
| Messages.DecimalRoundTrip | src/components/Home/index.tsx:62 | reading a written line number back gives the number |
| Messages.CheckOfTextRoundTrip | src/components/Home/index.tsx:62-70 | the three check messages are told apart |
| Messages.CheckTextStartsWithSpace | src/components/Home/index.tsx:62-70 | every check message starts with a space, so it cannot be read as part of the line number |
| Messages.ParsePieces | src/components/Home/index.tsx:62-70 | a message made of `Line `, digits and a check message reads back to that line and check |
| Messages.FormatMessageRoundTrip | src/components/Home/index.tsx:62-70 | reading a rendered format message back gives the diagnostic it was rendered from |
| Messages.FormatMessagesDistinct | src/components/Home/index.tsx:62-70 | two different format diagnostics never show the same text |
| Messages.DupMessagePieces | src/components/Home/index.tsx:82 | a duplicate message is its address, then ` Duplicates in Line: `, then the joined line list |
| Messages.JoinRoundTrip | src/components/Home/index.tsx:82 | reading a `join(', ')` of line numbers back gives the list |
| Messages.DupMessageLines | src/components/Home/index.tsx:82 | given its address, a duplicate message gives back exactly its line list |
| Dedup.AddressSetSnoc | src/components/Home/index.tsx:98-99 | adding one line to the seen set adds exactly that line's address |
| Dedup.KeepFirstSameAddresses | src/components/Home/index.tsx:93-105 | the kept lines carry exactly the ledger's set of addresses |
| Dedup.KeepFirstDistinct | src/components/Home/index.tsx:93-105 | no two kept lines share an address |
| Dedup.KeepFirstIsFirstOccurrences | src/components/Home/index.tsx:95-103 | the result is a subsequence of the ledger that keeps exactly each address's first line, in ledger order |
| Dedup.KeepFirstKeepsHead | src/components/Home/index.tsx:95-103 | line 0 is always kept and stays first |
| Dedup.KeepFirstOfDistinct | src/components/Home/index.tsx:95-103 | a ledger without repeated addresses passes through unchanged |
| Dedup.KeepFirstIdempotent | src/components/Home/index.tsx:93-108 | filtering twice gives the same ledger as filtering once |
| Dedup.KeepFirstLeavesNoDuplicates | src/components/Home/index.tsx:93-108 | validating the filtered ledger reports no duplicate group and clears `hasDuplicates` |
| Dedup.HandleDuplicateAddress | src/components/Home/index.tsx:93-108 | the loop with its seen set computes the keep-first filter, then clears errors and `hasDuplicates` |
| Edits.SetLine | src/components/Home/index.tsx:17-21 | the edited line takes the new text; every other line and the length stay as they were |
| Edits.SetLineUndo | src/components/Home/index.tsx:17-21 | typing the old text back restores the ledger |
| Edits.PressEnter | src/components/Home/index.tsx:23-37 | Enter on the last line appends exactly one empty line; any other case leaves the ledger as it was |
| Edits.PressBackspace | src/components/Home/index.tsx:38-50 | Backspace removes exactly line `index`, shifting later lines up, when that line is not line 0 and is exactly empty; otherwise nothing changes |
| Edits.KeyDownSequential | src/components/Home/index.tsx:133-136 | running the Enter handler and then the Backspace handler gives the ledger of the one handler that reacts to the key |
| Edits.KeyDownKeepsFirstLine | src/components/Home/index.tsx:23-50 | a key press never empties the ledger and never changes line 0 |
| Edits.BackspaceDeletesOnlyEmptyLine | src/components/Home/index.tsx:39 | Backspace shortens the ledger exactly when the line is not line 0 and is exactly empty; a line of spaces stays |
| Edits.EnterThenBackspace | src/components/Home/index.tsx:23-50 | Enter on the last line followed by Backspace on the new line restores the ledger |
| Editor.StepKeepsLedgerNonEmpty | src/components/Home/index.tsx:5-108 | no allowed event empties a non-empty ledger |
| Editor.StepKeepsFirstLine | src/components/Home/index.tsx:23-108 | only typing changes line 0; key presses, validation and the duplicate links keep it |
| Editor.RunKeepsLedgerNonEmpty | src/components/Home/index.tsx:5-108 | every run of allowed events from a non-empty ledger ends with a non-empty ledger |
| Editor.InitialNonEmpty | src/components/Home/index.tsx:5 | from the initial single empty line, every run of allowed events keeps at least one line |
| Editor.NextIsIdempotent | src/components/Home/index.tsx:52-87 | "Next" leaves the ledger unchanged, and pressing it twice is the same as pressing it once |
| Editor.NextReportsDuplicates | src/components/Home/index.tsx:80-87 | after "Next", the duplicate links show exactly when two lines share an address |
| Editor.CombineBalanceKeepsFirst | src/components/Home/index.tsx:156-158 | "Combine Balance" does the same as "Keep the first one" |
| Editor.ResolveThenNext | src/components/Home/index.tsx:93-108 | a duplicate link clears the diagnostics and the links, and "Next" right after finds no duplicates |
| Editor.EditsKeepDiagnostics | src/components/Home/index.tsx:17-50 | typing and key presses leave `errors` and `hasDuplicates` as they were |

## Left out

- Focus handling is not modelled: the `useEffect` on the last line, the refs, and the focus moves in the Enter and Backspace handlers. The Backspace handler does not call `preventDefault`, so after it moves the focus the browser's own deletion may edit another line. The model treats such an edit as a separate `Change` event, which `Editor.Allowed` permits.
- Rendering is not modelled: JSX, CSS classes, the line-number gutter and the "Show Example" text. What the component shows is given by `Editor.Shown` and `Messages.Render`.
- Routing in `src/App.tsx` is not part of this model.
- The `console.log` when there are no format errors is output only and is not modelled.
- Tokenizer.AmountAccepted: JavaScript's `Number` conversion and floating-point comparison are approximated. The model accepts an optional `+`, then digits with at most one `.` and at least one non-zero digit. Every text it accepts is one that `Number` makes positive, except a text whose value is so small that it rounds to 0 (such as `0.` followed by several hundred zeros and a `1`), which the component rejects and the model accepts. It rejects some texts that `Number` also accepts: exponents (`1e3`), hexadecimal, binary or octal literals (`0x10`), `Infinity`, and surrounding white space other than the space character (tabs, line terminators, no-break and other Unicode spaces, the byte-order mark).
- Edits.SetLine, Editor.Allowed: line events carry the index of a rendered line. So writing past the end of the array, which JavaScript would allow, is not modelled.
- Editor.Allowed: the two duplicate links exist only while `hasDuplicates` holds. Clicking them at other times is not modelled.
- "Combine Balance" is wired to the same handler as "Keep the first one". No merging of amounts exists in the component, so none is modelled.
- Paste expansion is not modelled, because the component has no paste handler.
- Messages.DupMessageLines: a duplicate message alone is not read back into its diagnostic. The address is free text and may itself contain ` Duplicates in Line: `, so the line list is recovered only given the address.
- Entries are strings of characters. JavaScript's UTF-16 code units are not distinguished from characters, so `length !== 42` is modelled as 42 characters.
