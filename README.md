# ledger-reconcile, modelled in Dafny

ledger-reconcile is a terminal tool for reconciling a ledger-cli journal against a bank
statement. The user ticks postings, and the tool rewrites their status markers in the journal:
`!` means pending, `*` means cleared, and no marker means unset. This project models the rewrite
engine, the pieces that feed it, and the properties each one promises:

- **LedgerFileEditor** (`file_editor.dfy`, with `ledger_lines.dfy`, `ledger_structure.dfy` and
  `ledger_batch.dfy`). It classifies journal lines and finds the header that owns a posting. It
  lists a header's postings and computes a posting's effective status. It rewrites the markers on
  headers and postings. It also runs the all-or-nothing batch `update_postings_status`:
  1. validate every target;
  2. group the targets by header;
  3. collapse each transaction to a header marker or spell out the markers per posting;
  4. write once.
- **The S-expression parser** (`sexp_parser.dfy`) that reads the output of `ledger emacs`.
  Where the parser never returns, the model gives an explicit "diverges" outcome. An encoder
  proves that the decoder reads every value back.
- **SafeFileEditor and LedgerFileWatcher** (`file_watcher.dfy`). The first is the optimistic
  write guard: it writes through a temporary file and a rename. The second suppresses the change
  event caused by the tool's own write. Both act on an abstract file with an integer
  modification stamp.
- **LedgerInterface** (`ledger_interface.dfy`). It turns the parsed emacs report into
  reconciliation entries. It also post-processes the text printed by `ledger accounts` and
  `ledger balance`.

`text.dfy` models the Python string operations the source relies on: `strip`, `lstrip`, `rstrip`,
`split`, `split()`, `join`, `readlines`, and string ordering. `wrappers.dfy` holds `Option`.

The pure functions of the source are Dafny functions. Code that loops or updates state is written
as methods with loop invariants. Each method is proved equal to a specification function, and the
properties are proved about that function. The methods are:
- the backward and forward scans;
- validation and grouping;
- the in-place rewrite of the line array;
- the quoted-string, list and scanner loops;
- the loops over transactions and postings.

Stateful objects are classes: `Disk`, `SafeFileEditor`, `LedgerFileWatcher` and
`LedgerFileEditor`.

Line numbers in the model are 1-based wherever the source uses 1-based numbers: targets, header
numbers and scanned posting numbers. Dafny sequence indices are 0-based, so line `p` is
`lines[p - 1]`.

Two behaviours of the editor are modelled as the code has them:

- `_find_transaction_for_posting` scans backwards past un-indented lines that are not headers. `_find_all_postings_for_transaction` stops at them. A validated target below such a line is therefore never rewritten (LedgerBatch.BatchTargetBeyondRun). Its transaction may still switch to header form, and the other postings then read new_status (LedgerStructure.HeaderModeOverwrites).
- Normalising the emacs output with `" ".join(output.split())` also collapses runs of whitespace inside quoted strings (LedgerInterface.NormalizeCollapsed).

## Model

| member | source | states |
|---|---|---|
| LedgerLines.ExtractPostingStatus | ledger_reconcile/file_editor.py:195-201 | the status is a marker exactly when the left-stripped line starts with `!` or `*`, and is then that character |
| LedgerLines.IsValidPostingLine | ledger_reconcile/file_editor.py:220-229 | definition of `_is_valid_posting_line`; used by ValidatePostings, with PostingNotHeader and ValidBatchGroups as its consequences |
| LedgerLines.UpdatePostingLine | ledger_reconcile/file_editor.py:264-299 | definition of `_update_posting_line`; its properties are UpdatePostingMarks, UpdatePostingClears, UpdatePostingLineStatus, UpdatePostingLineKeepsText, UpdatePostingLineIdempotent and MarkThenUnmark |
| LedgerLines.UpdateTransactionLine | ledger_reconcile/file_editor.py:231-262 | definition of `_update_transaction_line`; its properties are RewrittenHeader, UpdateTransactionLineMarker, UpdateTransactionLineReadsBack, UpdateTransactionLineKeepsHeader and UpdateTransactionLineIdempotent |
| LedgerLines.HeaderMarker | ledger_reconcile/file_editor.py:212-218 | a header marker is only ever found on a line that is a header |
| LedgerLines.EffectiveStatus | ledger_reconcile/file_editor.py:203-218 | the posting's own marker when it has one, else the header's marker; always one of "", "!", "*" |
| LedgerLines.MarkerAgrees | ledger_reconcile/file_editor.py:198-200 | a non-blank line has a posting status exactly when its body starts with a marker, and the status is that first character of the body |
| LedgerLines.UpdatePostingMarks | ledger_reconcile/file_editor.py:288-297 | setting a marker gives a line marked with it that keeps indentation, text and line ending |
| LedgerLines.UpdatePostingClears | ledger_reconcile/file_editor.py:281-297 | clearing a marker leaves the indentation, the text after the marker and the line ending |
| LedgerLines.UpdatePostingLineStatus | ledger_reconcile/file_editor.py:264-299 | after the rewrite the posting carries exactly the requested status (clearing needs no second marker after the first) |
| LedgerLines.UpdatePostingLineKeepsText | ledger_reconcile/file_editor.py:269-297 | the rewrite keeps the indentation, the account-and-amount text and the line ending |
| LedgerLines.UpdatePostingLineIdempotent | ledger_reconcile/file_editor.py:264-299 | rewriting twice with the same status equals rewriting once |
| LedgerLines.ClearingStackedMarker | ledger_reconcile/file_editor.py:281-286 | with a second marker after the first (`* ! x`), clearing leaves the second one visible |
| LedgerLines.MarkThenUnmark | ledger_reconcile/file_editor.py:264-299 | setting and then clearing a marker on an unmarked physical posting line restores the line exactly |
| LedgerLines.RewrittenHeader | ledger_reconcile/file_editor.py:231-262 | a matching header becomes its leading whitespace, the date, a single space, the marker text, the description and the newline |
| LedgerLines.UpdateTransactionLineMarker | ledger_reconcile/file_editor.py:231-262 | the rewritten header carries exactly the requested marker and keeps its date and description |
| LedgerLines.UpdateTransactionLineReadsBack | ledger_reconcile/file_editor.py:212-262 | the effective-status pattern reads the requested marker back from the rewritten header |
| LedgerLines.UpdateTransactionLineKeepsHeader | ledger_reconcile/file_editor.py:231-262 | a header stays a header under the rewrite |
| LedgerLines.UpdateTransactionLineIdempotent | ledger_reconcile/file_editor.py:231-262 | rewriting a header twice with the same status equals rewriting it once |
| LedgerLines.ClearingStackedHeaderMarker | ledger_reconcile/file_editor.py:235-256 | clearing a header whose description starts with a marker leaves that marker visible |
| LedgerLines.HeaderCoreStrip | ledger_reconcile/file_editor.py:234-256 | stripping the rebuilt header keeps the date, followed by a space and the marker-and-description text |
| LedgerLines.RestReadBack | ledger_reconcile/file_editor.py:235-244 | the marker group and the description group match back the marker and description the rewrite wrote |
| LedgerLines.MatchedParts | ledger_reconcile/file_editor.py:235-244 | the matched header splits into a ten-character date and a description that starts and ends with non-whitespace |
| LedgerStructure.OwnerFromSpec | ledger_reconcile/file_editor.py:158-167 | the backward scan from a line returns h exactly when h is a header above it and no line between them is blank or a header |
| LedgerStructure.FindTransaction | ledger_reconcile/file_editor.py:153-167 | the owning header comes before the posting |
| LedgerStructure.FindTransactionSpec | ledger_reconcile/file_editor.py:153-167 | `_find_transaction_for_posting` returns exactly the owner, and None when a blank line or the start of the file comes first |
| LedgerStructure.OwnerUnique | ledger_reconcile/file_editor.py:158-167 | a posting has at most one owner |
| LedgerStructure.OwnerFrom | ledger_reconcile/file_editor.py:158-167 | definition of the backward scan; a header it finds is at or above the start; OwnerFromSpec characterises it |
| LedgerStructure.RunEnd | ledger_reconcile/file_editor.py:176-191 | definition of where the forward scan stops, inside the file; RunEndStops, RunEndInside and RunEndBound characterise it |
| LedgerStructure.PostingsOf | ledger_reconcile/file_editor.py:169-193 | definition of the scanned posting numbers; PostingShape and PostingsOfRange give their properties |
| LedgerStructure.GroupTargets | ledger_reconcile/file_editor.py:96-108 | definition of the grouping; every group header is a header line in the file; GroupTargetsFails and GroupTargetsGroups characterise it |
| LedgerStructure.RunEndStops | ledger_reconcile/file_editor.py:176-186 | the forward scan stops at EOF or at a blank, header or un-indented line |
| LedgerStructure.RunEndInside | ledger_reconcile/file_editor.py:176-191 | no line the scan passes over ends the transaction |
| LedgerStructure.RunEndBound | ledger_reconcile/file_editor.py:176-186 | the scan stops no later than the first line that ends the transaction, so the run is maximal |
| LedgerStructure.PostingShape | ledger_reconcile/file_editor.py:176-190 | every collected line is non-blank, not a header, and starts with a space or tab |
| LedgerStructure.PostingsOfRange | ledger_reconcile/file_editor.py:174-193 | the collected numbers are h+1, h+2, …: contiguous, increasing and inside the run |
| LedgerStructure.GroupTargetsFails | ledger_reconcile/file_editor.py:100-108 | the grouping fails exactly when some target has no owner |
| LedgerStructure.GroupTargetsGroups | ledger_reconcile/file_editor.py:100-108 | a successful grouping has one entry per owning header, each listing exactly that header's targets in order |
| LedgerBatch.TargetsOwnedByMember | ledger_reconcile/file_editor.py:100-106 | every target listed under a header is a target owned by that header |
| LedgerBatch.TargetsOwnedByHas | ledger_reconcile/file_editor.py:100-106 | every target owned by a header is listed under it |
| LedgerStructure.Step | ledger_reconcile/file_editor.py:114-151 | rewriting one transaction leaves the file's length unchanged |
| LedgerStructure.StepTargets | ledger_reconcile/file_editor.py:119-151 | every scanned target reads back the new status after its transaction is rewritten |
| LedgerStructure.StepKeepsOthers | ledger_reconcile/file_editor.py:119-151 | a scanned posting that is not a target keeps its effective status, when some target is scanned |
| LedgerStructure.StepHeader | ledger_reconcile/file_editor.py:129-146 | in header mode the header carries the new status; otherwise it carries none |
| LedgerStructure.StepPosting | ledger_reconcile/file_editor.py:129-151 | in header mode no scanned posting carries a marker; otherwise each carries its final status |
| LedgerStructure.StepEffective | ledger_reconcile/file_editor.py:119-151 | after the rewrite, each scanned posting reads back new_status in header mode and its final status otherwise |
| LedgerStructure.StepKeepsHeaderLine | ledger_reconcile/file_editor.py:133-138 | the rewritten header is still a header line |
| LedgerStructure.UseHeaderMeans | ledger_reconcile/file_editor.py:130-131 | header mode holds exactly when there are scanned postings and all their final statuses are equal |
| LedgerStructure.UseHeaderSame | ledger_reconcile/file_editor.py:129-131 | in header mode every scanned posting has the same final status |
| LedgerStructure.HeaderModeOverwrites | ledger_reconcile/file_editor.py:134-138 | when all scanned postings share one final status but a non-target among them differs from new_status (so no target is in the scanned run), header mode is chosen and that non-target ends up reading new_status |
| LedgerStructure.StepOutside | ledger_reconcile/file_editor.py:133-151 | lines outside the header and its scanned run are left unchanged |
| LedgerStructure.RegionsApart | ledger_reconcile/file_editor.py:176-186 | the scanned run of a header ends before the next header line |
| LedgerStructure.StepFrame | ledger_reconcile/file_editor.py:114-151 | rewriting one transaction leaves every other transaction (its header and scanned run) as it was |
| LedgerStructure.RegionDetermines | ledger_reconcile/file_editor.py:119-131 | the final statuses and the mode depend only on the header and its scanned run |
| LedgerStructure.ApplyOutside | ledger_reconcile/file_editor.py:110-151 | after all transactions are rewritten, a line in no grouped region is unchanged |
| LedgerStructure.ApplyFrame | ledger_reconcile/file_editor.py:110-151 | a transaction with no targets is left as it was |
| LedgerStructure.ApplyRegion | ledger_reconcile/file_editor.py:110-151 | inside a grouped transaction, the result of all rewrites equals the rewrite of that transaction alone; the order of the groups does not matter |
| LedgerStructure.ApplyTargets | ledger_reconcile/file_editor.py:110-151 | after all transactions are rewritten, every scanned target reads back the new status |
| LedgerStructure.ApplyKeepsOthers | ledger_reconcile/file_editor.py:110-151 | after all transactions are rewritten, scanned non-targets keep their effective status |
| LedgerStructure.Apply | ledger_reconcile/file_editor.py:110-151 | definition of the rewrite of every grouped transaction in group order; the length is kept, and ApplyRegion, ApplyOutside, ApplyTargets and ApplyKeepsOthers give the contents |
| LedgerBatch.BatchRefused | ledger_reconcile/file_editor.py:53-63 | the batch is refused exactly when some target fails validation; a validated batch always groups |
| LedgerBatch.ValidBatchGroups | ledger_reconcile/file_editor.py:81-108 | validated targets lie in the file and always group, into distinct header lines |
| LedgerBatch.PostingNotHeader | ledger_reconcile/file_editor.py:220-229 | a valid posting line is never a header |
| LedgerBatch.BatchTargetsRead | ledger_reconcile/file_editor.py:46-66 | in the written lines, every target the forward scan reaches reads back the new status |
| LedgerBatch.BatchKeepsOthers | ledger_reconcile/file_editor.py:46-66 | in the written lines, a scanned non-target keeps its effective status |
| LedgerBatch.BatchForms | ledger_reconcile/file_editor.py:110-151 | every affected transaction ends in header form or in per-posting form |
| LedgerBatch.BatchUntouched | ledger_reconcile/file_editor.py:110-151 | lines outside every affected region are written back unchanged |
| LedgerBatch.BatchTargetBeyondRun | ledger_reconcile/file_editor.py:158-190 | a validated target that the forward scan does not reach (past an un-indented line) is left untouched |
| FileEditor.FindTransactionForPosting | ledger_reconcile/file_editor.py:153-167 | the backward loop returns FindTransaction |
| FileEditor.FindAllPostingsForTransaction | ledger_reconcile/file_editor.py:169-193 | the forward loop returns the scanned run h+1 … |
| FileEditor.ValidatePostings | ledger_reconcile/file_editor.py:77-94 | True exactly when every target is in range, is a valid posting line, has an owner and has the expected effective status |
| FileEditor.GroupPostingsByTransaction | ledger_reconcile/file_editor.py:96-108 | the dictionary-filling loop returns GroupTargets |
| FileEditor.CollectFinalStatuses | ledger_reconcile/file_editor.py:119-127 | new_status for targets and the effective status otherwise, in scan order |
| FileEditor.UpdatePostingLines | ledger_reconcile/file_editor.py:139-151 | the array loop rewrites exactly the scanned run with its markers and changes nothing else |
| FileEditor.WriteTransaction | ledger_reconcile/file_editor.py:133-151 | the header is rewritten with its marker and the scanned run with the given markers; every other line is kept |
| FileEditor.RewriteTransaction | ledger_reconcile/file_editor.py:114-151 | one iteration rewrites the array into Step of the old contents |
| FileEditor.ApplyStatusUpdates | ledger_reconcile/file_editor.py:110-151 | the in-place loop leaves the array equal to Apply of the old contents |
| FileEditor.UpdateLines | ledger_reconcile/file_editor.py:46-66 | validate, group and rewrite, giving UpdatedLines |
| FileEditor.ReadBack | ledger_reconcile/file_watcher.py:135-145 | the lines read concatenate to the decoded file text |
| FileEditor.LedgerFileEditor.UpdatePostingsStatus | ledger_reconcile/file_editor.py:26-75 | no targets: True, with no read, no write and no watcher change. Invalid batch: False, with nothing written. Otherwise the watcher is marked before the single write, the write guard decides, and True means the file holds the rewritten lines |
| FileWatcher.Disk.RemoveTemp | ledger_reconcile/file_watcher.py:173-174 | the temporary file is gone and the ledger file is unchanged |
| FileWatcher.Disk.ReplaceLedger | ledger_reconcile/file_watcher.py:170 | the rename puts the temporary file's contents in place of the ledger file |
| FileWatcher.Disk.ModificationTime | ledger_reconcile/file_watcher.py:53-58 | definition of `_get_modification_time`: the mtime, or 0 when the file is missing; used by Start and MarkInternalChange |
| FileWatcher.Disk.ExternalWrite | ledger_reconcile/file_watcher.py:155-158 | another program replaces the ledger file with new text and a new mtime, leaving the temporary file; this is the change the write guard detects |
| FileWatcher.SafeFileEditor.constructor | ledger_reconcile/file_watcher.py:131-133 | the last read time starts at 0 |
| FileWatcher.SafeFileEditor.ReadLinesSafely | ledger_reconcile/file_watcher.py:135-145 | a missing file gives ([], now) and leaves the last read time; otherwise the lines concatenate to the file text and the last read time becomes now |
| FileWatcher.SafeFileEditor.WriteLinesSafely | ledger_reconcile/file_watcher.py:147-177 | a file newer than the read time is refused with nothing touched; a missing file is written; success means True and content = concatenated lines; an OSError removes the temporary file and keeps the target |
| FileWatcher.Mark | ledger_reconcile/file_watcher.py:47-51 | sets the ignore flag, so the next change is swallowed (SelfWriteSuppressed), and records the given mtime as the last modification time |
| FileWatcher.Handle | ledger_reconcile/file_watcher.py:60-80 | the flag is always cleared; on_change fires iff the flag was clear and the mtime is newer; the recorded time is updated only when the flag was set or on_change fires |
| FileWatcher.SelfWriteSuppressed | ledger_reconcile/file_watcher.py:47-68 | the event after mark_internal_change is swallowed, and its time is recorded |
| FileWatcher.RepeatedEventQuiet | ledger_reconcile/file_watcher.py:60-74 | a second event with the same mtime never fires |
| FileWatcher.HandleMonotone | ledger_reconcile/file_watcher.py:71-74 | without the flag, the recorded time never decreases |
| FileWatcher.HandleAll | ledger_reconcile/file_watcher.py:60-80 | definition: Handle folded over a sequence of event times, counting notifications; its meaning is stated by HandleAllNotifies, StaleEventsQuiet and HandleMonotone |
| FileWatcher.HandleAllNotifies | ledger_reconcile/file_watcher.py:60-80 | with the flag clear, on_change is called exactly once per event whose time is later than the recorded time and every earlier event, and the recorded time ends as the maximum of the starting time and all event times |
| FileWatcher.StaleEventsQuiet | ledger_reconcile/file_watcher.py:71-72 | events no newer than the recorded time notify nobody and change nothing |
| FileWatcher.LedgerFileWatcher.constructor | ledger_reconcile/file_watcher.py:18-23 | starts stopped, with time 0 and the flag clear |
| FileWatcher.LedgerFileWatcher.Start | ledger_reconcile/file_watcher.py:25-38 | a stopped watcher records the file's mtime (0 when missing) and runs; a running one is unchanged |
| FileWatcher.LedgerFileWatcher.Stop | ledger_reconcile/file_watcher.py:40-45 | stops and keeps the watch state |
| FileWatcher.LedgerFileWatcher.MarkInternalChange | ledger_reconcile/file_watcher.py:47-58 | sets the flag and records the current mtime, or 0 for a missing file |
| FileWatcher.LedgerFileWatcher.HandleFileChange | ledger_reconcile/file_watcher.py:60-80 | the state becomes Handle of the old state, and on_change is counted exactly when Handle fires |
| SExpParser.QuotedFrom | ledger_reconcile/sexp_parser.py:35-62 | decoding a quoted string ends with a value or an error, never divergence |
| SExpParser.ParseQuotedString | ledger_reconcile/sexp_parser.py:28-62 | the index loop returns QuotedText |
| SExpParser.UnterminatedQuote | ledger_reconcile/sexp_parser.py:59-60 | a string with no closing quote raises SExpParseError |
| SExpParser.UnterminatedFrom | ledger_reconcile/sexp_parser.py:36-60 | decoding from any position with no quote ahead gives SExpParseError |
| SExpParser.QuotedEscape | ledger_reconcile/sexp_parser.py:36-62 | an escaped text followed by a quote decodes to the text: `\"`, `\\`, `\n`, `\t`, `\r` are undone |
| SExpParser.EscapeCharInverse | ledger_reconcile/sexp_parser.py:38-53 | every escape the encoder writes is read back as its character |
| SExpParser.ParseAtom | ledger_reconcile/sexp_parser.py:64-68 | an int exactly for all digits or `-` then digits, with the decimal value; otherwise the same string |
| SExpParser.StringScan | ledger_reconcile/sexp_parser.py:101-109 | definition of the `_find_string_end` loop; the end lies past the start, and StringScanEnd and StringScanEscape give where it stops |
| SExpParser.StringScanEnd | ledger_reconcile/sexp_parser.py:101-109 | on any text, an end inside the text is one past a `"`, and every `"` passed over is escaped by the backslash just before it |
| SExpParser.FindStringEnd | ledger_reconcile/sexp_parser.py:101-109 | the loop returns StringScan from the character after the quote |
| SExpParser.StringScanEscape | ledger_reconcile/sexp_parser.py:101-109 | over an escaped text, the scan stops one past its closing quote; a backslash skips the next character |
| SExpParser.FindListEnd | ledger_reconcile/sexp_parser.py:111-125 | the loop returns ListScan at depth 1 |
| SExpParser.ListScan | ledger_reconcile/sexp_parser.py:111-125 | definition of the `_find_list_end` loop; the end is at or after the start, and ListScanEnd and ListScanValue give where it stops |
| SExpParser.ListScanEnd | ledger_reconcile/sexp_parser.py:111-125 | on any text, a scan that stops inside the text stops just past the `)` that took the depth to 0 |
| SExpParser.ListScanValue | ledger_reconcile/sexp_parser.py:111-125 | the list scan jumps over an encoded value at any depth; parentheses inside strings are not counted |
| SExpParser.AtomScan | ledger_reconcile/sexp_parser.py:95-96 | the atom contains no whitespace or parenthesis, and inside the text it stops at one |
| SExpParser.ElementEnd | ledger_reconcile/sexp_parser.py:84-97 | the element ends at or after its start |
| SExpParser.ElementEndValue | ledger_reconcile/sexp_parser.py:84-97 | an encoded value followed by a space or `)` is one element |
| SExpParser.Parse | ledger_reconcile/sexp_parser.py:14-26 | the method returns Decode: None for blank text or `nil`, then dispatch on `"`, `(` or an atom |
| SExpParser.Decode | ledger_reconcile/sexp_parser.py:14-26 | definition of `parse`; RoundTrip and EncodeEnds are its properties |
| SExpParser.DecodeList | ledger_reconcile/sexp_parser.py:70-99 | definition of `_parse_list`; ElementsRoundTrip, StrayCloseDiverges and StrayCloseExample are its properties |
| SExpParser.DecodeElements | ledger_reconcile/sexp_parser.py:77-99 | definition of the element loop of `_parse_list`; ElementsRoundTrip and StrayCloseDiverges are its properties |
| SExpParser.FindElementEnd | ledger_reconcile/sexp_parser.py:84-97 | the branch of the element loop returns ElementEnd |
| SExpParser.ParseList | ledger_reconcile/sexp_parser.py:70-99 | the element loop returns DecodeList: an error without the enclosing parentheses, the elements in order otherwise |
| SExpParser.StrayCloseDiverges | ledger_reconcile/sexp_parser.py:79-97 | a `)` where an element is expected, before the last character, never terminates |
| SExpParser.StrayCloseExample | ledger_reconcile/sexp_parser.py:70-99 | `(a))` diverges |
| SExpParser.EncodeEnds | ledger_reconcile/sexp_parser.py:16-26 | an encoded value is dispatched back to its own kind |
| SExpParser.IntTextRoundTrip | ledger_reconcile/sexp_parser.py:64-68 | the atom parser reads every integer's decimal spelling back |
| SExpParser.RoundTrip | ledger_reconcile/sexp_parser.py:14-125 | decoding the encoding of any value gives the value back (nil, ints, escaped strings, nested lists) |
| SExpParser.ElementsRoundTrip | ledger_reconcile/sexp_parser.py:77-99 | the element loop reads space-separated encoded elements back in order |
| LedgerInterface.ConvertStatus | ledger_reconcile/ledger_interface.py:225-235 | falsy or non-string values give ""; "pending" gives "!"; "cleared" gives "*"; other strings are kept |
| LedgerInterface.ConvertStatusInverse | ledger_reconcile/ledger_interface.py:225-235 | converting the status ledger prints for a marker gives back that marker |
| LedgerInterface.DateOf | ledger_reconcile/ledger_interface.py:180-188 | the fallback date iff data[2] is not a list of two or more values; an error iff such a list does not start with two ints |
| LedgerInterface.EmacsTimeHalves | ledger_reconcile/ledger_interface.py:184 | high*65536 + low gives back both 16-bit halves of an Emacs time |
| LedgerInterface.PostingsOf | ledger_reconcile/ledger_interface.py:193-208 | there are no more postings than elements |
| LedgerInterface.PostingsAppend | ledger_reconcile/ledger_interface.py:193-208 | postings keep the order of the elements |
| LedgerInterface.PostingsSource | ledger_reconcile/ledger_interface.py:194-208 | every posting comes from a list element of three or more values, with line, account, amount and converted status taken from it; none when there is no such element |
| LedgerInterface.CreateTransaction | ledger_reconcile/ledger_interface.py:171-223 | no transaction iff fewer than 5 values; RuntimeError iff the date is malformed; otherwise line = data[1], description = data[4] or "", postings from data[5:], original line "" |
| LedgerInterface.CreateTransactionFromData | ledger_reconcile/ledger_interface.py:171-223 | the posting loop returns CreateTransaction |
| LedgerInterface.EntriesOf | ledger_reconcile/ledger_interface.py:162-169 | the result is a list of entries or RuntimeError, with no more entries than elements |
| LedgerInterface.EntriesAppend | ledger_reconcile/ledger_interface.py:163-169 | entries keep the order of the elements, and the first error wins |
| LedgerInterface.EntriesWithoutTransactions | ledger_reconcile/ledger_interface.py:163-167 | only lists of length 5 or more become transactions |
| LedgerInterface.ParseLedgerEmacsOutput | ledger_reconcile/ledger_interface.py:142-169 | the loop over the parsed elements returns EmacsEntries |
| LedgerInterface.EmacsEntries | ledger_reconcile/ledger_interface.py:142-169 | definition of `_parse_ledger_emacs_output`; BlankOutputNoEntries, NotAListNoEntries, EntriesAppend and CreateTransaction give its properties |
| LedgerInterface.Normalize | ledger_reconcile/ledger_interface.py:152 | definition of `" ".join(output.split())`; NormalizeStart and NormalizeCollapsed are its properties |
| LedgerInterface.BlankOutputNoEntries | ledger_reconcile/ledger_interface.py:148-149 | blank output gives no entries |
| LedgerInterface.NotAListNoEntries | ledger_reconcile/ledger_interface.py:152-155 | output whose first non-blank character is not `(` gives no entries |
| LedgerInterface.NormalizeStart | ledger_reconcile/ledger_interface.py:152-154 | the normalised text is empty iff the output is blank, and it starts with the output's first non-blank character |
| LedgerInterface.NormalizeCollapsed | ledger_reconcile/ledger_interface.py:152 | normalising leaves only single spaces between non-whitespace characters |
| LedgerInterface.StrippedLines | ledger_reconcile/ledger_interface.py:61-65 | every kept line is non-empty and neither starts nor ends with whitespace |
| LedgerInterface.InsertSorted | ledger_reconcile/ledger_interface.py:66 | inserting into a sorted list keeps it sorted |
| LedgerInterface.InsertPermutation | ledger_reconcile/ledger_interface.py:66 | inserting adds exactly one copy of the account and loses none |
| LedgerInterface.SortSorted | ledger_reconcile/ledger_interface.py:66 | sorted() gives a sorted permutation |
| LedgerInterface.AccountsSorted | ledger_reconcile/ledger_interface.py:61-66 | the accounts are in Python string order, are a permutation of the stripped non-blank lines, and carry no surrounding whitespace |
| LedgerInterface.Accounts | ledger_reconcile/ledger_interface.py:61-66 | definition of the post-processing in `get_accounts`; AccountsSorted is its property |
| LedgerInterface.BalanceFirstToken | ledger_reconcile/ledger_interface.py:126-137 | the balance is the first whitespace-separated token of the output, or "$0.00" when there is none |
| LedgerInterface.Balance | ledger_reconcile/ledger_interface.py:126-137 | definition of the post-processing in `get_cleared_and_pending_balance`; BalanceFirstToken is its property |
| Text.LStrip | ledger_reconcile/file_editor.py:198 | lstrip() removes only leading whitespace, and what is left starts with non-whitespace |
| Text.RStrip | ledger_reconcile/file_editor.py:222 | rstrip() leaves a prefix that does not end with whitespace, and only whitespace was cut |
| Text.RStripChar | ledger_reconcile/file_editor.py:234 | rstrip("\n") leaves a prefix that does not end with a newline, and only newlines were cut |
| Text.StripEmpty | ledger_reconcile/file_editor.py:178 | strip() is empty exactly for all-whitespace text |
| Text.Split | ledger_reconcile/ledger_interface.py:63 | split("\n") never returns an empty list, and no piece contains the separator |
| Text.WordsAreWords | ledger_reconcile/ledger_interface.py:152 | split() returns non-empty runs of non-whitespace |
| Text.SplitLinesConcat | ledger_reconcile/file_watcher.py:139 | readlines() pieces concatenate back to the text |
| Text.SplitLinesShape | ledger_reconcile/file_watcher.py:139 | every line but the last ends with a newline, and a newline only ever ends a line |
| Text.UniversalNewlines | ledger_reconcile/file_watcher.py:138-139 | text read in universal-newline mode contains no carriage return |
| Text.LexTotal | ledger_reconcile/ledger_interface.py:66 | Python's string order is total |
| Text.LexTransitive | ledger_reconcile/ledger_interface.py:66 | Python's string order is transitive |
| Text.DecimalRoundTrip | ledger_reconcile/sexp_parser.py:67 | int() of a decimal spelling gives the number back |

## Left out

- Running `ledger` (`subprocess.run` in `get_accounts`, `get_uncleared_transactions_for_account` and `get_cleared_and_pending_balance`): each operation takes the command's standard output as text. The CalledProcessError fallbacks (an empty list, `"$0.00"`) are not modelled.
- LedgerInterface.DateOf: the date keeps its integer seconds. `datetime.fromtimestamp` and `strftime` are left out because they depend on the time zone and the platform. So are their ValueError (raised as RuntimeError), OverflowError and OSError for out-of-range times.
- LedgerInterface.LedgerPosting, LedgerInterface.ReconciliationEntry: the fields Python annotates as str or int hold the decoded S-expression value. The source stores whatever the parser produced, without conversion.
- LedgerInterface.ParseLedgerEmacsOutput: the `if transaction:` test never skips anything, because every element that reaches it has five or more values. The model therefore has no branch for a None result.
- The watchdog Observer, its thread and the event handlers (`on_modified`, `on_moved`, `on_created`), together with their path and symlink resolution and `time.sleep(0.1)`. A change event is a call of `HandleFileChange`, and `Start` and `Stop` only toggle a running flag.
- Time: clocks and mtimes are integers passed in as parameters. Float mtimes are not modelled.
- FileWatcher.SafeFileEditor.WriteLinesSafely: an OSError is a parameter saying where the write fails. A failure of `unlink` itself, and non-atomic renames, are not modelled.
- FileEditor.LedgerFileEditor.UpdatePostingsStatus: another program's write between the read and the write is a parameter applied before `mark_internal_change`. Other interleavings of concurrent writers are not modelled.
- FileEditor.LedgerFileEditor.UpdatePostingsStatus: `new_status` is restricted to "", "!" or "*", the values the source documents. `expected_current_status` may be any string.
- FileEditor.LedgerFileEditor.UpdatePostingsStatus: the IndexError/ValueError/OSError catch is not modelled separately. Validation rules out index errors. The read and write faults that matter are the missing file and the write Fault.
- Text decoding: a file is a string of characters, and the UTF-8 decoding errors of `open(encoding="utf-8")` are not modelled. Universal-newline translation on read (CRLF and CR become LF) is modelled. Writing does no newline translation.
- SExpParser.ParseAtom, Text.IsDigit, LedgerLines.HasDatePrefix: `str.isdigit` and the `\d` of the date patterns `\d{4}[-/]\d{2}[-/]\d{2}` (file_editor.py lines 162, 181, 214, 227 and 236) are modelled for ASCII digits only. Python matches any Unicode decimal digit there.
- SExpParser.Decode: deeply nested input makes the recursive `parse` and `_parse_list` raise RecursionError. The model has no recursion limit and returns a value.
- SExpParser.ParseList: where `_parse_list` loops forever, the model returns the Diverges outcome instead of running forever. On such input the source keeps appending None without end.
- FileEditor.ApplyStatusUpdates: the two posting loops of `_apply_status_updates` (the one that clears every marker and the one that writes the final statuses) are one method, UpdatePostingLines. The header branch passes it an empty marker for every posting.
- The UI (`reconcile_interface.py`), the account selector, the balance-target parser, the command line, the preview scripts and the tests are outside this model.
