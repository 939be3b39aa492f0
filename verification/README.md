# Szotar core, modelled in Dafny

Szotar is a dictionary and vocabulary-list application. This project models four parts of it and
proves properties of the model:

- **The positional UTF-8 line reader** (`Utf8LineReader`). It reads a UTF-8 file through a 1024-byte
  buffer and yields one line per call. It reports the byte offset where each line starts, so that a
  later reader can resume there. It skips a byte-order mark (section 6 of RFC 3629) only at the
  start of the file. A seek lands inside the buffered window when it can, and otherwise repositions
  the stream.
  - `line_spec.dfy` (module `LineSpec`) is a pure specification. The reader state is a `Cursor`:
    the offset of the buffer start, the read position, the end of the buffered bytes, and the
    end-of-stream flag. The module proves what a line is: the bytes up to the next LF, without the
    CRs the reader drops.
  - `line_reader.dfy` (module `LineReader`) is the reader itself: a class over a byte array and a
    seekable stream, with every method proved against `LineSpec`.
  - UTF-8 decoding is a function given to the constructor. A line's text is that function applied to
    the bytes the reader hands on for the line.
- **The undo list** (`UndoList<T>`, `undo.dfy`). It keeps an undo stack and a redo stack of commands.
  Undo and Redo move items between the stacks one at a time.
- **The row logic of the list editor** (`ListBuilder`, `list_builder.dfy`):
  - CSV copying, with a reader for its output;
  - finding the row to scroll to;
  - turning pasted lines into entries;
  - the sort-column memory of the grid header.
- **The word-list entry** (`WordListEntry`, `word_list.dfy`). It is a phrase/translation pair with
  null-rejecting setters, property access by enumeration value, an owner, and `Clone`. The owning
  word list is abstract (database-backed). It is modelled as the log of requests the entries send it.

C#'s `null` is `None` of `Option`. An exception is a returned value: `ok = false`, a `thrown`
exception value, or a `Failure` result.

Four behaviours of the reader follow from its code rather than from what its comments suggest;
the model keeps them as the code has them:

- A CR that is the last byte of a buffer load is dropped, even when no LF follows it, although the
  comment at Client/Szotar.Core/Base/LineReader.cs:168 says that a CR not followed by an LF counts
  as a character. The scan (LineReader.cs:155-157) leaves `lbChars` at 1 after such a CR, and the
  decode at LineReader.cs:178 then leaves that byte out. The same holds for a CR that is the last
  byte of the file. Elsewhere a lone CR is kept as text. See `LineSpec.Dropped` and
  `LineSpec.FinalCrDropped`.
- After a seek to a nonzero offset at or past the end of the data, the next read returns one empty
  line, and only the read after that returns null. Seek clears `EndOfStream` (LineReader.cs:111),
  and ReadLine returns null only when the flag is already set on entry (LineReader.cs:135). A file that holds only a byte-order mark
  likewise reads as one empty line. See `LineSpec.ReadAtEndOfData`. A seek to 0 instead repeats the
  byte-order-mark load (LineReader.cs:118-124), so on an empty file the next read returns null. See
  `LineSpec.SeekToStartOfEmptyFile`.
- A reader opened at a byte offset (LineReader.cs:52-59) starts with line number 0, which the shared
  constructor sets at LineReader.cs:42, whereas a seek to an arbitrary offset sets it to -1
  (LineReader.cs:114).
- A line with a CR inside it can read differently after a seek to its start than from a reader
  opened there. A seek to an offset inside the buffered bytes keeps them (LineReader.cs:104-106), so
  that reader's next load starts where the buffered bytes end. If the last buffered byte is a CR
  inside the line, the scan ends that load on it and the decode drops it (LineReader.cs:155-157,
  :178). A reader opened at the same offset (LineReader.cs:52-59) loads from there, its load
  boundary falls elsewhere, and it keeps the CR. See `LineSpec.ResumeAfterSeekCanDiffer`; this is
  why `LineSpec.SeekThenReadLine` and `LineSpec.ResumeReadsSameLine` apply only to lines whose only
  CR is right before their LF.

## Model

| member | source | states |
|---|---|---|
| LineSpec.ReadSize | Client/Szotar.Core/Base/LineReader.cs:207 | one stream read returns all remaining bytes up to 1024; 0 exactly when the stream is at or past the end |
| LineSpec.Refill | Client/Szotar.Core/Base/LineReader.cs:205-215 | after a buffer reload, offset is 0 and the buffer holds the next read; end of stream is set exactly when the read returned nothing |
| LineSpec.FindLF | Client/Szotar.Core/Base/LineReader.cs:152-171 | the index of the first LF in a range, or the end of the range when there is none |
| LineSpec.ScanChunk | Client/Szotar.Core/Base/LineReader.cs:150-171 | the scan of one buffer load stops just past the first LF, or at the end of the buffered bytes; the LF is found exactly when the chunk has one; lbChars is 2 only for CR LF, 1 for a lone LF, and 1 for a CR that ends the chunk |
| LineSpec.Gather | Client/Szotar.Core/Base/LineReader.cs:142-187 | the outer loop keeps the reader invariant and moves forward; the bytes handed on are never more than the bytes passed over |
| LineSpec.GatherByChunks | Client/Szotar.Core/Base/LineReader.cs:142-187 | the outer loop is one chunk step followed by the rest of the loop from the refilled buffer |
| LineSpec.GatherResumes | Client/Szotar.Core/Base/LineReader.cs:142-187 | a pass of the outer loop that does not end the line moves its bytes from the rest of the line to the bytes collected so far; the two together, and where the line ends, stay the same |
| LineSpec.ChunkBytes | Client/Szotar.Core/Base/LineReader.cs:178 | the bytes decoded from one buffer load are the scanned bytes minus the held-back terminator bytes |
| LineSpec.NextLine | Client/Szotar.Core/Base/LineReader.cs:132-203 | a read reports the position at entry; it returns null exactly at end of stream and then changes nothing; otherwise it keeps the invariant and leaves a non-empty buffer unless at end of stream |
| LineSpec.StartCursor | Client/Szotar.Core/Base/LineReader.cs:90-97 | opening at the start loads one buffer; the position is 3 exactly when the file begins with EF BB BF, and 0 otherwise |
| LineSpec.SeekCursor | Client/Szotar.Core/Base/LineReader.cs:99-125 | a seek to 0 equals a fresh open; a target inside the buffered window keeps the buffer; any other target empties the buffer at the target |
| LineSpec.LineEnd | Client/Szotar.Core/Base/LineReader.cs:152-171 | the offset of the LF that ends the line starting at a position, or the end of the data |
| LineSpec.GatherStrips | Client/Szotar.Core/Base/LineReader.cs:142-187 | the bytes handed on for a line are its bytes up to the LF without the dropped CRs; the scan stops just past the LF; end of stream exactly when no LF was left |
| LineSpec.NextLineReadsOneLine | Client/Szotar.Core/Base/LineReader.cs:132-203 | a read returns the line at the position without its dropped CRs and moves past its LF; end of stream is set exactly when the position reaches the end of the data |
| LineSpec.LineWithoutCR | Client/Szotar.Core/Base/LineReader.cs:152-171 | a line with no CR is returned exactly as it stands before its LF, whatever the buffer boundaries |
| LineSpec.CrLfStripped | Client/Szotar.Core/Base/LineReader.cs:145-171 | a CR LF terminator is stripped as a unit, also when the CR and the LF arrive in different buffer loads |
| LineSpec.LineInsideBuffer | Client/Szotar.Core/Base/LineReader.cs:152-180 | when the line and its LF are buffered, only a CR right before the LF is removed; every other CR stays as text |
| LineSpec.FinalCrDropped | Client/Szotar.Core/Base/LineReader.cs:155-157 | a CR that is the last byte of the file is not part of the last line |
| LineSpec.ReadAtEndOfData | Client/Szotar.Core/Base/LineReader.cs:185-196 | a reader at or past the end of the data returns one empty line and then null |
| LineSpec.SeekToStartOfEmptyFile | Client/Szotar.Core/Base/LineReader.cs:118-124 | on an empty file, a seek to 0 repeats the byte-order-mark load, which sets end of stream, so the next read returns null; a seek to any other offset leaves end of stream clear |
| LineSpec.ResumeReadsSameLine | Client/Szotar.Core/Base/LineReader.cs:52-59 | a line whose only CR is right before its LF reads the same, and ends at the same offset, from every reader positioned at its start, whatever that reader has buffered |
| LineSpec.SeekThenReadLine | Client/Szotar.Core/Base/LineReader.cs:99-125 | seeking to a nonzero offset that starts a line whose only CR is right before its LF gives the same line as opening a reader at that offset |
| LineSpec.ResumeAfterSeekCanDiffer | Client/Szotar.Core/Base/LineReader.cs:99-125 | after a seek into the buffered bytes whose last byte is a CR inside the line, followed by a byte that is neither CR nor LF, the line read differs from the one a reader opened at that offset reads |
| LineSpec.NoLineAfterFinalTerminator | Client/Szotar.Core/Base/LineReader.cs:189-196 | when the data ends in an LF, the read after the last line returns null, not an extra empty line |
| LineSpec.HiByeExample | Client/Szotar.Core/Base/LineReader.cs:132-203 | EF BB BF "hi" CR LF "bye" reads "hi" at offset 3, then "bye" at offset 7, then null; a seek to 7 reads "bye" again |
| LineReader.ByteStream.Seek | Client/Szotar.Core/Base/LineReader.cs:108 | the stream is repositioned to any non-negative offset, also past the end; a negative offset is refused |
| LineReader.ByteStream.Read | Client/Szotar.Core/Base/LineReader.cs:207 | a read copies the next bytes of the file into the buffer and advances the stream by the count it returns |
| LineReader.ScanBytes | Client/Szotar.Core/Base/LineReader.cs:152-171 | the byte loop over the buffer has the outcome of the specification's chunk scan |
| LineReader.Utf8LineReader.constructor | Client/Szotar.Core/Base/LineReader.cs:48-50 | a reader opened at the start is at the specification's start cursor, with line number 0 |
| LineReader.Utf8LineReader.AtOffset | Client/Szotar.Core/Base/LineReader.cs:52-59 | a reader opened at a byte offset has an empty buffer at that offset and no BOM check |
| LineReader.Utf8LineReader.BufferNextPart | Client/Szotar.Core/Base/LineReader.cs:205-215 | a reload leaves the reader at the specification's refilled cursor and returns false exactly when it set end of stream |
| LineReader.Utf8LineReader.SkipBOM | Client/Szotar.Core/Base/LineReader.cs:90-97 | after the first load the reader is at the specification's start cursor |
| LineReader.Utf8LineReader.Seek | Client/Szotar.Core/Base/LineReader.cs:99-125 | a seek moves the reader to the specification's seek cursor and makes the line number unknown (-1); a negative target changes nothing |
| LineReader.Utf8LineReader.ScanBuffer | Client/Szotar.Core/Base/LineReader.cs:152-171 | offset and position advance together to the specification's scan stop; the buffer start does not move |
| LineReader.Utf8LineReader.NextChunk | Client/Szotar.Core/Base/LineReader.cs:143-186 | one pass of the outer loop is the specification's chunk step |
| LineReader.Utf8LineReader.ChunkInBuffer | Client/Szotar.Core/Base/LineReader.cs:178 | the buffer slice given to the decoder holds exactly the specification's chunk bytes |
| LineReader.Utf8LineReader.GatherLine | Client/Szotar.Core/Base/LineReader.cs:142-187 | the outer loop collects the specification's line bytes and stops at its cursor |
| LineReader.Utf8LineReader.ReadLine | Client/Szotar.Core/Base/LineReader.cs:132-203 | a read returns the decoded specification line and its start offset and leaves the reader at the specification's next cursor; the line number goes up by one unless it is unknown or the stream had ended |
| LineReader.Utf8LineReader.ReadLineText | Client/Szotar.Core/Base/LineReader.cs:127-130 | as ReadLine, without the offset |
| Undo.ReversedTwice | Client/Szotar.Core/Base/Undo.cs:19-41 | newest-first order reversed again is the original order |
| Undo.Transfer | Client/Szotar.Core/Base/Undo.cs:23-28 | moving n items one at a time shortens the source stack by n and lengthens the target stack by n |
| Undo.TransferMovesTop | Client/Szotar.Core/Base/Undo.cs:23-28 | moving n items keeps the bottom of the source stack and puts its top n items on the target, newest first |
| Undo.TransferBack | Client/Szotar.Core/Base/Undo.cs:19-41 | Undo(n) then Redo(n), and Redo(n) then Undo(n), restore both stacks |
| Undo.UndoList.constructor | Client/Szotar.Core/Base/Undo.cs:15-17 | a new list has no undo and no redo items |
| Undo.UndoList.UndoItemCount | Client/Szotar.Core/Base/Undo.cs:43 | the number of commands on the undo stack, which is the largest count Undo accepts |
| Undo.UndoList.RedoItemCount | Client/Szotar.Core/Base/Undo.cs:44 | the number of commands on the redo stack, which is the largest count Redo accepts |
| Undo.UndoList.UndoCommand | Client/Szotar.Core/Base/Undo.cs:46-53 | the newest undo item, or null exactly when there is none |
| Undo.UndoList.RedoCommand | Client/Szotar.Core/Base/Undo.cs:62-69 | the newest redo item, or null exactly when there is none |
| Undo.UndoList.UndoItemDescriptionsAsWritten | Client/Szotar.Core/Base/Undo.cs:55-60 | the enumeration as written yields only the newest description and then indexes past the end of a non-empty list |
| Undo.UndoList.UndoItemDescriptions | Client/Szotar.Core/Base/Undo.cs:55-60 | with the index counting down, every undo description is yielded, newest first, starting with the undo command's |
| Undo.UndoList.RedoItemDescriptionsAsWritten | Client/Szotar.Core/Base/Undo.cs:71-76 | as written, only the newest redo description is yielded before the index runs past the end |
| Undo.UndoList.RedoItemDescriptions | Client/Szotar.Core/Base/Undo.cs:71-76 | with the index counting down, every redo description is yielded, newest first |
| Undo.UndoList.Undo | Client/Szotar.Core/Base/Undo.cs:19-29 | a count above the undo items is refused before anything changes; otherwise the top count items are undone newest first and pushed onto the redo stack in that order; the total number of items is kept |
| Undo.UndoList.Redo | Client/Szotar.Core/Base/Undo.cs:31-41 | the mirror image of Undo, from the redo stack onto the undo stack |
| Undo.UndoList.Do | Client/Szotar.Core/Base/Undo.cs:78-82 | the item becomes the newest undo item and the redo stack is emptied |
| Undo.UndoList.Clear | Client/Szotar.Core/Base/Undo.cs:84-87 | both stacks are emptied |
| ListBuilder.NeedsQuotesExactly | Client/Szotar.WindowsForms/Forms/ListBuilder.cs:360-361 | a field is quoted exactly when some character of it is a double quote, a comma or an LF; adding a CR never changes the decision |
| ListBuilder.EscapeDoublesQuotes | Client/Szotar.WindowsForms/Forms/ListBuilder.cs:364 | Escape (the Replace of a double quote by two) adds one character per double quote and doubles the number of quotes; a field without quotes is unchanged |
| ListBuilder.RenderFieldShape | Client/Szotar.WindowsForms/Forms/ListBuilder.cs:362-366 | a field that needs quotes is written between double quotes; any other field is written unchanged |
| ListBuilder.AppendField | Client/Szotar.WindowsForms/Forms/ListBuilder.cs:362-366 | appending one field (opening quote if needed, escaped text, closing quote) adds exactly its rendered form; a field with nothing to quote or escape is appended as it is |
| ListBuilder.RenderRowShape | Client/Szotar.WindowsForms/Forms/ListBuilder.cs:356-376 | each entry is one line ending in CR LF; an entry with nothing to quote is written as phrase, comma, translation, CR LF |
| ListBuilder.CsvLength | Client/Szotar.WindowsForms/Forms/ListBuilder.cs:353-377 | the text is empty exactly when the list is, and every entry adds at least a comma and a CR LF |
| ListBuilder.CsvAppendFields | Client/Szotar.WindowsForms/Forms/ListBuilder.cs:356-377 | appending an entry's phrase field, comma, translation field and line break to the text of a list gives the text of that list with the entry added at the end |
| ListBuilder.CopyAsCsv | Client/Szotar.WindowsForms/Forms/ListBuilder.cs:353-381 | the text is each entry in list order as phrase field, comma, translation field, CR LF; it is copied exactly when it is non-empty, which is exactly when the list is non-empty |
| ListBuilder.ReadBareField | Client/Szotar.WindowsForms/Forms/ListBuilder.cs:360-361 | a field written without quotes holds no quote, comma or LF, so it reads back up to the next delimiter |
| ListBuilder.ReadQuotedField | Client/Szotar.WindowsForms/Forms/ListBuilder.cs:362-366 | a quoted field with doubled quotes reads back as the original field |
| ListBuilder.ReadRenderedField | Client/Szotar.WindowsForms/Forms/ListBuilder.cs:360-366 | every rendered field reads back as itself, whether or not it was quoted |
| ListBuilder.ReadRenderedRow | Client/Szotar.WindowsForms/Forms/ListBuilder.cs:356-377 | every rendered entry reads back as the same phrase and translation |
| ListBuilder.CsvReadsBack | Client/Szotar.WindowsForms/Forms/ListBuilder.cs:353-381 | the copied CSV text reads back as exactly the list it was made from (RFC 4180-style quoting; a field whose only break character is a CR is left unquoted) |
| ListBuilder.FirstMatch | Client/Szotar.WindowsForms/Forms/ListBuilder.cs:466-471 | the first index whose phrase and translation both match; none exactly when no entry matches |
| ListBuilder.ScrollToItem | Client/Szotar.WindowsForms/Forms/ListBuilder.cs:465-473 | returns true exactly when some entry matches both texts, and then scrolls to the first one |
| ListBuilder.ScrollToResult | Client/Szotar.WindowsForms/Forms/ListBuilder.cs:438-458 | scrolls to the hint when it is in range and still shows the entry; else to the first match; else to the hint as given; else nowhere |
| ListBuilder.PastedRows | Client/Szotar.WindowsForms/Forms/ListBuilder.cs:502-504 | at most one entry per pasted line |
| ListBuilder.PastedRowsQualify | Client/Szotar.WindowsForms/Forms/ListBuilder.cs:502-504 | no entry comes out exactly when no line has two fields, and one entry per line exactly when every line has |
| ListBuilder.PastedRowsAppend | Client/Szotar.WindowsForms/Forms/ListBuilder.cs:502-504 | the entries taken from two runs of pasted lines are the entries of the first run followed by those of the second |
| ListBuilder.PastedRowsAllQualify | Client/Szotar.WindowsForms/Forms/ListBuilder.cs:502-504 | when every line qualifies, entry j is fields 0 and 1 of line j |
| ListBuilder.Paste | Client/Szotar.WindowsForms/Forms/ListBuilder.cs:501-510 | the qualifying entries are inserted at the given row, or at the end of the list when there is none; nothing is inserted when no line qualifies |
| ListBuilder.Click | Client/Szotar.WindowsForms/Forms/ListBuilder.cs:161-181 | clicking the remembered column flips the direction, any other column resets it to ascending; only columns 0 and 1 sort and become the sort column |
| ListBuilder.ClickTwiceReverses | Client/Szotar.WindowsForms/Forms/ListBuilder.cs:164-166 | two clicks on the same sortable column sort in opposite directions |
| ListBuilder.ClickAfterChangeAscends | Client/Szotar.WindowsForms/Forms/ListBuilder.cs:183-184 | after the list changed, the next header click sorts ascending |
| ListBuilder.SortState.constructor | Client/Szotar.WindowsForms/Forms/ListBuilder.cs:159-160 | no sort column and a false direction flag at first |
| ListBuilder.SortState.ColumnHeaderClicked | Client/Szotar.WindowsForms/Forms/ListBuilder.cs:161-181 | the header click updates the sort memory and starts the sort that Click describes |
| ListBuilder.SortState.ListChanged | Client/Szotar.WindowsForms/Forms/ListBuilder.cs:183-188 | any change to the list forgets the sort column and keeps the direction flag |
| WordLists.WordList.SetProperty | Client/Szotar.Core/Base/WordList.cs:81 | a property store request reaches the owning list |
| WordLists.WordList.Insert | Client/Szotar.Core/Base/WordList.cs:48 | an insert request reaches the owning list |
| WordLists.WordListEntry.constructor | Client/Szotar.Core/Base/WordList.cs:147-150 | a blank entry has the given owner and two empty texts |
| WordLists.WordListEntry.WithTexts | Client/Szotar.Core/Base/WordList.cs:152-156 | the given owner and texts, a null text becoming "" |
| WordLists.WordListEntry.AddTo | Client/Szotar.Core/Base/WordList.cs:158-161 | the entry takes the new owner, which is asked to insert it at the index |
| WordLists.WordListEntry.SetPhraseProperty | Client/Szotar.Core/Base/WordList.cs:163-173 | null throws ArgumentNullException and changes nothing; otherwise the phrase is set and an owner, if any, is asked to store it |
| WordLists.WordListEntry.SetPhrase | Client/Szotar.Core/Base/WordList.cs:175-181 | null throws ArgumentNullException and changes nothing; otherwise only the phrase changes, and reads back through GetProperty |
| WordLists.WordListEntry.SetTranslationProperty | Client/Szotar.Core/Base/WordList.cs:183-193 | null throws ArgumentNullException and changes nothing; otherwise the translation is set and an owner, if any, is asked to store it |
| WordLists.WordListEntry.SetTranslation | Client/Szotar.Core/Base/WordList.cs:195-201 | null throws ArgumentNullException and changes nothing; otherwise only the translation changes, and reads back through GetProperty |
| WordLists.WordListEntry.GetProperty | Client/Szotar.Core/Base/WordList.cs:212-220 | the field the enumeration value selects; ArgumentException exactly for any other value |
| WordLists.WordListEntry.SetProperty | Client/Szotar.Core/Base/WordList.cs:222-232 | never completes normally: a named property with a value is set, and then ArgumentException is thrown anyway; null gives ArgumentNullException and other values ArgumentException, with nothing changed |
| WordLists.WordListEntry.SetOwner | Client/Szotar.Core/Base/WordList.cs:234-242 | the owner becomes the value; assigning the current owner changes nothing |
| WordLists.WordListEntry.Clone | Client/Szotar.Core/Base/WordList.cs:244-246 | a new entry with the same owner, phrase and translation, which answers every GetProperty alike |

## Left out

- File handling: opening the `FileStream` with its access and share modes, `Dispose` and the
  finalizer. The file is an immutable byte sequence with a read cursor.
- Short reads: a stream read returns all remaining bytes up to 1024, as a regular file does. A
  stream that returns fewer is not modelled.
- The UTF-8 decoder: it is a function from a line's bytes to its text. How the decoder carries a
  multi-byte character across buffer loads is not modelled.
- `LineReader.Utf8LineReader.ReadLine`: always returns the decoded line, whereas in the source it
  can throw. `decodedChars` holds 1024 chars (LineReader.cs:173-174), but a decoder carrying part of
  a 4-byte character from the previous load (a load ending in F0 9F 98, say) must write a surrogate
  pair plus 1023 chars from a following full 1024-byte load with no LF that starts with 80. That is
  1025 chars, and `GetChars` at LineReader.cs:178 throws an ArgumentException. The decoder is a
  function here, so this case is not modelled.
- `LineReader.Utf8LineReader.AtOffset`: the offset is a `nat`. The stream's refusal of a negative
  offset is modelled only for `Seek`.
- Arithmetic overflow: `checked` arithmetic in `Seek` and the 64-bit line counter are unbounded
  integers here.
- `ICommand.Do`, `Undo` and `Redo` effects: commands are opaque values. `Undo` and `Redo` return
  the commands they ask to act, in order. `Do` records nothing of its `item.Do()` call
  (Undo.cs:79); its item is the one it pushes.
- The sorts themselves (`WordList.Sort` with a culture-aware, case-insensitive comparison): the
  model records the requested column and direction only.
- Grid, clipboard, message boxes, layout and the timer-driven control-update debounce of the list
  editor. `ScrollToPosition` is the index the model returns.
- Parsing of pasted text into lines and fields, which happens before `Paste`. Pasted fields are
  never null here, so the null-to-"" replacement of the entry constructor does not arise.
- The `WordList.Insert` effect of `Paste`: the model returns the insertion index and entries.
- Property-changed events (`RaisePropertyChanged`) and the owner's database-backed storage. The
  owner records the store and insert requests it receives.
- `WordLists.WordListEntry.SetProperty`: values are strings or null. A non-string value, which the
  source's cast rejects with InvalidCastException, is not modelled.
- `WordLists.WordListEntry.SetOwner`: the debug-only assertion that the new owner does not already
  list the entry is not modelled.
- The abstract members of `WordList` (list operations, tags, sync fields): they have no
  implementation to model.

## Findings

| source | as written | input that shows it | evidently intended | confidence | as-written member | corrected member |
|---|---|---|---|---|---|---|
| Client/Szotar.Core/Base/Undo.cs:57 | the loop starts at the newest undo item and increments the index | any non-empty undo list: the newest description is yielded, then index Count is read and throws ArgumentOutOfRangeException | decrement the index, yielding every description newest first | high, not executed | Undo.UndoList.UndoItemDescriptionsAsWritten | Undo.UndoList.UndoItemDescriptions |
| Client/Szotar.Core/Base/Undo.cs:73 | the same increment in the redo enumeration | any non-empty redo list | decrement the index | high, not executed | Undo.UndoList.RedoItemDescriptionsAsWritten | Undo.UndoList.RedoItemDescriptions |
