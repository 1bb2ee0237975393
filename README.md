# oatpp multipart `StatefulParser`, modelled in Dafny

This project models the incremental MIME multipart body parser of oatpp,
`src/oatpp/web/mime/multipart/StatefulParser.cpp`. The parser is fed a body
one chunk at a time. `parseNext` passes the unconsumed rest of each chunk to
the sub-scanner for the current state:

- the boundary matcher (`parseNext_Boundary`) compares bytes with the
  expected delimiter sample;
- the after-boundary discriminator (`parseNext_AfterBoundary`) tells `--`
  (end of the body) from CR LF (another part);
- the header-section scanner (`parseNext_Headers`) buffers header bytes
  until CR LF CR LF, then hands them to the header-line parser and to
  `onPartHeaders`, which extracts the part's `name`;
- the data scanner (`parseNext_Data`) passes body bytes to `onPartData` up
  to the next CR that may start a delimiter.

The parser resumes wherever the previous chunk ended. The delimiter and the
two bytes after it may straddle chunks, and so may a header section.

## How the model is built

- `Parser.StatefulParser` is a class with the C++ object's fields: state,
  boundary cursor, reading-body, check-for-boundary and finishing flags, the
  32-bit header-end accumulator, the headers buffer, part index and part name.
  - Each scanner is a method over a `seq<bv8>` slice.
  - `parseNext` is a `while` loop over the position.
  - The header loop shifts the accumulator byte by byte (`Parser.ShiftHeaderBytes`).
  - The two callbacks append to an `events` sequence, as `PartHeaders(name)` and `PartData(bytes)`.
  - Every `throw` becomes a `Failed(error)` verdict.
- `Scanners` states the same behaviour as functions on a snapshot of the
  fields (a `Cursor`), one step function per scanner, with the dispatcher
  `Scanners.ParseNext`.
  - Every method of the class is proved to leave the fields, the recorded
    callbacks and its result exactly as the step function says.
  - The properties are then proved about the functions, in `BoundaryProps`,
    `DataProps`, `HeadersProps`, `BodyProps`, `DispatchProps` and `Quirks`.
  - `BodyProps` proves that body bytes which only resemble a delimiter
    survive: over a run that stays in a body, no byte is lost, changed or
    reordered, even when a delimiter prefix is held back across chunks. A
    run that ends the body delivers the same, up to the delimiter ending it.
- `HeaderWindow` proves the bit-level claim: after every header byte, the
  accumulator holds the last four bytes seen, and it equals `0x0D0A0D0A`
  exactly when those bytes are CR LF CR LF.
- `PartName` is the name logic of `onPartHeaders`:
  - it looks up `Content-Disposition` and finds its first `name=`;
  - a quoted token goes to the caret's enclosed-string reader;
  - otherwise the token runs to the first space, tab, LF, CR or form feed.

Three points where the code differs from what one might expect of a
multipart parser; the model follows the code:

- The block handed to the header-line parser is the section up to, but not
  including, the final LF of CR LF CR LF. The preceding CR LF CR stays in
  the block. The terminator is not removed as a whole.
- Delimiter bytes are compared exactly. The comparison uses the caret's
  `isAtText(..., true)`, where `true` means "advance on a match", not
  case-insensitive.
- With the check flag off, the data scanner skips the first CR anywhere in
  the chunk, not only a CR at its start.

The code has three quirks, kept as written and shown in `Quirks`:

1. **After-boundary byte count.** If a chunk ends right after the first byte
   following a delimiter, the next call reports two bytes consumed for the
   second byte. So `parseNext` reports 2 for a one-byte chunk, or never scans
   byte 1 of a longer chunk.
2. **Skipped CR after a split mismatch.** A delimiter candidate can straddle
   chunks and then fail to match. The data scanner that follows then passes
   the chunk's first CR as body, even when a real delimiter starts there.
3. **`name=` inside `filename=`.** The first `name=` of a value may be the
   one inside `filename=`.

Because of the first two quirks, `parseNext` does not in general give the
same callbacks however the body is cut into chunks. The model claims this
independence only for the delimiter match (`BoundaryProps.BoundarySplitMatch`)
and the header section (`HeadersProps.HeadersSplit`).

## Model

| member | source | states |
|---|---|---|
| Bytes.IndexOf | src/oatpp/web/mime/multipart/StatefulParser.cpp:215-219 | the caret's `findChar`: the index of the first occurrence of the byte at or after the start, with none before it, or None when there is none |
| Bytes.FindText | src/oatpp/web/mime/multipart/StatefulParser.cpp:43 | the caret's `findText`: the start of the first occurrence of the pattern, or None when it occurs nowhere |
| Bytes.SkipUntil | src/oatpp/web/mime/multipart/StatefulParser.cpp:54 | the caret's `findCharFromSet`: the first index holding a stop byte, or the end; no stop byte before it |
| HeaderWindow.ShiftIn | src/oatpp/web/mime/multipart/StatefulParser.cpp:179-180 | shifting a byte into the 32-bit accumulator drops its oldest byte and appends the new one |
| HeaderWindow.MatchesTerminator | src/oatpp/web/mime/multipart/StatefulParser.cpp:182 | the accumulator equals `HEADERS_SECTION_END` exactly when its four bytes are CR LF CR LF |
| HeaderWindow.AccumulatorTracksWindow | src/oatpp/web/mime/multipart/StatefulParser.cpp:179-182 | if the accumulator holds the last four bytes of a history, after one more byte it holds the last four of the longer history, and equals the constant exactly when they are CR LF CR LF |
| HeaderWindow.AccumulatorTracksScan | src/oatpp/web/mime/multipart/StatefulParser.cpp:177-182 | the same at byte `i` of a chunk being scanned |
| HeaderWindow.FirstTerminator | src/oatpp/web/mime/multipart/StatefulParser.cpp:177-184 | the index of the first chunk byte that completes CR LF CR LF, with no earlier byte completing it, or None when no byte does |
| HeaderWindow.HistoryExtends | src/oatpp/web/mime/multipart/StatefulParser.cpp:207 | buffering a chunk without a terminator keeps the window equal to the last four section bytes, and keeps the section free of terminators |
| PartName.NameToken | src/oatpp/web/mime/multipart/StatefulParser.cpp:43-76 | the name read after the first `name=`; its only errors are a missing name and an unparsable quoted name |
| PartName.NameTokenMissing | src/oatpp/web/mime/multipart/StatefulParser.cpp:74-76 | the name is reported missing exactly when the value holds no `name=` at all |
| PartName.NameTokenBare | src/oatpp/web/mime/multipart/StatefulParser.cpp:52-55 | after the first `name=` with no quote, the name is the token up to the first space, tab, LF, CR or form feed, or up to the end |
| PartName.NameTokenQuoted | src/oatpp/web/mime/multipart/StatefulParser.cpp:48-72 | after the first `name=` with a `"` or `'`, the name is what the enclosed-string reader returns for that quote; when it returns nothing, the name is unparsable |
| PartName.PartNameOf | src/oatpp/web/mime/multipart/StatefulParser.cpp:38-80 | missing `Content-Disposition` is an error exactly when the header is absent; otherwise the result is the name token of its value |
| Scanners.BoundaryStepOk | src/oatpp/web/mime/multipart/StatefulParser.cpp:91-139 | the boundary matcher keeps the invariant, so the cursor stays below the sample length; consumes at most the chunk; moves on when it consumes nothing |
| Scanners.AfterBoundaryStepOk | src/oatpp/web/mime/multipart/StatefulParser.cpp:141-173 | the after-boundary step keeps the invariant, consumes 1 or 2 bytes and makes no callback; it reports more than it was given only in the split case |
| Scanners.HeaderWindowStart | src/oatpp/web/mime/multipart/StatefulParser.cpp:160-162 | a zeroed accumulator with an empty buffer satisfies the header-window invariant |
| Scanners.HeadersStepOk | src/oatpp/web/mime/multipart/StatefulParser.cpp:175-209 | the header scanner keeps the invariant and consumes between 1 byte and the whole chunk |
| Scanners.HeadersBufferedOk | src/oatpp/web/mime/multipart/StatefulParser.cpp:207-208 | buffering a chunk without a terminator keeps the header-window invariant |
| Scanners.StopCR | src/oatpp/web/mime/multipart/StatefulParser.cpp:215-219 | the CR the data scanner stops at is a CR in the chunk; with the check flag on it is the first one |
| Scanners.DataStepOk | src/oatpp/web/mime/multipart/StatefulParser.cpp:211-235 | the data scanner always succeeds, keeps the invariant, consumes at most the chunk, and lowers the rank when it consumes nothing |
| Scanners.ScanOk | src/oatpp/web/mime/multipart/StatefulParser.cpp:243-255 | every successful scanner call keeps the invariant; one that consumes nothing lowers the rank; only the split after-boundary case overshoots the chunk |
| Scanners.DispatchStops | src/oatpp/web/mime/multipart/StatefulParser.cpp:256-264 | the dispatcher returns the position unchanged once the chunk is used up or the body is done |
| Scanners.DispatchOnce | src/oatpp/web/mime/multipart/StatefulParser.cpp:241-262 | one turn of the loop: the run from `pos` is the scanner's step followed by the run from `pos + n`, or the failure |
| Parser.ShiftHeaderBytes | src/oatpp/web/mime/multipart/StatefulParser.cpp:177-184 | the header loop stops at the first byte completing CR LF CR LF, leaving the accumulator at the terminator; otherwise the accumulator holds the last four bytes |
| Parser.StatefulParser.OnPartData | src/oatpp/web/mime/multipart/StatefulParser.cpp:84-89 | the data callback is recorded with its bytes |
| Parser.StatefulParser.OnPartHeaders | src/oatpp/web/mime/multipart/StatefulParser.cpp:34-82 | the part index grows by one before any check; on success the name is stored and delivered, otherwise the error is returned with name and events unchanged |
| Parser.StatefulParser.ParseNextBoundary | src/oatpp/web/mime/multipart/StatefulParser.cpp:91-139 | fields, callbacks and result are exactly `Scanners.BoundaryStep` of the fields before the call |
| Parser.StatefulParser.ParseNextAfterBoundary | src/oatpp/web/mime/multipart/StatefulParser.cpp:141-173 | fields, callbacks and result are exactly `Scanners.AfterBoundaryStep` |
| Parser.StatefulParser.ParseNextHeaders | src/oatpp/web/mime/multipart/StatefulParser.cpp:175-209 | fields, callbacks and result are exactly `Scanners.HeadersStep` |
| Parser.StatefulParser.EndHeaderSection | src/oatpp/web/mime/multipart/StatefulParser.cpp:182-203 | ending the section is exactly `Scanners.HeadersDelivered` |
| Parser.StatefulParser.ParseNextData | src/oatpp/web/mime/multipart/StatefulParser.cpp:211-235 | fields, callbacks and result are exactly `Scanners.DataStep` |
| Parser.StatefulParser.ScanRest | src/oatpp/web/mime/multipart/StatefulParser.cpp:243-255 | the switch on the state is exactly `Scanners.Scan` |
| Parser.StatefulParser.Round | src/oatpp/web/mime/multipart/StatefulParser.cpp:241-262 | one turn of the loop keeps the fields on track with the dispatcher's run over the chunk and lowers the loop measure |
| Parser.StatefulParser.ParseNext | src/oatpp/web/mime/multipart/StatefulParser.cpp:237-266 | fields, callbacks and result are exactly `Scanners.ParseNext`; the invariant holds again after a call that does not throw |
| BoundaryProps.BoundaryCompletes | src/oatpp/web/mime/multipart/StatefulParser.cpp:104-121 | a chunk starting with the rest of the delimiter consumes exactly that rest (at least 1 byte), makes no callback, and moves to the after-boundary state with the cursor 0 and reading-body off |
| BoundaryProps.BoundaryContinues | src/oatpp/web/mime/multipart/StatefulParser.cpp:104-121 | a chunk shorter than the rest of the delimiter and agreeing with it is consumed whole; the cursor advances by its length and stays below the sample length |
| BoundaryProps.BoundaryMismatch | src/oatpp/web/mime/multipart/StatefulParser.cpp:111-137 | on a mismatch inside a body, the events are exactly one `PartData` callback with the sample prefix matched so far when it is non-empty, and none otherwise. The state becomes Data with cursor 0 and the check flag off, and nothing is consumed. Outside a body the mismatch is an error |
| BoundaryProps.BoundarySplitMatch | src/oatpp/web/mime/multipart/StatefulParser.cpp:104-121 | a delimiter match split into `a` then `b` ends in the same fields and callbacks as matching `a + b`, with the same total consumed |
| DataProps.DataDeliversConsumed | src/oatpp/web/mime/multipart/StatefulParser.cpp:223-233 | the body bytes delivered are exactly the bytes consumed: on a non-empty chunk, one `PartData` callback with them when there are any and none otherwise; on an empty chunk, one empty `PartData` callback |
| DataProps.DataStopsAtCR | src/oatpp/web/mime/multipart/StatefulParser.cpp:215-234 | stopping short of the end happens only at a CR, which is not consumed, moving to Boundary with reading-body on. Consumed bytes hold no CR with the check flag on and at most one, the chunk's first CR, with it off. The flag is on afterwards |
| DataProps.DataSkipProgress | src/oatpp/web/mime/multipart/StatefulParser.cpp:216-219 | with the check flag off, the data scanner consumes at least one byte of a non-empty chunk |
| HeadersProps.HeaderBlockIsFirstSection | src/oatpp/web/mime/multipart/StatefulParser.cpp:177-186 | the chunk completes no section exactly when the section bytes so far hold no CR LF CR LF; otherwise the block is those bytes up to their first CR LF CR LF, without its final LF |
| HeadersProps.SameSectionSameBlock | src/oatpp/web/mime/multipart/StatefulParser.cpp:177-186 | the header block depends only on the section's bytes, not on where the chunk began |
| HeadersProps.HeadersDeliver | src/oatpp/web/mime/multipart/StatefulParser.cpp:182-203 | on completing the section, the part index grows by one and the buffer is cleared. The name is then delivered, the state becomes Data with the check flag on, and bytes up to and including the final LF are consumed. Otherwise the name error is the verdict |
| HeadersProps.HeadersBufferAll | src/oatpp/web/mime/multipart/StatefulParser.cpp:207-208 | a chunk that does not complete the section is buffered and consumed whole, with no callback; the window is then the last four bytes of the section |
| HeadersProps.HeadersSplit | src/oatpp/web/mime/multipart/StatefulParser.cpp:175-209 | scanning `a` (not completing the section) and then `b` ends in the same fields, callbacks and verdict as scanning `a + b`, with the same total consumed |
| BodyProps.DataKeepsBody | src/oatpp/web/mime/multipart/StatefulParser.cpp:211-235 | the data scanner delivers only `PartData`, holds nothing back, and its delivered bytes are exactly the bytes it consumed |
| BodyProps.BoundaryKeepsBody | src/oatpp/web/mime/multipart/StatefulParser.cpp:104-134 | inside a body the boundary matcher never fails. A partial match holds the matched delimiter bytes back. A completed delimiter is exactly the held-back and consumed bytes, with no callback. A mismatch delivers the held-back bytes unchanged |
| BodyProps.BodyStep | src/oatpp/web/mime/multipart/StatefulParser.cpp:243-255 | every scanner call inside a body either stays in it, with held-back plus consumed bytes equal to delivered plus held-back bytes, or completes a delimiter |
| BodyProps.ReenteringBodyAnnounces | src/oatpp/web/mime/multipart/StatefulParser.cpp:175-203 | a run that starts outside a body and ends inside one has made a `PartHeaders` callback |
| BodyProps.BodyRunDelivers | src/oatpp/web/mime/multipart/StatefulParser.cpp:241-262 | over a run of the dispatcher that stays in the body, the bytes held back before it followed by the bytes consumed are the bytes delivered followed by the bytes held back after it: no body byte is lost, changed or reordered |
| BodyProps.ParseNextBodyDelivers | src/oatpp/web/mime/multipart/StatefulParser.cpp:237-266 | the same for a whole `parseNext` call |
| BodyProps.BodyRunToDelimiter | src/oatpp/web/mime/multipart/StatefulParser.cpp:241-262 | a run of the dispatcher from inside a body that fails, ends outside the body or passes a header section first leaves the body at some `m` after a delimiter. Up to there it made only `PartData` callbacks, carrying exactly the held-back and consumed bytes less that delimiter; the rest of the run starts after the delimiter |
| BodyProps.ParseNextToDelimiter | src/oatpp/web/mime/multipart/StatefulParser.cpp:237-266 | the same for a whole `parseNext` call, such as one chunk holding the last body bytes and the delimiter that ends them |
| DispatchProps.DoneConsumesNothing | src/oatpp/web/mime/multipart/StatefulParser.cpp:256-257 | once the body is done, `parseNext` consumes nothing and changes nothing |
| DispatchProps.DispatchKeepsInv | src/oatpp/web/mime/multipart/StatefulParser.cpp:241-262 | a run of the dispatcher that does not fail keeps the invariant |
| DispatchProps.DispatchAccounting | src/oatpp/web/mime/multipart/StatefulParser.cpp:241-264 | the run from `pos` reports the whole chunk, or stops early at Done, or overshoots by one only in the split after-boundary case; a cursor left between the two after-boundary bytes means the chunk was used up |
| DispatchProps.ParseNextAccounting | src/oatpp/web/mime/multipart/StatefulParser.cpp:237-266 | `parseNext` keeps the invariant and returns the chunk size, or less only when the body ended; only the split after-boundary case with a one-byte chunk returns 2 |
| DispatchProps.IdleStep | src/oatpp/web/mime/multipart/StatefulParser.cpp:123-134 | a scanner call that consumes nothing is either data stopping at a CR or a boundary mismatch handing back to data with the check flag off |
| DispatchProps.AtMostTwoIdleSteps | src/oatpp/web/mime/multipart/StatefulParser.cpp:241-262 | the loop never stalls: a third scanner call in a row on the same bytes cannot consume nothing again |
| DispatchProps.AfterBoundaryBothBytes | src/oatpp/web/mime/multipart/StatefulParser.cpp:143-169 | with both bytes present, the step succeeds exactly on `--` (Done) or CR LF (Headers, window zeroed), consuming 2. Any other first byte is an invalid char; a second byte that does not fit is an invalid trailing char |
| DispatchProps.AfterBoundaryFirstByteOnly | src/oatpp/web/mime/multipart/StatefulParser.cpp:143-172 | with only the first byte in the chunk, `-` or CR is consumed and remembered, and the cursor becomes 1; any other byte is the invalid-char error |
| DispatchProps.AfterBoundarySecondByte | src/oatpp/web/mime/multipart/StatefulParser.cpp:153-169 | the second byte arriving in a new chunk is judged against the remembered first byte, and the step reports 2 |
| Quirks.SplitAfterBoundaryOvercounts | src/oatpp/web/mime/multipart/StatefulParser.cpp:153-163 | `parseNext` on a one-byte chunk holding the second after-boundary byte returns 2 |
| Quirks.SplitAfterBoundarySkipsByte | src/oatpp/web/mime/multipart/StatefulParser.cpp:153-163 | in the same case with a longer chunk, the dispatcher resumes at index 2, so byte 1 is never scanned |
| Quirks.SkippedCRIsBody | src/oatpp/web/mime/multipart/StatefulParser.cpp:215-219 | with the check flag off, a chunk whose only CR is at `p` is delivered whole as body |
| Quirks.SplitMismatchSkipsCR | src/oatpp/web/mime/multipart/StatefulParser.cpp:123-134 | after a mismatch of a delimiter candidate that straddled chunks, the data scanner on the same chunk delivers it whole when its only CR could start a delimiter |
| Quirks.FilenameShadowsName | src/oatpp/web/mime/multipart/StatefulParser.cpp:43-49 | in `form-data; filename="a"; name="b"` the first `name=` is inside `filename=`, so the name comes from the file name's quoted value |

## Left out

- Logging with `OATPP_LOGD` (lines 62-68 and 86-87) has only a side effect and is not modelled. `onPartData` is recorded as an event instead of logged.
- `protocol::http::Parser::parseHeaders` is not part of this model. It is a function from bytes to a header map, given at construction. Its status output is ignored, as the code ignores it.
- The caret's `parseStringEnclosed` is not part of this model. It is a function from the text at the quote, and the quote byte, to an optional name, given at construction. Its backslash-escape handling is therefore not modelled.
- The header map's key comparison is library behaviour not visible here. `PartName.PartNameOf` looks `Content-Disposition` up by exact bytes.
- The class declaration, and with it the construction of the two boundary samples, the value of `HEADERS_SECTION_END` and the fields' initial values, is not part of this model.
  - The samples are constructor parameters, required to be non-empty.
  - `HEADERS_SECTION_END` is taken to be `0x0D0A0D0A`.
  - The parser is taken to start in Boundary with cursor and part index 0, accumulator 0, an empty buffer and the check flag on.
- The `default:` invalid-state throw of `parseNext` (lines 258-259) cannot happen once the state is a datatype.
- `v_int32` arithmetic: sizes, positions and the part index are unbounded, so overflow is not modelled.
- A thrown error leaves the fields as they were at the throw. The model makes no promise about a parser after a failure, and the C++ object cannot resume usefully either.
- `oatpp::String` allocation and copying of names and data are values in the model.
- Chunk-size independence of `parseNext` as a whole does not hold in the code (quirks 1 and 2) and is not claimed.
