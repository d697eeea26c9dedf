# Term50: a verified model of its stateful cores

Term50 is a terminal emulator for a keyboard phone. This project models the parts of it that
carry real algorithms and proves what each of them promises over every input and every run:

- **The control channel.** A client joins an argument list into one escaped line; the server
  gathers the bytes in a 4096-byte buffer whatever sizes the reads have, resynchronises after an
  overlong line, and tokenizes in place. Replies are framed with an escape at line starts and taken
  apart again from arbitrary chunks. `eval` requests wait in a ring of eight, guarded against
  descriptor reuse by connection ids. (`CStrings`, `ControlProto`, `LineReader`,
  `RequestDelivery`, `Decimal`, `ReplyFrame`, `ReplyReader`, `DeferredEval`, `DeferRing`)
- **The damage-tracked renderer.** Only dirty rows and cursor rows are repainted, onto whichever
  buffer the window hands out; the result must be the picture a full repaint would give. Beneath it:
  the freshness table, the dirty box, clipped fills and blits on a byte array, and the glyph cache.
  (`PartialRepaint`, `FreshBuffers`, `Damage`, `Bitmap`, `GlyphCache`, `GlyphDraw`)
- **The URL picker.** The screen is flattened into one text, a greedy scan finds the URLs in it, and
  a modal key machine selects one by typed label. (`UrlScan`, `UrlPicker`, `UrlKeys`)
- **Configuration.** User tables are merged in place over defaults, with strings owned by the heap
  and tables closed by a sentinel; strings are printed as Lua literals. (`ConfigMerge`,
  `ConfigTables`, `ChordTables`, `LuaQuote`)
- **Keys, gestures, newlines, tabs.** (`Chords`, `Drag`, `Newlines`, `Tabs`)

`Common` holds what several of them share.

Each component has a specification made of plain functions or a step system, methods on arrays and
fields that are proved equal to it, and lemmas that say what the specification means.

Conventions. A C `char` is a Dafny `char`; everything about bytes holds for every value unless a
`requires` says otherwise. A pointer into a buffer is an offset. The size of each `read` is chosen
nondeterministically, so a result about a method that reads holds for every way to cut the stream.
Writes are complete. Time stamps, descriptors, the QR encoder's verdict and the font library's
render function are parameters.

Where the code and its own comments differ, the model follows the code:

- `src/control_proto.h:8-11` calls splitting and joining exact inverses. Empty arguments are lost,
  because runs of spaces separate tokens; `ControlProto.SplitOfJoin` says exactly what comes back.
  The server also strips a carriage return that ends the last argument;
  `RequestDelivery.DeliveredExactlyWhen` gives the exact condition for a request to arrive as sent.
  `ControlProto.EmptyArgumentLost` and `RequestDelivery.FinalCrLost` are lists that do not.
- `src/app.c:157-158` says that compaction keeps the active index meaningful. Closing a tab to the left
  of the active one moves the selection to the next session; `Tabs.CloseMovesSelection` is the rule.
- `src/control.c:611-613` calls a connection id unique. It is 32 bits wide. `DeferredEval.RunExact` says,
  for every run, exactly which replies go wrong: those for which, at the time of the drain, a later
  connection holds the descriptor under the same id. `DeferredEval.RunSafe` shows that there is none up
  to 2^32 connections, and `DeferredEval.WrapMisdelivers` is a run, one connection longer, with one.
- A frame whose buffer cannot be latched still uses up the dirty marks (`src/main.c:2438-2442`).
  `PartialRepaint.EveryFrameExact` says, for every run, exactly which later frames show it.

## Model

| member | source | states |
|---|---|---|
| ControlProto.CopyToken | src/control_proto.c:23-35 | decoding a token toward the front of its own buffer: the write cursor never passes the read cursor, exactly the decoded text is written, and no other byte of the buffer changes |
| ControlProto.TokensAreLexed | src/control_proto.c:5-42 | every line has exactly the tokens that a one-pass lexer, written without positions, finds: unescaped spaces end a token, a backslash takes the next character literally or as newline or tab, and a lone one at the end stands for itself |
| ControlProto.Split | src/control_proto.c:5-42 | after in-place splitting every token of the line, as the escape rules define them, stands NUL-terminated at its offset in the buffer; -1 exactly when there are more than `max`; nothing behind the line's terminator is touched |
| ControlProto.Join | src/control_proto.c:44-75 | the joined line and its NUL are in the buffer exactly when they fit the capacity, and -1 is returned otherwise |
| ControlProto.JoinedCharacter | src/control_proto.c:52-66 | a backslash and a space get a backslash, newline and tab become a backslash with n or t, every other character stays |
| ControlProto.JoinedText | src/control_proto.c:52-66 | an argument is escaped character by character |
| ControlProto.JoinedMore | src/control_proto.c:44-51 | arguments are separated by one space, and no arguments or one empty argument give the empty line |
| ControlProto.SplitOfJoin | src/control_proto.h:8-11 | splitting a joined list gives its non-empty arguments in order; it gives the list itself if and only if no argument is empty |
| ControlProto.EmptyArgumentLost | src/control_proto.c:12-14 | the list of one empty argument comes back empty |
| ControlProto.JoinOfSplit | src/control_proto.c:5-75 | whatever the spacing and escaping of a line, joining its tokens gives a line with the same tokens |
| ControlProto.JoinClean | src/control_proto.c:46-68 | a joined line of C strings contains neither a newline nor a NUL, so it is one line on the wire |
| LineReader.HandleLine | src/control.c:372-390 | one complete line, copied out of the read buffer, CR-stripped and tokenized in its own array, is dispatched with exactly the tokens it spells, refused when there are more than 16, and ignored when there are none |
| LineReader.LineMeans | src/control.c:372-390 | the answer to a line in literals: the lexed arguments of its C string without one final CR, refused above 16, nothing without any |
| LineReader.Client.ScanLines | src/control.c:366-392 | scanning the buffer reports what the byte-by-byte reader would, and leaves the unfinished line, free of newlines, at the returned offset |
| LineReader.Client.ConsumeLines | src/control.c:366-403 | after the scan the buffer holds exactly the reader's unfinished line, without a newline and with room for at least one byte; a full buffer is refused once and its rest dropped |
| LineReader.Client.HandleReadable | src/control.c:405-437 | the read loop, with read sizes picked by the kernel, answers and ends up exactly as the byte-by-byte reader fed with the concatenated bytes |
| LineReader.RunConcat | src/control.c:405-437 | chunk independence: feeding two chunks is feeding their concatenation, in events and in state |
| LineReader.RunIsStream | src/control.c:366-403 | from a fresh connection, each line of at most 4095 bytes is handed on intact and each longer one of length L causes exactly floor(L/4096) refusals and no dispatch |
| LineReader.StreamMeans | src/control.c:366-403 | the stream taken apart at its first newline: up to 4095 bytes are handed on whole, a longer line leaves only its refusals, and what follows is read afresh |
| LineReader.UnfinishedLine | src/control.c:366-403 | a line of L bytes without its newline has caused exactly floor(L/4096) refusals and no dispatch |
| RequestDelivery.StripJoined | src/control.c:380-382 | stripping a CR off the joined line is stripping it off the last argument, and never reaches into an earlier one |
| RequestDelivery.StreamOfRequest | src/control.c:366-403 | any request the client can send, for arbitrary C-string arguments, is answered exactly once, as `Outcome` says, and leaves the connection at rest |
| RequestDelivery.DeliveredExactlyWhen | src/control_proto.h:8-11 | the server dispatches exactly the list that was sent if and only if it has 1 to 16 arguments, none empty, the last not ending in CR, on a joined line of at most 4095 bytes |
| RequestDelivery.FinalCrLost | src/control.c:380-382 | a one-argument list ending in CR is dispatched as another list |
| RequestDelivery.Deliver | tools/termctl/main.c:183-199 | client buffer, wire, server buffer and dispatcher together: for any arguments and any chunking the request is sent exactly when its line fits, and answered as `Outcome` says |
| ReplyFrame.EscapedSize | src/control.c:143-155 | escaping a body of n bytes adds at most ceil(n/2) percent signs |
| ReplyFrame.MarkersMean | src/control.c:127-166 | the marker lines are `%begin`, time stamp, id and 0, and `%end`, time stamp, id and flag, in decimals that read back as the numbers sent |
| ReplyReader.EscapingMeans | src/control.c:143-155 | a line that starts with a percent gets one more, and nothing else changes |
| ReplyFrame.CopyBody | src/control.c:143-155 | the copy writes the longest prefix of the escaped body that fits the cap without tearing a doubled percent, behind what the buffer already held |
| ReplyFrame.CompleteExactlyWhen | src/control.c:127-166 | the reply is the complete frame if and only if the body is empty or header and escaped body stay below the reserve |
| ReplyFrame.NeverTruncated | src/control.c:127-166 | no body of at most 4095 bytes is ever cut, for any time stamp, id and flag of the C types |
| ReplyFrame.CutReply | src/control.c:143-159 | an overlong body is cut to a prefix that ends at byte 8128 of the reply or one before it, and the end line follows |
| ReplyFrame.Reply | src/control.c:127-166 | the scratch buffer holds exactly the wire form, never overflows its 8192 bytes, and the branches that give up are not taken |
| ReplyReader.BodyLineShown | src/control_proto.c:77-79 | no escaped body line is taken for a frame marker, and the client prints the line the server was given |
| ReplyReader.LineMeaning | tools/termctl/main.c:123-142 | what each line of a stream does, for any line of up to 8191 bytes: start the frame, end the reply (with -1 if it names no flag), be shown with a doubled percent undone, be a notification, or nothing |
| ReplyReader.ScanLines | tools/termctl/main.c:97-153 | handling the lines of one buffer in place is what the byte-by-byte reader does, up to %end or an overfull line |
| ReplyReader.ReadResponse | tools/termctl/main.c:97-153 | flag and output depend only on the bytes of the stream, not on the read sizes; the flag is -1 whenever the reply is not done, be it that the stream ends or that a line fills the buffer, and it is never done without a whole line that starts with `%end` |
| ReplyReader.BrokenOff | tools/termctl/main.c:97-153 | the same of the byte-by-byte reader, for every stream |
| ReplyReader.ReplyReadBack | src/control.c:127-166 | for every NUL-free body the reply buffer holds, reading the frame back prints the body unchanged, returns the flag that was sent and ignores what follows; the client's line buffer never fills |
| ReplyReader.Exchange | tools/termctl/main.c:97-153 | server buffer and client buffer together: every NUL-free body of at most 4095 bytes and every flag come through any chunking |
| DeferredEval.DrainOneExact | src/control.c:611-617 | with any number of connections, running one eval answers rightly (its issuer if still open, else nobody) if and only if no other connection holds its descriptor under its 32-bit id |
| DeferredEval.DrainAllExact | src/control.c:600-619 | the same for each of the waiting evals, judged by the connections when the drain starts |
| DeferredEval.NextDrainExact | src/control.c:600-619 | the same for the drain after any run |
| DeferredEval.AcceptExact | src/control.c:83-93 | a connection takes the lowest free one of the eight slots and the next serial number, and nothing else changes |
| DeferredEval.PushExact | src/control.c:190-205 | after any run, a push from slot i queues last exactly the eval of the connection that sits in slot i, if fewer than eight wait, and changes nothing otherwise |
| DeferredEval.ExecutedMeans | src/control.c:611-617 | who is answered, in terms of the slots alone: the issuer is open if its connection is in a slot, a stranger is another connection on the descriptor with the same 32-bit id |
| DeferredEval.PusherAnswered | src/control.c:355-357 | over every run: the eval that the connection in slot i pushes runs in its place, and its reply goes to that very connection if it is still open then, and to nobody else unless a stranger has its descriptor |
| DeferredEval.DrainOneKeeps | src/control.c:600-619 | running one eval keeps: slots distinct in descriptor and connection, waiting evals bound to their connection, every past reply right exactly when no stranger held its descriptor |
| DeferredEval.RunExact | src/control.c:600-619 | over every run of accept, close, push and drain, however many connections: evals run once each in push order, at most eight wait, and a reply is right if and only if no stranger held its descriptor under its id |
| DeferredEval.RunSafe | src/control.c:600-619 | up to 2^32 connections there never is a stranger: a reply goes to the issuing connection if and only if it is still open, never to a later owner of its descriptor |
| DeferredEval.WrapMisdelivers | src/control.c:83-93 | that bound is sharp: a run with 2^32 + 1 connections whose drained reply goes to a stranger |
| DeferRing.Server.ClientAlloc | src/control.c:83-93 | claims the lowest free slot for the descriptor with the next connection id, and fails and changes nothing exactly when none of the eight is free |
| DeferRing.Server.ClientClose | src/control.c:95-102 | frees the slot, so that no waiting eval can match it any more |
| DeferRing.Server.DeferPush | src/control.c:190-205 | puts exactly the descriptor and connection of the client in slot i, the request id and the chunk behind everything waiting in the ring, and fails and changes nothing exactly when eight evals wait |
| DeferRing.Server.Drain | src/control.c:600-619 | empties the ring in order; the replies written are those of the step system, to the descriptors it names and to no other |
| DeferRing.SentForStep | src/control.c:614-617 | what the drain writes: one reply per answered eval, to the descriptor and under the request id it was pushed with |
| PartialRepaint.FrameExact | src/main.c:2391-2523 | in every state the invariant allows, a frame shows clear + all rows + overlays if and only if it is full or every row holds: it is repainted now, or each dot not under the overlay was last painted from the cells, cursor and flash it should show |
| PartialRepaint.SkippedRow | src/main.c:2438-2458 | a row that a partial frame does not visit holds, as long as no failed latch has swallowed a mark |
| PartialRepaint.FrameIsFull | src/main.c:2391-2523 | from any state the invariant allows in which no failed latch has swallowed a mark, or if the frame is full, the picture is clear + all rows + overlays |
| PartialRepaint.RunKeeps | src/main.c:2391-2523 | the freshness and damage invariant holds after every run of terminal updates, full marks, frames and failed latches |
| PartialRepaint.EveryFrameExact | src/main.c:2391-2523 | over every run, failed latches included, and every order of buffer hand-out: the painted buffer shows the full picture if and only if the frame is full or every row holds |
| PartialRepaint.EveryFrameAgrees | src/main.c:2391-2523 | hence over every run in which no failed latch swallowed a mark, the partial frame is the full one |
| PartialRepaint.FullPictureShows | src/main.c:2347-2364 | a picture is the full one if and only if every dot is the overlay's ink where there is some, and elsewhere the row's text with the cell inverted at the cursor's own column, if the cursor is visible and in that row |
| PartialRepaint.EveryFrameShows | src/main.c:2391-2523 | over every run in which no failed latch swallowed a mark, the painted buffer holds exactly those dots, cursor cell included |
| PartialRepaint.CleanRowUntouched | src/main.c:2438-2458 | the fast path: on a fresh buffer an unflagged row keeps what the buffer held, except under the overlay |
| PartialRepaint.FrameSettles | src/main.c:2438-2523 | a frame uses up every mark, remembers the cursor and leaves every other buffer alone |
| PartialRepaint.SecondFrameIdle | src/main.c:2391-2458 | a second frame on the same buffers with nothing changed in between is partial and repaints no row |
| PartialRepaint.NothingLost | src/main.c:2391-2523 | and without failed latches none ever is |
| PartialRepaint.FailedLatchExact | src/main.c:2433-2442 | one failed latch on an up-to-date display, then a partial frame: full picture if and only if each row is repainted for the cursor, hidden by the overlay, or unchanged since it was last painted; with no glyph on the screen, if and only if each row is hidden or has the same cells and cursor |
| PartialRepaint.LatchFailureLosesDamage | src/renderer_screen.c:256-266 | a run with one failed latch after which a frame shows a stale row, whether the row has text or not |
| PartialRepaint.Renderer.VisitCells | src/ghostty_bridge.c:303-355 | the row visit repaints exactly the rows it must and clears every row flag |
| PartialRepaint.Renderer.VisitCursorRows | src/main.c:2444-2458 | repaints exactly the row the cursor left and the row it went to, when it moved, appeared or vanished |
| PartialRepaint.Renderer.PaintFrame | src/main.c:2433-2520 | grid, cursor rows and overlays together paint the specified picture and remember the cursor |
| PartialRepaint.Renderer.RenderFrame | src/main.c:2391-2523 | one frame is one step of the display; unless a mark was swallowed, the handed-out buffer then shows the full picture, which is also stated dot by dot |
| PartialRepaint.Renderer.VisitUnlatched | src/main.c:2383-2388 | with no buffer every row flag is cleared, and the frame fails exactly when some cell draws a glyph |
| PartialRepaint.Renderer.RenderUnlatched | src/main.c:2424-2462 | the frame with no buffer is the failed-latch step: a glyph ends it before the cursor and the frame flag are settled |
| FreshBuffers.Pigeonhole | src/renderer_screen.c:206-218 | distinct tracked buffers, all of them in the window's set, cannot outnumber that set |
| FreshBuffers.FallbackUnreachable | src/renderer_screen.c:206-218 | with at most four distinct window buffers, a buffer not yet tracked always finds a free entry: slot 0 is never recycled |
| FreshBuffers.LatchKeeps | src/renderer_screen.c:188-223 | latching keeps tracked buffers distinct and a fresh one the last one painted, selects the handed-out buffer, and forgets no tracked buffer while the window's set stays |
| FreshBuffers.EndFrameKeeps | src/renderer_screen.c:298-302 | if stale buffers are painted in full, then after the frame the painted buffer is the one fresh buffer |
| FreshBuffers.LatchedAgain | src/renderer_screen.c:188-223 | a buffer handed out again right after its frame is not stale, so nothing forces a full paint |
| FreshBuffers.AtMostOneFresh | src/renderer_screen.c:298-302 | at most one tracked buffer is fresh |
| FreshBuffers.BufferTable.Refresh | src/renderer_screen.c:188-201 | the table is dropped exactly when a tracked buffer has left the window, and untouched otherwise |
| FreshBuffers.BufferTable.LatchBuffer | src/renderer_screen.c:188-223 | the in-place update is the specified one, and the selected entry is that of the handed-out buffer |
| FreshBuffers.BufferTable.FinishFrame | src/renderer_screen.c:298-302 | after a frame the painted buffer is fresh and every other one is not |
| Damage.HullLeast | src/renderer_screen.c:83-100 | growing the box gives the least box that contains both |
| Damage.ClipExact | src/renderer_screen.c:83-91 | the clipped box has exactly the pixels that are on the screen and in the rectangle |
| Damage.DirtyBox.Extend | src/renderer_screen.c:83-100 | the fields become the hull of the old box and the clipped rectangle, unchanged when that is empty |
| Damage.Frame.FillRect | src/renderer_screen.c:317-330 | changes exactly the covered pixels and keeps: every byte that differs from the frame's start is in the dirty box, and the box is on the screen |
| Damage.Frame.Clear | src/renderer_screen.c:307-315 | the same for the whole screen |
| Damage.Frame.DrawBitmap | src/renderer_screen.c:348-355 | the same for a bitmap or a cached glyph, clipped on all four sides |
| Damage.Frame.EndFrame | src/renderer_screen.c:268-305 | the posted rectangle contains every changed pixel and lies on the screen; nothing is posted only if nothing changed |
| Bitmap.Bitmap.FillRect | src/bitmap.c:43-69 | every byte of the array: the clipped rectangle's pixels hold the colour in B, G, R, A order and all others are unchanged |
| Bitmap.PixelBytes | src/bitmap.c:58-61 | the four bytes of a pixel are blue, green, red and 255 |
| Bitmap.Bitmap.CoveredMeans | src/bitmap.c:43-52 | the bytes a fill covers are those of the pixels on the bitmap and in the rectangle |
| Bitmap.Bitmap.Blit | src/bitmap.c:71-86 | every byte of the array: pixels under the source hold the matching source byte, all others are unchanged, for any offset including negative ones |
| Bitmap.Bitmap.SourceMeans | src/bitmap.c:71-86 | pixel (x, y) is under a source drawn at (dx, dy) if the source has a pixel (x - dx, y - dy), and that is the pixel it gets |
| GlyphCache.ColorKeyInjective | src/renderer_screen.c:106-108 | different colours have different packed keys |
| GlyphCache.Cache.Lookup | src/renderer_screen.c:127-153 | hit, miss or eviction, the bitmap is the one a fresh render gives; it occupies its slot afterwards and no other entry changes |
| GlyphCache.Cache.SetFont | src/renderer_screen.c:357-366 | after a font swap the cache is still truthful, so no glyph of the old font is returned |
| GlyphDraw.DrawGlyph | src/renderer_screen.c:332-346 | cache, blit and dirty box together: exactly the pixels under the glyph change, to those of a fresh render, inside the box; a glyph that cannot be rendered changes nothing |
| UrlScan.TrimmedEndExact | src/url_pick.c:115-140 | the trimmed end is the one position where trimming must stop and behind which everything must go |
| UrlScan.TrimTrailing | src/url_pick.c:115-140 | the trimming loop stops exactly there |
| UrlScan.CharClasses | src/url_pick.c:94-110 | the character classes in literals |
| UrlScan.TrimmableMeans | src/url_pick.c:115-140 | what trimming takes off, in literals: the prose punctuation, and a closing bracket that nothing before it opens |
| UrlScan.MatchExact | src/url_pick.c:155-234 | a match at i is reported if and only if: one of the three prefixes stands there, not behind a URL character and before a host character; its end is the one place in the maximal run of URL characters where trimming must stop; a body is left; and with scheme and NUL it fits 512 bytes |
| UrlScan.AllMatchesExact | src/url_pick.c:163-234 | the list holds exactly the positions where a URL starts, strictly increasing |
| UrlScan.JumpLosesNothing | src/url_pick.c:163-234 | skipping over URL characters skips no URL start |
| UrlScan.MatchesDisjoint | src/url_pick.c:163-234 | reported URLs do not overlap |
| UrlScan.CappedAreFirst | src/url_pick.c:163-234 | the first 64 entries of the list are URLs in order, and any URL left out comes behind a full list of 64 |
| UrlScan.ScanBuffer | src/url_pick.c:163-234 | the greedy scan reports exactly the first 64 URLs of the text in order: each entry is a URL by the definition above, and a URL it leaves out comes behind 64 others |
| UrlPicker.Flatten | src/url_pick.c:266-305 | the flat text is the visible rows with their separators, up to the buffer's size |
| UrlPicker.NothingDropped | src/url_pick.c:266-305 | the buffer never drops a screen cell: at most the very last separator is missing |
| UrlPicker.RowMeans | src/url_pick.c:70-92 | a row in literals: printable ASCII of a cell that is no wide tail stands for itself, everything else is a space, and one more space follows unless the last column has content |
| UrlPicker.CellIsThere | src/url_pick.c:266-305 | every cell of every visited row is in the flat text |
| UrlPicker.FlatInOrder | src/url_pick.c:266-305 | the flat text runs down the screen and along each row, no cell twice |
| UrlPicker.RowBorder | src/url_pick.c:288-304 | text runs from one row into another only over a filled last column |
| UrlPicker.UrlOnScreen | src/url_pick.c:254-319 | a reported URL carries the row and column of its first character and crosses rows only where the former row's last column has content |
| UrlKeys.LabelsDistinct | src/url_pick.c:142-153 | different matches have different labels |
| UrlKeys.TypingLabelSelects | src/url_pick.c:328-353 | typing the label of match i at a fresh prompt, in either case, selects match i |
| UrlKeys.OneLetterPicks | src/url_pick.c:328-353 | with up to 26 URLs, a picks the first, b the second and so on, and a letter beyond them picks nothing |
| UrlKeys.TwoLettersPick | src/url_pick.c:328-353 | with more, two letters pick, the first counting in steps of 26 |
| UrlKeys.ActionKeys | src/url_pick.c:367-396 | at the action prompt o opens, c copies and q shows the QR code of the selected URL, in either case; any other letter does nothing |
| UrlKeys.ClosingKeys | src/url_pick.c:410-417 | Escape closes the picker from everywhere, and any key closes the QR view |
| UrlKeys.IgnoredKeys | src/url_pick.c:398-421 | a held key, a key of no use, and any key while the picker is closed change nothing |
| UrlKeys.KeyKeeps | src/url_pick.c:398-425 | every key keeps the mode invariant (a valid selection in ACTION and QR), repeats change nothing, and only the selected URL is ever acted on |
| UrlKeys.KeysKeep | src/url_pick.c:398-425 | the same over every key sequence, and the offered list stays the same until the picker closes |
| UrlKeys.Picker.Enter | src/url_pick.c:254-319 | the picker opens if and only if a URL stands somewhere in the text of the visible rows (at most 96 by 256), and then offers the first 64 of them in order, each with its text and cell |
| UrlKeys.Picker.HandleHintKey | src/url_pick.c:328-353 | the typed prefix is collected, completed, and matched against the labels as specified |
| UrlKeys.Picker.HandleKey | src/url_pick.c:398-425 | the fields after a key are those of the specified machine, and the key is consumed exactly when the picker is open |
| ConfigMerge.MergeMeans | src/preferences.c:281-327 | lookup in the merged table gives the last user entry for the key (nothing if it unbinds), else the default; keys stay unique and the size is at most defaults plus user entries |
| ConfigMerge.MergeKeepsOrder | src/preferences.c:281-327 | defaults that are never unbound keep their relative order |
| ConfigMerge.ApplyPlaces | src/preferences.c:281-327 | where one user entry goes: a bound key changes in place, a new one goes last, an unbound one closes up, and all others stay |
| ConfigMerge.LookupMeans | src/preferences.c:911-919 | a lookup gives a value if and only if the table has that entry |
| ConfigTables.KeymapMerge | src/preferences.c:281-327 | the array holds the merged table before its sentinel, all writes are inside defaults + user + 1 slots, and every live string is owned by exactly one slot or was live before |
| ConfigTables.KeymapLookup | src/preferences.c:911-919 | walking to the sentinel finds exactly the binding of the table |
| ConfigTables.KeymapDestroy | src/preferences.c:777-789 | every string of the table is freed exactly once and nothing else is |
| ConfigTables.KeymapLifetime | src/preferences.c:281-327 | merge, lookup and teardown together: the last-writer-wins answer, and the heap is what it was |
| ChordTables.ChordMerge | src/preferences.c:599-658 | the same for chords keyed by key code and modifiers, with two owned strings a slot |
| ChordTables.ChordDestroy | src/preferences.c:791-797 | both strings of every chord are freed exactly once |
| ChordTables.ChordLifetime | src/preferences.c:599-658 | building and tearing down a chord table frees exactly what it allocated |
| LuaQuote.EmitQuoted | src/preferences.c:1277-1289 | the emitted text is the literal, character by character, of the whole string |
| LuaQuote.EmittedMeans | src/preferences.c:1277-1289 | one character in literals: quote and backslash get a backslash, printable ASCII stands for itself, every other byte is `\x` and two upper-case hex digits |
| LuaQuote.LiteralMeans | src/preferences.c:1277-1289 | a literal is its characters, each emitted on its own, between two quotes |
| LuaQuote.LiteralReadBack | src/preferences.c:1277-1289 | reading the literal by section 3.1 of the Lua 5.4 Reference Manual gives back any NUL-free byte string |
| Chords.ChordLookup | src/chord_match.c:12-23 | the first chord with exactly that key and modifiers, none exactly when there is none |
| Chords.ChordLookupSubset | src/chord_match.c:31-50 | the first chord of maximal modifier count among those whose non-empty modifiers are all stuck; none exactly when none fires |
| Chords.ShiftAltFlipsCtrl | src/preferences.c:476-480 | with the default chords and sticky shift, left shift then alt flips exactly the Ctrl latch, whatever else is latched |
| Chords.ShiftAltTwiceRestores | src/chord_match.c:25-30 | doing it twice restores the whole modifier state |
| Chords.TapsConsumed | src/main.c:1754-1798 | both key presses are consumed by the modifier layer, so the two-tap relation holds of what the layer actually does |
| Chords.ModMaskMeans | src/main.c:1357-1366 | which modifiers count as stuck, one by one |
| Chords.AltAlone | src/main.c:1716-1721 | with no chord on it, alt flips the symbol-layer lock if its preference allows, and does nothing more when held |
| Chords.ShiftAlone | src/main.c:1722-1727 | either shift key flips the shift latch, if its preference allows and the on-screen keyboard is down |
| Chords.SymAlone | src/main.c:1709-1715 | sym opens the main menu or closes the open one, and locks it when held |
| Chords.Keyboard.ToggleVkeymod | src/main.c:1325-1334 | flips one latch and nothing else |
| Chords.Keyboard.ChordClearPrefix | src/main.c:1373-1383 | spends exactly the modifiers in the mask, in each of the three places they are kept |
| Chords.Keyboard.TryChord | src/main.c:1736-1748 | fires exactly when some chord is best for the prefix, and then spends only that chord's modifiers before its action |
| Chords.Keyboard.LayerModkey | src/main.c:1754-1798 | a modifier press fires the best chord of the stuck prefix, else toggles its own latch if its preference allows, else passes on |
| Drag.Gesture.Move | src/main.c:3203-3219 | conservation: rows emitted times row height plus the accumulator is the travel since just before the committing move, the accumulator stays below a row, and division truncates toward zero |
| Drag.DragAlong | src/main.c:3203-3219 | over any sequence of moves the signed rows emitted are the travel divided by the row height, to within one row |
| Drag.Session.EmitWheels | src/main.c:1055-1072 | exactly `ticks` wheel events are written, whatever the batches, and the recursion ends for every C-int position |
| Drag.Session.EmitAltScroll | src/main.c:1080-1095 | exactly `count` cursor keys are written, whatever the batches |
| Drag.EventsMean | src/main.c:1055-1095 | finger down is wheel button 64 or the Up key, finger up is 65 or the Down key, in either cursor-key mode, as often as there are rows |
| Drag.CellMeans | src/main.c:3219-3231 | the reported cell is the one whose text box contains the touch, counted from 1 |
| Drag.TouchMove | src/main.c:3203-3231 | one move writes its rows, in the direction of the finger, as wheel events at the touched cell or as cursor keys, or scrolls the viewport by as many rows the other way |
| Drag.TouchMoves | src/main.c:3203-3231 | over a whole gesture the writes are those of the moves in order, and the rows they stand for add up to the travel since the commit, to within one row |
| Newlines.NoBareLf | src/ghostty_bridge.c:126-151 | every LF in the output follows a CR |
| Newlines.NormalizeIdempotent | src/ghostty_bridge.c:126-151 | normalising the output again changes nothing |
| Newlines.NormalizedSplit | src/ghostty_bridge.c:126-151 | normalising a concatenation is normalising the parts with the carried CR flag |
| Newlines.NormalizedKeeps | src/ghostty_bridge.c:137-144 | conservation, with the carried flag: output and input are the same once every CR directly before an LF is deleted |
| Newlines.NormalizedShows | src/ghostty_bridge.c:126-151 | hence the output has no bare LF and loses, adds and reorders nothing else |
| Newlines.Bridge.Write | src/ghostty_bridge.c:126-151 | the runs handed to the terminal add up to the normalised text, which has no bare LF and keeps its input, and the flag says whether it ended in CR |
| Newlines.Bridge.WriteChunks | src/ghostty_bridge.c:126-151 | any split into writes shows what one write of everything would, with nothing lost and no bare LF |
| Tabs.RunOk | src/app.c:127-187 | over every run: at most eight tabs, a valid selection, ids strictly increasing and below the next id |
| Tabs.IdsNotReused | src/app.c:127-173 | an id that has gone never comes back, whatever follows |
| Tabs.NextPrevInverse | src/app.c:175-187 | next and previous undo each other |
| Tabs.SelectionMeans | src/app.c:175-187 | next goes one to the right, previous one to the left, both around the ends |
| Tabs.CloseMeans | src/app.c:150-173 | closing any tab removes it alone, and the active index moves only if it would point past the end |
| Tabs.CloseActive | src/app.c:150-173 | closing the active tab selects its right neighbour, or its left one if it was the last |
| Tabs.CloseMovesSelection | src/app.c:150-173 | closing another tab keeps the active session if and only if that tab is to the right or the active one is the last; otherwise the next session becomes active |
| Tabs.RollbackSelection | src/main.c:1480-1496 | closing a tab that was just opened restores the tabs but selects the last, which is the one that was active if and only if that was the last |
| Tabs.App.SessionOpen | src/app.c:127-148 | appends the next id and selects it, and fails exactly when eight are open or no session could be made |
| Tabs.App.SessionCloseIndex | src/app.c:150-173 | the shifting loop removes exactly that tab, in order, and clamps the selection |
| Tabs.App.SelectNext | src/app.c:175-180 | the selection wraps to the right |
| Tabs.App.SelectPrev | src/app.c:182-187 | the selection wraps to the left |
| Tabs.App.TapPill | src/main.c:850-862 | the tap loop terminates, with the tapped tab selected |

## Left out

- Sockets, the event pump, windows, pseudo-terminals, processes, signals, clipboard, ICU: foreign I/O. Reads are arbitrary chunks, writes are complete, end of stream and hard errors end the read loop.
- The command list behind `dispatch`, the request ids in "line too long" and "too many arguments" answers, and subscriptions: the dispatch itself, with its argument list, is the observable here.
- The result of an eval and the Lua interpreter. An eval's body length is bounded by its output buffer, to 4095 bytes.
- DeferredEval.RunSafe: the kernel never hands out a descriptor that is still open, and `strdup` succeeds.
- PartialRepaint.EveryFrameExact: assumes that the terminal library flags every row it changes, that cell visits and glyph draws succeed on a latched buffer, and that every change of overlay, tab, size or buffers is marked for a full repaint. Two sites do not mark it by themselves: the alt-lock clear at src/main.c:1403 when the entry is sticky, and the failed-tab rollback at src/main.c:1480-1496. When a failed latch swallows the mark of a resize, what the new buffers contain is unknown, and until the next full frame a row holds if that content happens to be right.
- PartialRepaint.FailedLatchExact: the two frames follow each other directly and the second latches a buffer that was up to date; every other case is one of `EveryFrameExact`.
- PartialRepaint.Renderer.VisitCells: rows are pictures and the frame is a value; drawing below a row is covered by `Bitmap`, `Damage` and `GlyphDraw`, not composed with it. What painting a row draws is left free. The margin around the grid is ignored.
- Bitmap.Bitmap.FillRect: coordinates are unbounded integers; sums that overflow a C int are not modelled. The same holds for the dirty box.
- Allocation failure everywhere, except that opening a tab can fail.
- UrlPicker.Flatten: a failed row visit contributes nothing, as in the code; `RowBorder` holds across such gaps too. The QR encoder is reduced to whether the URL fits, and rendering is left out.
- ConfigTables.KeymapMerge: starts from validated entries; Lua parsing, key-name tables and `action_parse` are left out. The heap is a map from pointers to strings, the fresh pointers of which are never reused.
- LuaQuote.LiteralReadBack: the reader refuses the `\u{...}` escape, which the printer never emits.
- Chords.Keyboard.LayerModkey: key codes are stand-ins, of which only distinctness matters; actions other than the Ctrl toggle and metamode change no modifier. The layers below (help overlay, double tap, key hold, metamode, symbol menus' contents) and redraw marks are left out.
- Drag.TouchMove: touch coordinates are C ints below the largest.
- Drag.Gesture.Move: the row height is fixed and the origin session lives for the whole gesture. Arrow-pad mode and its timing are left out.
- Tabs.RunOk: session ids do not wrap.
- GlyphCache.Cache.Lookup: the render function is a parameter and does not change while a font is set. Bitmaps in the cache are values, which `GlyphDraw.DrawGlyph` copies before drawing; that the original blits from the cached bitmap itself is not captured.
- Vtable wrappers, session accessors, symbol-menu and help-overlay layout, icons, packaging, environment setup: one-branch mappings or fixed tables that would only add easy members.
