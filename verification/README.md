# tinyrl line-editing core, modelled in Dafny

This project models the line-editing engine of tinyrl, a small readline replacement written in C (`tinyrl.c`). It covers four pieces and proves properties about each:

- **The line buffer.** The editable line is either the editor's own buffer or a borrowed string, such as a recalled history entry. The first edit copies a borrowed line into the buffer (`changed_line`). Capacity grows either without bound, with ten bytes of headroom, or up to a fixed `max_line_length`. Text is inserted and deleted at the cursor (`point`), and `end` tracks the length.
- **The key handlers.** Each handler is a state transformer on the editor session: insert, interrupt, start and end of line, kill and yank with a kill register, left, right, backspace, delete, erase to start, clear screen and finish line. A handler that returns false rings the bell.
- **The key trie.** A prefix tree over input bytes. Each slot holds an optional handler and an optional child node. The model covers:
  - building the trie (`tinyrl_bind_key`, `tinyrl_bind_keyseq`, `tinyrl_bind_special`, and the default bindings of `tinyrl_init`);
  - the walk of `tinyrl_handle_key`, which resolves to the *last* handler seen on the path.
- **Redisplay.**
  - the text shown under the three echo modes (`tinyrl_internal_print`);
  - grapheme wrapping into terminal rows (`tinyrl_string_wrap`);
  - how much of the previous frame is kept on screen, with the back-off at the row boundary;
  - where the cursor goes;
  - the abstract terminal operations `tinyrl_redisplay` emits.

The UTF-8 and grapheme helpers (utf8.h) are not part of this model. `Graphemes.Service` stands in for them: a record of four functions, with a predicate `Valid` stating everything the editor relies on:

- the next boundary lies ahead and within the text;
- the previous boundary lies behind;
- every width is at most 2.

Every result holds for every valid service. `Graphemes.Ascii` is one concrete service; the worked sessions in `Scenarios` use it.

Modules:

- `Wrappers`: `Option`.
- `Bytes`: bytes and the C-string conventions (`strlen`, `strdup`, `strncpy`).
- `Graphemes`: the grapheme service.
- `LineBuffer`: the buffer.
- `Keymap`: the trie and its walk.
- `Display`: redisplay.
- `Editing`: the session, its handlers, dispatch and the default key map.
- `Scenarios`: worked inputs.

A capped buffer does not refuse every insert that reaches the cap. The code checks the cap only when the buffer has to grow (tinyrl.c:806, 842-847), so a buffer whose capacity already covers the requested length accepts the insert whatever the cap. `LineBuffer.BoundedInsertBeyondCapFails` states the refusal where the code makes it: growth is needed.

`Display.Wrap` advances over a grapheme with the service's `next`. `tinyrl_string_wrap` takes the next offset from the out-parameter of `utf8_grapheme_width` (tinyrl.c:468). The model assumes the two agree.

## Model

| member | source | states |
|---|---|---|
| Bytes.CString | tinyrl.c:127-128 | what `strlen`/`strdup` see of a string: a prefix of it with no NUL, stopping exactly at the first NUL when there is one |
| Bytes.StrnCpy | tinyrl.c:860 | `strncpy` writes exactly `n` bytes: the source's C string, cut at `n`, then NUL padding up to `n` |
| Bytes.StrnCpyOfStrlen | tinyrl.c:869-872 | copying `strlen(text)` bytes with `strncpy` copies exactly the C string `text` |
| Graphemes.Boundaries | tinyrl.c:441-447 | stepping with `utf8_grapheme_next` from offset i reaches the end of the text; every boundary met lies between i and the end |
| Graphemes.BoundariesIncreasing | tinyrl.c:441-447 | the boundaries strictly increase, so each offset is visited at most once and the loop ends |
| LineBuffer.Fresh | tinyrl.c:741-745 | a new read starts with an empty owned line, cursor at 0, and the buffer invariant holding |
| LineBuffer.Promote | tinyrl.c:121-131 | `changed_line` makes the line owned and keeps its text, point and end. Capacity becomes the copy's length when the line was borrowed; an owned line is unchanged |
| LineBuffer.Extend | tinyrl.c:777-829 | growth succeeds exactly when the room already suffices, or the allocation succeeds and there is no cap or the request is below it. Unbounded growth gives max(request, old size + 10); bounded growth gives max_line_length - 1; a failure changes nothing; the text and point are never changed |
| LineBuffer.InsertFails | tinyrl.c:780-847 | an insert fails exactly when it needs growth (end + delta above capacity, after promotion) and `tinyrl_extend_line_buffer` refuses it. An owned buffer with room never fails; with allocation failing, needed growth always fails |
| LineBuffer.InsertTextLen | tinyrl.c:834-867 | success exactly when growth is not needed or succeeds. On success the line is the old text before the point, the `strncpy` bytes, then the old text from the point; point and end advance by delta and end stays within capacity. On failure text, point and end are unchanged; the invariant point <= end <= size always holds |
| LineBuffer.InsertText | tinyrl.c:869-872 | inserting a C string puts exactly its bytes (up to its first NUL) at the point and advances the point by its length, or changes nothing on failure |
| LineBuffer.DeleteText | tinyrl.c:878-901 | an empty range is a no-op. Otherwise bytes [start, stop) are removed and end shrinks by the range length. A point at or before start stays, one inside (start, stop] moves to start, one past stop moves left by the range length |
| LineBuffer.SetLine | tinyrl.c:987-991 | a given text is shown borrowed (up to its first NUL) and the owned buffer is untouched; without one the owned buffer's string is shown again. Either way the cursor goes to the end |
| LineBuffer.InsertDeleteRoundTrip | tinyrl.c:834-901 | a successful insert of n bytes at p followed by `delete_text(p, p+n)` restores the text, point and end |
| LineBuffer.BoundedInsertBeyondCapFails | tinyrl.c:780-847 | with a cap, an insert that needs growth to a length at or beyond the cap fails and leaves text, point and end as they were. A borrowed line always needs growth for a non-empty insert |
| LineBuffer.UnboundedGrowth | tinyrl.c:121-131 | an unbounded insert that needs growth, with allocation succeeding, succeeds. This holds for an owned line and for a recalled (borrowed) line alike, the latter after `changed_line` copies it into a buffer of its own length; the grow of tinyrl.c:789-803 then gives capacity at least the requested length and at least the promoted capacity plus 10 |
| Keymap.NewKeymap | tinyrl.c:273-287 | a new node has every handler and child empty |
| Keymap.BindKey | tinyrl.c:957-962 | binding byte c sets its handler, keeps its child, and leaves every other byte's slot as it was |
| Keymap.BindPath | tinyrl.c:903-924 | binding a sequence touches only the slot of its first byte. A longer sequence keeps that slot's handler and gives it a child |
| Keymap.BindKeySeq | tinyrl.c:903-924 | an empty key string binds nothing; a non-empty one is afterwards looked up to the handler just bound |
| Keymap.BindThenLookup | tinyrl.c:903-924 | after binding a non-empty sequence, looking that sequence up gives the new handler |
| Keymap.BindLeavesOthers | tinyrl.c:903-924 | binding one sequence changes the lookup of no other sequence, even one sharing a prefix or passing through it |
| Keymap.NewKeymapLookupEmpty | tinyrl.c:273-287 | a new node binds no sequence at any depth |
| Keymap.SpecialSeq | tinyrl.c:926-955 | every special key's sequence starts with ESC, has at least three bytes, and contains no NUL |
| Keymap.SpecialSeqInjective | tinyrl.c:926-955 | distinct special keys send distinct sequences |
| Keymap.BindSpecial | tinyrl.c:926-955 | binding a special key makes its sequence resolve to the handler, leaves every other sequence's lookup alone, and touches no root slot but ESC |
| Keymap.Walk | tinyrl.c:605-640 | the walk leaves a suffix of the pending input unread, and the key given to the handler is non-empty |
| Keymap.WalkKeyIsLastRead | tinyrl.c:626-636 | the key buffer handed to the handler holds the unit read last: the first unit when no further read happened, otherwise the last pending unit the walk consumed |
| Keymap.WalkBytesLast | tinyrl.c:613-634 | the walk resolves to the handler of the longest bound prefix of the input, or to none when no prefix is bound. It is not the deepest node reached |
| Keymap.WalkIsWalkBytes | tinyrl.c:605-640 | how the input is split into read units does not change the handler resolved: it equals the walk over the concatenated bytes |
| Keymap.BindThenWalk | tinyrl.c:605-640 | pressing exactly a just-bound sequence, one byte per read, resolves to its handler and leaves no input unread |
| Keymap.NoHandlerOnPath | tinyrl.c:605-640 | when no prefix of the input is bound, the walk resolves to no handler |
| Keymap.WalkUnbound | tinyrl.c:605-640 | a sequence with no bound prefix that the trie still follows to its last byte resolves to no handler and consumes all its input |
| Keymap.WalkRestEmpty | tinyrl.c:613-634 | walking along a path the trie contains reads every unit of the input |
| Display.Scan | tinyrl.c:439-447 | the echo-character count is the number of graphemes of the line |
| Display.ScanMissesPoint | tinyrl.c:441-443 | when the point is never a boundary, the display point stays at its initial 0 |
| Display.ScanMeetsPoint | tinyrl.c:441-443 | when the point is the k-th boundary, the display point is the count k |
| Display.ScanFromStart | tinyrl.c:439-447 | from the start of the line, the display point is the point's grapheme index when the point is a boundary, and 0 otherwise |
| Display.InternalPrint | tinyrl.c:426-460 | echo on: the line and point themselves. Echo off with an echo character: that character once per grapheme, with the point at the point's grapheme index. Echo off without one: empty text, point 0 |
| Display.Wrap | tinyrl.c:462-475 | wrapping never moves the row back |
| Display.WrapColumnBound | tinyrl.c:462-475 | when no grapheme is wider than the row, the column stays within the row width |
| Display.WrapAll | tinyrl.c:462-475 | wrapping a whole string ends on or below the starting row |
| Display.KeepPrefix | tinyrl.c:499-511 | the kept length lies within the new text and the previous `last_end`, matches the previous text byte for byte, and is a grapheme boundary. The loop stops at the end, at a grapheme reaching past `last_end`, or at the first differing grapheme |
| Display.BackOff | tinyrl.c:513-523 | the kept prefix is cut back, exactly when it is non-empty and ends at column == width, to the previous grapheme boundary; its position is re-wrapped |
| Display.KeepLength | tinyrl.c:499-523 | the final kept length is at most min(end, last_end), the kept bytes equal the previous frame's, and its position is the wrap of the kept bytes |
| Display.PointPos | tinyrl.c:555-562 | the cursor is at the wrap of the text up to the point, or at the start of the next row. It is moved when it lands at column == width or the grapheme under it does not fit, and stays at the wrap in every other case; it never ends at column == width |
| Display.PointFits | tinyrl.c:555-562 | with no grapheme before the point wider than the row, the cursor column is below the width. The grapheme under the cursor fits on its row whenever it is no wider than the row; a wider one starts at column 0 |
| Display.ToLastRow | tinyrl.c:526-531 | the moves from the previous cursor row reach the previous frame's last row |
| Display.EraseRows | tinyrl.c:534-537 | one erase-line and one cursor-up per row between the kept row and the last row, moving up by that many rows |
| Display.EraseChanged | tinyrl.c:526-542 | the erase phase starts with a carriage return, ends with erase-to-end-of-line, and lands on the kept row. It erases a whole row exactly when the kept row is above the previous last row |
| Display.EraseChangedForward | tinyrl.c:538-541 | the erase phase's only forward move is `cursor_forward(keep_col)`, just before the erase-to-end, and it is there whenever the kept column is not 0 |
| Display.ToPoint | tinyrl.c:564-578 | from the end of the text the cursor reaches the point row. When the point is at the end, the only move is a newline when the point is on the next row. When it is before the end, the moves end with a carriage return followed by a forward move to the point's column, or with the carriage return alone at column 0 |
| Display.Redisplay | tinyrl.c:477-587 | the saved frame holds the display text, its last row and the point row. With no previous frame, the operations are exactly: the prompt, the whole display text, then the moves from the end of the text to the point. With one, they are exactly: the erase of the changed rows from the kept position, the display text after the kept prefix (`KeepLength`, whose bytes equal the previous frame's), then the same moves to the point |
| Display.KeepWholeFrame | tinyrl.c:499-523 | a previous frame showing the same text is kept whole, ending on its last row, unless the text ends exactly at the row width |
| Display.KeptRedrawClean | tinyrl.c:526-548 | a redraw that keeps a row at or below the previous last row and writes nothing erases no row |
| Display.RedisplayUnchanged | tinyrl.c:477-587 | redrawing against a frame that already shows the display text keeps all of it, writes nothing new and erases no row, unless the text ends exactly at the row width |
| Display.RedisplayTwice | tinyrl.c:477-587 | a second redisplay with no change in between keeps the whole line and erases no row, unless the text ends exactly at the row width |
| Editing.KeyDefault | tinyrl.c:133-138 | the key's bytes are inserted at the point and the point moves past them; a failed insert changes nothing and rings the bell |
| Editing.KeyInterrupt | tinyrl.c:140-148 | the line is emptied with the cursor at 0, and the read is finished |
| Editing.KeyStartOfLine | tinyrl.c:150-157 | the cursor goes to 0 and the text is unchanged |
| Editing.KeyEndOfLine | tinyrl.c:159-166 | the cursor goes to the end and the text is unchanged |
| Editing.InsertBell | tinyrl.c:794-826 | a failed growth (the `tinyrl_ding` calls at lines 798, 814 and 823) rings the bell once, and a successful one emits nothing |
| Editing.OwnedSuffix | tinyrl.c:176 | what `strdup(&buffer[point])` copies: the owned buffer's bytes from the offset up to its first NUL or its end. Past the owned string the C code reads stale or out-of-bounds memory; the model reads nothing there and gives the empty string |
| Editing.KillAsWritten | tinyrl.c:168-181 | as the code is written: the register receives the owned buffer's string from the point. The line keeps the part before the point and the cursor stays |
| Editing.Kill | tinyrl.c:168-181 | the register receives the line's bytes from the point to the end, the line keeps the part before the point, and the cursor stays |
| Editing.KillAgreesWhenOwned | tinyrl.c:168-181 | on an owned line, the as-written and the corrected kill agree |
| Editing.KillAsWrittenLosesBorrowedText | tinyrl.c:176 | with the history entry "abc" shown and the cursor at 0, the as-written kill stores "" where the line's text is "abc" |
| Editing.KeyYank | tinyrl.c:183-192 | fails with no change when nothing was ever killed. Otherwise the register's bytes are inserted at the point and the cursor moves past them, or nothing changes on failure |
| Editing.KeyFinishLine | tinyrl.c:194-201 | emits a newline, finishes the read, and leaves the line alone |
| Editing.KeyLeft | tinyrl.c:203-212 | succeeds exactly when the cursor is not at the start. The cursor then moves to the previous grapheme boundary (`utf8_grapheme_prev`), behind the old cursor. The text never changes, and a failure changes nothing |
| Editing.KeyRight | tinyrl.c:214-223 | succeeds exactly when the cursor is not at the end. The cursor then moves to the next grapheme boundary (`utf8_grapheme_next`), ahead of it and within the line. The text never changes, and a failure changes nothing |
| Editing.KeyBackspace | tinyrl.c:225-238 | succeeds exactly when the cursor is not at the start. The cursor goes to the previous codepoint boundary (`utf8_char_prev`), and exactly the bytes from there to the old cursor are removed. A failure changes nothing |
| Editing.KeyDelete | tinyrl.c:240-252 | succeeds exactly when the cursor is not at the end. Exactly the bytes from the cursor to the next grapheme boundary (`utf8_grapheme_next`) are removed, the end shrinks by their count, and the cursor stays. A failure changes nothing |
| Editing.KeyClearScreen | tinyrl.c:254-262 | clears the screen, homes the cursor, and redraws from the prompt, leaving the line alone |
| Editing.KeyEraseLine | tinyrl.c:264-271 | the line keeps only the bytes from the point and the cursor goes to 0 |
| Editing.RedrawLine | tinyrl.c:477-587 | the session remembers a frame holding the display text of its line; the line is untouched |
| Editing.ResetLineState | tinyrl.c:978-985 | with the last frame forgotten, the redraw writes the prompt and then the whole display text |
| Editing.RunHandler | tinyrl.c:635-639 | dispatch runs the resolved handler on the key read last. Only the kill handler changes the kill register; only finish-line and interrupt finish the read; only insert, finish-line, clear-screen and yank emit terminal operations |
| Editing.HandleKey | tinyrl.c:605-640 | with no handler resolved, only the bell and no change. Otherwise the resolved handler runs on the key the walk returns (the unit read last, by `Keymap.WalkKeyIsLastRead`), with the bell added when it fails; the unread input is what the walk left |
| Editing.BindRange | tinyrl.c:316-317 | bytes in the range are bound to the handler; every other byte's slot and every child are unchanged |
| Editing.PrintableLoop | tinyrl.c:316-317 | the loop over bytes 32 to 255 builds a root binding exactly those bytes to the default handler |
| Editing.BindControls | tinyrl.c:318-329 | the control-key bindings leave the slot of every byte from 32 up, except DEL (BACKSPACE), as it was |
| Editing.BindControlsChild | tinyrl.c:318-329 | the control-key bindings create no child |
| Editing.BindControlsHandler | tinyrl.c:318-329 | over the printable root, the control-key bindings leave each byte with its single-byte binding: later bindings replace earlier ones |
| Editing.DefaultSinglesSlot | tinyrl.c:316-329 | after the single-byte bindings, each byte holds its single-byte binding and no child |
| Editing.DefaultBindingSpecial | tinyrl.c:330-335 | every multi-byte default binding is one of the bound special keys' sequences |
| Editing.WithSpecials | tinyrl.c:330-335 | the special-key bindings change no root slot but ESC |
| Editing.WithSpecialsOthers | tinyrl.c:330-335 | the special-key bindings change the lookup of no other sequence |
| Editing.WithSpecialsBound | tinyrl.c:330-335 | each bound special key's sequence resolves to its handler; the later special bindings do not override it |
| Editing.DefaultBindingOfSpecial | tinyrl.c:330-335 | the byte-level table of default bindings agrees with the special-key handlers |
| Editing.DefaultKeymap | tinyrl.c:315-335 | in the default key map every byte but ESC holds its single-byte binding and no child |
| Editing.DefaultKeymapLookup | tinyrl.c:315-335 | every sequence resolves in the default key map as the table of default bindings says, and every other sequence has no handler |
| Editing.DefaultKeymapIsDefault | tinyrl.c:315-335 | the default key map binds every sequence as the table says and has the default root |
| Editing.PlainKeyResolves | tinyrl.c:613-634 | under the default root, a key not starting with ESC resolves to its first byte's binding and reads no further input |
| Editing.TypingInserts | tinyrl.c:605-640 | a printable key is inserted. A failed insert rings the bell twice (the growth bell and the handler-failure bell), and no further input is read |
| Scenarios.AsciiWrap | tinyrl.c:462-475 | one byte per column: a run that fits advances the column by its length |
| Scenarios.KillAbcdef | tinyrl.c:168-181 | Ctrl-K on "abcdef" with the cursor at 2 leaves "ab", cursor 2, and stores "cdef" |
| Scenarios.YankCdef | tinyrl.c:183-192 | yanking "cdef" at the end of "ab" gives "abcdef" with the cursor at 6 |
| Editing.KillThenYankRestores | tinyrl.c:168-192 | for any line without NUL bytes, killing to the end and yanking back restores the line with the cursor at its end, and the register holds the killed bytes; a failed yank leaves the line as the kill left it |
| Scenarios.KillThenYank | tinyrl.c:168-192 | killing from 2 and yanking at the end restores "abcdef" |
| Scenarios.HelloAt80 | tinyrl.c:477-587 | a first draw of "hello" after "> " at 80 columns writes the prompt and the line, moves nothing, and saves a one-row frame |
| Scenarios.EchoStars | tinyrl.c:436-453 | with echo off and '*' as the echo character, "hello" shows as five stars, with the cursor after the fifth |
| Scenarios.EscapeBindings | tinyrl.c:330-335 | the default bindings leave ESC, ESC [ and ESC [ X unbound while ESC [ C is bound |
| Scenarios.EscapeBracketX | tinyrl.c:613-634 | the walk over ESC [ X, one byte per read, resolves to no handler and reads everything |
| Scenarios.UnboundEscape | tinyrl.c:605-640 | handling ESC [ X rings only the bell and leaves the editor unchanged |

## Left out

- Raw mode (tinyrl.c:88-114): termios set-up and restore are operating-system side effects.
- Byte input (tinyrl.c:382-424):
  - Blocking and non-blocking `getc`/`fcntl` reads are replaced by the key unit and the list of pending units a non-blocking read would return.
  - An empty list stands for a read that returns nothing.
  - A failed non-blocking read can overwrite the first bytes of the key buffer before returning -1 (tinyrl.c:395-405). The model keeps the key unit read last intact.
- Printing and flushing (tinyrl.c:53-86, 358-368, 964-976): the escape sequences and `fflush` become abstract `Display.Op` values, and the bell is `Bell`.
- The session loops `tinyrl_readtty`, `tinyrl_readraw` and `tinyrl_readline` (tinyrl.c:642-770): stream plumbing and end-of-file checks. Only the fresh buffer a read starts with is modelled (`LineBuffer.Fresh`).
- Terminal width (tinyrl.c:1014-1022): the `ioctl` query becomes a parameter `width > 0`.
- Memory management (tinyrl.c:289-308, 795, 809-811):
  - `malloc`, `free` and `realloc`, and the recursive teardown `tinyrl_keymap_free`/`tinyrl_fini`, are not modelled.
  - Growth failure is the `allocOk` parameter.
  - Allocation failures in `changed_line`, in `tinyrl_internal_print`, in kill and in keymap creation are assumed not to happen.
- The UTF-8 and grapheme tables: utf8.h is not part of this model. The helpers are the parameters of `Graphemes.Service`, and `Valid` states what the editor relies on.
- history.h: declarations only.
- `tinyrl_replace_line` and the accessors (tinyrl.c:993-1044): thin wrappers outside the editing core.
- `CTRL(c)`: tinyrl.h is not part of this model. It is taken to be `c & 0x1f`, which is `Editing.Ctrl`.
- Editing.Ctrl: defined only for the ASCII letters and symbols 64..127 it is applied to.
- LineBuffer.InsertTextLen: `point`, `end` and `delta` are unbounded; the source's 32-bit `unsigned` arithmetic at tinyrl.c:842 could wrap for lengths near 2^32.
- LineBuffer.Extend: the `+ 1` terminator byte `realloc` reserves is not tracked; `size` is the capacity without it.
- Bytes.StrnCpy: when the inserted text is shorter than `delta`, the NUL padding is kept inside the model's line. In C the line's string would then end at the first NUL.
- Display.RedisplayUnchanged: states nothing when the display text ends exactly at the row width. The back-off then cuts the kept prefix and the last grapheme is rewritten.
- Display.Redisplay: the terminal state the operations produce is not modelled; its contract is about the ops and the saved frame.
- Editing.HandleKey: a failing insert rings the bell twice, once inside `tinyrl_extend_line_buffer` (tinyrl.c:798, 814, 823) and once for the failed handler (tinyrl.c:636-638). The model keeps both.
- Editing.Kill: the session's dispatch uses this corrected kill, not `Editing.KillAsWritten` (see Findings).

## Findings

| source | as written | input that shows it | evidently intended | confidence | as-written member | corrected member |
|---|---|---|---|---|---|---|
| tinyrl.c:176 | the kill register is filled with `strdup(&this->buffer[this->point])`, reading the owned buffer before `tinyrl_delete_text` promotes a borrowed line (tinyrl.c:179) | a recalled history line "abc" shown borrowed, owned buffer "", point 0: the register receives "" and the line is still cleared | copy the line being edited, `line[point..end]` | not executed | Editing.KillAsWritten (shown by Editing.KillAsWrittenLosesBorrowedText) | Editing.Kill |
