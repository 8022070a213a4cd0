/** The editor session and its key handlers: the state transformers bound
    to keys, their dispatch through the key trie, and the default key map
    (tinyrl.c:133-271, 310-335, 477-587, 605-640, 978-985). */
module Editing {
  import opened Wrappers
  import opened Bytes
  import opened Graphemes
  import opened LineBuffer
  import opened Keymap
  import opened Display

  /** The handlers the editor binds by default. */
  datatype Handler =
    | SelfInsert | FinishLine | Interrupt | Backspace | DeleteForward | ClearDisplay
    | EraseToStart | StartOfLine | EndOfLine | KillToEnd | Yank | MoveLeft | MoveRight

  /** The session state handlers change: the line buffer, the kill register
      (`kill_string`, None while NULL), the done flag, the echo settings and
      the last drawn frame (None while `last_buffer` is NULL). */
  datatype Editor = Editor(buf: LineBuffer, kill: Option<seq<byte>>, done: bool, echo: Echo, frame: Option<Frame>)
  {
    ghost predicate Valid() {
      buf.Valid() && (frame.Some? ==> frame.value.Valid())
    }
  }

  /** What a handler may consult besides the state: the grapheme service,
      the terminal width, the prompt (a C string, so without NUL), and
      whether memory allocation succeeds. */
  datatype Env = Env(g: Service, width: nat, prompt: seq<byte>, allocOk: bool)
  {
    ghost predicate Valid() {
      Graphemes.Valid(g) && width > 0 && NoNul(prompt)
    }
  }

  /** A handler's result (false rings the bell), the new state, and the
      terminal operations emitted on the way. */
  datatype Outcome = Outcome(ok: bool, ed: Editor, ops: seq<Op>)

  /** The bell `tinyrl_extend_line_buffer` rings when an insert fails. */
  function InsertBell(ok: bool): (r: seq<Op>)
    ensures r == [] <==> ok
    ensures !ok ==> r == [Bell]
  {
    if ok then [] else [Bell]
  }

  /** `tinyrl_key_default`: insert the key's bytes at the point. */
  function KeyDefault(env: Env, ed: Editor, key: seq<byte>): (r: Outcome)
    requires ed.Valid()
    ensures r.ed.Valid() && r.ed.kill == ed.kill && r.ed.done == ed.done
    ensures r.ok ==> && r.ed.buf.Text() == ed.buf.Text()[..ed.buf.point] + CString(key) + ed.buf.Text()[ed.buf.point..]
                     && r.ed.buf.point == ed.buf.point + |CString(key)|
    ensures !r.ok ==> r.ed.buf.Text() == ed.buf.Text() && r.ed.buf.point == ed.buf.point && r.ops == [Bell]
  {
    var e := InsertText(ed.buf, key, env.allocOk);
    Outcome(e.ok, ed.(buf := e.buf), InsertBell(e.ok))
  }

  /** `tinyrl_key_interrupt`: clear the line and finish the read. */
  function KeyInterrupt(ed: Editor): (r: Outcome)
    requires ed.Valid()
    ensures r.ok && r.ed.Valid() && r.ed.done && r.ops == []
    ensures r.ed.buf.Text() == [] && r.ed.buf.point == 0 && r.ed.buf.end == 0
  {
    Outcome(true, ed.(buf := DeleteText(ed.buf, 0, ed.buf.end), done := true), [])
  }

  /** `tinyrl_key_start_of_line`. */
  function KeyStartOfLine(ed: Editor): (r: Outcome)
    requires ed.Valid()
    ensures r.ok && r.ed.Valid() && r.ed.buf.point == 0 && r.ed.buf.Text() == ed.buf.Text()
  {
    Outcome(true, ed.(buf := ed.buf.(point := 0)), [])
  }

  /** `tinyrl_key_end_of_line`. */
  function KeyEndOfLine(ed: Editor): (r: Outcome)
    requires ed.Valid()
    ensures r.ok && r.ed.Valid() && r.ed.buf.point == r.ed.buf.end && r.ed.buf.Text() == ed.buf.Text()
  {
    Outcome(true, ed.(buf := ed.buf.(point := ed.buf.end)), [])
  }

  /** The C string at offset `p` of the owned buffer, as `strdup(&buffer[p])`
      reads it. Past the owned string the source reads stale or foreign
      memory; the model reads nothing there. */
  function OwnedSuffix(b: LineBuffer, p: nat): (r: seq<byte>)
    ensures NoNul(r)
    ensures p <= |b.buffer| ==> && p + |r| <= |b.buffer| && r == b.buffer[p..p + |r|]
                                && (p + |r| == |b.buffer| || b.buffer[p + |r|] == NUL)
    ensures p > |b.buffer| ==> r == []
  {
    if p <= |b.buffer| then CString(b.buffer[p..]) else []
  }

  /** `tinyrl_key_kill` as written: the register receives the owned
      buffer's bytes from the point, not the line's. */
  function KillAsWritten(ed: Editor): (r: Outcome)
    requires ed.Valid()
    ensures r.ok && r.ed.Valid()
    ensures r.ed.kill == Some(OwnedSuffix(ed.buf, ed.buf.point))
    ensures r.ed.buf.Text() == ed.buf.Text()[..ed.buf.point] && r.ed.buf.point == ed.buf.point
  {
    var killed := OwnedSuffix(ed.buf, ed.buf.point);
    Outcome(true, ed.(kill := Some(killed), buf := DeleteText(ed.buf, ed.buf.point, ed.buf.end)), [])
  }

  /** Kill to the end of the line: the register receives the line's bytes
      from the point (up to a NUL, as `strdup` copies), the line keeps the
      part before the point, and the point stays. */
  function Kill(ed: Editor): (r: Outcome)
    requires ed.Valid()
    ensures r.ok && r.ed.Valid()
    ensures r.ed.kill == Some(CString(ed.buf.Text()[ed.buf.point..]))
    ensures NoNul(ed.buf.Text()) ==> r.ed.kill == Some(ed.buf.Text()[ed.buf.point..])
    ensures r.ed.buf.Text() == ed.buf.Text()[..ed.buf.point] && r.ed.buf.point == ed.buf.point
  {
    var t := ed.buf.Text();
    var killed := CString(t[ed.buf.point..]);
    assert NoNul(t) ==> killed == t[ed.buf.point..] by {
      if NoNul(t) { CStringOfNoNul(t[ed.buf.point..]); }
    }
    Outcome(true, ed.(kill := Some(killed), buf := DeleteText(ed.buf, ed.buf.point, ed.buf.end)), [])
  }

  /** On an owned line both readings of the kill agree. */
  lemma KillAgreesWhenOwned(ed: Editor)
    requires ed.Valid() && ed.buf.line.Owned?
    ensures KillAsWritten(ed) == Kill(ed)
  {
  }

  /** The as-written kill loses a recalled line: with the history entry
      "abc" shown and the cursor at 0, the register receives the empty owned
      buffer's text instead of "abc", and the line is still cleared. */
  lemma KillAsWrittenLosesBorrowedText()
    ensures var abc: seq<byte> := ['a' as byte, 'b' as byte, 'c' as byte];
            var ed := Editor(LineBuffer(Borrowed(abc), [], 0, 0, 3, 0), None, false, Echo(true, NUL), None);
            && KillAsWritten(ed).ed.kill == Some([])
            && Kill(ed).ed.kill == Some(abc)
            && KillAsWritten(ed).ed.buf.Text() == []
  {
    var abc: seq<byte> := ['a' as byte, 'b' as byte, 'c' as byte];
    assert NoNul(abc);
    assert CString([]) == [];
  }

  /** `tinyrl_key_yank`: insert the kill register at the point; fails with
      no change when nothing was ever killed. */
  function KeyYank(env: Env, ed: Editor): (r: Outcome)
    requires ed.Valid()
    ensures r.ed.Valid() && r.ed.kill == ed.kill
    ensures ed.kill.None? ==> !r.ok && r.ed == ed && r.ops == []
    ensures ed.kill.Some? && r.ok ==>
              && r.ed.buf.Text() == ed.buf.Text()[..ed.buf.point] + CString(ed.kill.value) + ed.buf.Text()[ed.buf.point..]
              && r.ed.buf.point == ed.buf.point + |CString(ed.kill.value)|
    ensures !r.ok ==> r.ed.buf.Text() == ed.buf.Text() && r.ed.buf.point == ed.buf.point
  {
    match ed.kill
    case None => Outcome(false, ed, [])
    case Some(k) =>
      var e := InsertText(ed.buf, k, env.allocOk);
      Outcome(e.ok, ed.(buf := e.buf), InsertBell(e.ok))
  }

  /** Killing to the end and yanking back restores a line without NUL
      bytes, with the cursor at its end; a failed yank leaves the line as
      the kill left it. */
  lemma KillThenYankRestores(env: Env, ed: Editor)
    requires ed.Valid() && NoNul(ed.buf.Text())
    ensures var y := KeyYank(env, Kill(ed).ed);
            && (y.ok ==> y.ed.buf.Text() == ed.buf.Text() && y.ed.buf.point == ed.buf.end)
            && (!y.ok ==> y.ed.buf.Text() == ed.buf.Text()[..ed.buf.point] && y.ed.buf.point == ed.buf.point)
            && y.ed.kill == Some(ed.buf.Text()[ed.buf.point..])
  {
    var t := ed.buf.Text();
    var suffix := t[ed.buf.point..];
    var k := Kill(ed).ed;
    assert k.kill == Some(suffix) && CString(suffix) == suffix;
    assert k.buf.Text()[..k.buf.point] == t[..ed.buf.point] && k.buf.Text()[k.buf.point..] == [];
    assert t[..ed.buf.point] + suffix + [] == t;
  }

  /** `tinyrl_key_crlf`: emit a newline and finish the read. */
  function KeyFinishLine(ed: Editor): (r: Outcome)
    ensures r.ok && r.ed.done && r.ed.buf == ed.buf && r.ops == [Newline]
  {
    Outcome(true, ed.(done := true), [Newline])
  }

  /** `tinyrl_key_left`: one grapheme back; fails at the start of the line. */
  function KeyLeft(env: Env, ed: Editor): (r: Outcome)
    requires env.Valid() && ed.Valid()
    ensures r.ed.Valid() && r.ed.buf.Text() == ed.buf.Text() && r.ops == []
    ensures r.ok <==> ed.buf.point > 0
    ensures r.ok ==> r.ed.buf.point == env.g.prev(ed.buf.Text(), ed.buf.point) < ed.buf.point
    ensures !r.ok ==> r.ed == ed
  {
    if ed.buf.point > 0 then
      Outcome(true, ed.(buf := ed.buf.(point := env.g.prev(ed.buf.Text(), ed.buf.point))), [])
    else Outcome(false, ed, [])
  }

  /** `tinyrl_key_right`: one grapheme on; fails at the end of the line. */
  function KeyRight(env: Env, ed: Editor): (r: Outcome)
    requires env.Valid() && ed.Valid()
    ensures r.ed.Valid() && r.ed.buf.Text() == ed.buf.Text() && r.ops == []
    ensures r.ok <==> ed.buf.point < ed.buf.end
    ensures r.ok ==> && r.ed.buf.point == env.g.next(ed.buf.Text(), ed.buf.point)
                     && ed.buf.point < r.ed.buf.point <= ed.buf.end
    ensures !r.ok ==> r.ed == ed
  {
    if ed.buf.point < ed.buf.end then
      Outcome(true, ed.(buf := ed.buf.(point := env.g.next(ed.buf.Text(), ed.buf.point))), [])
    else Outcome(false, ed, [])
  }

  /** `tinyrl_key_backspace`: delete the codepoint before the point; fails
      at the start of the line. */
  function KeyBackspace(env: Env, ed: Editor): (r: Outcome)
    requires env.Valid() && ed.Valid()
    ensures r.ed.Valid() && r.ops == []
    ensures r.ok <==> ed.buf.point > 0
    ensures r.ok ==> && r.ed.buf.point == env.g.charPrev(ed.buf.Text(), ed.buf.point) < ed.buf.point
                     && r.ed.buf.Text() == ed.buf.Text()[..r.ed.buf.point] + ed.buf.Text()[ed.buf.point..]
    ensures !r.ok ==> r.ed == ed
  {
    if ed.buf.point > 0 then
      var stop := ed.buf.point;
      var start := env.g.charPrev(ed.buf.Text(), stop);
      Outcome(true, ed.(buf := DeleteText(ed.buf.(point := start), start, stop)), [])
    else Outcome(false, ed, [])
  }

  /** `tinyrl_key_delete`: delete the grapheme at the point; fails at the
      end of the line. */
  function KeyDelete(env: Env, ed: Editor): (r: Outcome)
    requires env.Valid() && ed.Valid()
    ensures r.ed.Valid() && r.ops == [] && r.ed.buf.point == ed.buf.point
    ensures r.ok <==> ed.buf.point < ed.buf.end
    ensures r.ok ==> var stop := env.g.next(ed.buf.Text(), ed.buf.point);
                     && r.ed.buf.Text() == ed.buf.Text()[..ed.buf.point] + ed.buf.Text()[stop..]
                     && r.ed.buf.end == ed.buf.end - (stop - ed.buf.point) < ed.buf.end
    ensures !r.ok ==> r.ed == ed
  {
    if ed.buf.point < ed.buf.end then
      var stop := env.g.next(ed.buf.Text(), ed.buf.point);
      Outcome(true, ed.(buf := DeleteText(ed.buf, ed.buf.point, stop)), [])
    else Outcome(false, ed, [])
  }

  /** `tinyrl_key_erase_line`: delete everything before the point. */
  function KeyEraseLine(ed: Editor): (r: Outcome)
    requires ed.Valid()
    ensures r.ok && r.ed.Valid() && r.ops == []
    ensures r.ed.buf.Text() == ed.buf.Text()[ed.buf.point..] && r.ed.buf.point == 0
  {
    var b := DeleteText(ed.buf, 0, ed.buf.point);
    Outcome(true, ed.(buf := b.(point := 0)), [])
  }

  /** `tinyrl_redisplay` on the session: draw and remember the frame. */
  function RedrawLine(env: Env, ed: Editor): (r: Outcome)
    requires env.Valid() && ed.Valid()
    ensures r.ok && r.ed.Valid() && r.ed.buf == ed.buf && r.ed.frame.Some?
    ensures r.ed.frame.value.text == InternalPrint(env.g, ed.echo, ed.buf.Text(), ed.buf.point).text
  {
    var d := Redisplay(env.g, env.width, env.prompt, ed.echo, ed.buf.Text(), ed.buf.point, ed.frame);
    Outcome(true, ed.(frame := Some(d.frame)), d.ops)
  }

  /** `tinyrl_reset_line_state`: forget the frame, then draw from scratch,
      prompt first. */
  function ResetLineState(env: Env, ed: Editor): (r: Outcome)
    requires env.Valid() && ed.Valid()
    ensures r.ok && r.ed.Valid() && r.ed.buf == ed.buf && r.ed.frame.Some?
    ensures |r.ops| >= 2 && r.ops[0] == Write(env.prompt)
    ensures r.ops[1] == Write(InternalPrint(env.g, ed.echo, ed.buf.Text(), ed.buf.point).text)
  {
    RedrawLine(env, ed.(frame := None))
  }

  /** `tinyrl_key_clear_screen`: clear, home the cursor, redraw in full. */
  function KeyClearScreen(env: Env, ed: Editor): (r: Outcome)
    requires env.Valid() && ed.Valid()
    ensures r.ok && r.ed.Valid() && r.ed.buf == ed.buf
    ensures |r.ops| >= 3 && r.ops[..3] == [Display.ClearScreen, CursorHome, Write(env.prompt)]
  {
    var o := ResetLineState(env, ed);
    o.(ops := [Display.ClearScreen, CursorHome] + o.ops)
  }

  /** Run the handler a key resolved to, with the key unit it was given. */
  function RunHandler(env: Env, h: Handler, key: seq<byte>, ed: Editor): (r: Outcome)
    requires env.Valid() && ed.Valid()
    ensures r.ed.Valid()
    ensures h != KillToEnd ==> r.ed.kill == ed.kill
    ensures h != FinishLine && h != Interrupt ==> r.ed.done == ed.done
    ensures r.ops != [] ==> h in {SelfInsert, FinishLine, ClearDisplay, Yank}
  {
    match h
    case SelfInsert => KeyDefault(env, ed, key)
    case FinishLine => KeyFinishLine(ed)
    case Interrupt => KeyInterrupt(ed)
    case Backspace => KeyBackspace(env, ed)
    case DeleteForward => KeyDelete(env, ed)
    case ClearDisplay => KeyClearScreen(env, ed)
    case EraseToStart => KeyEraseLine(ed)
    case StartOfLine => KeyStartOfLine(ed)
    case EndOfLine => KeyEndOfLine(ed)
    case KillToEnd => Kill(ed)
    case Yank => KeyYank(env, ed)
    case MoveLeft => KeyLeft(env, ed)
    case MoveRight => KeyRight(env, ed)
  }

  /** The state after one key, the operations emitted, and the input units
      the walk left unread. */
  datatype Step = Step(ed: Editor, ops: seq<Op>, rest: seq<seq<byte>>)

  /** `tinyrl_handle_key`: resolve the key through the trie and run the
      handler; the bell rings when no handler was found or it failed. */
  function HandleKey(env: Env, keymap: Node<Handler>, ed: Editor, key: seq<byte>, pending: seq<seq<byte>>): (r: Step)
    requires env.Valid() && ed.Valid() && |key| > 0 && Units(pending)
    ensures r.ed.Valid()
    ensures var res := Walk(keymap, key, 0, pending, None);
            && r.rest == res.rest
            && (res.handler.None? ==> r.ed == ed && r.ops == [Bell])
            && (res.handler.Some? ==>
                  var o := RunHandler(env, res.handler.value, res.key, ed);
                  r.ed == o.ed && (o.ok ==> r.ops == o.ops) && (!o.ok ==> r.ops == o.ops + [Bell]))
  {
    var res := Walk(keymap, key, 0, pending, None);
    match res.handler
    case None => Step(ed, [Bell], res.rest)
    case Some(h) =>
      var o := RunHandler(env, h, res.key, ed);
      Step(o.ed, if o.ok then o.ops else o.ops + [Bell], res.rest)
  }

  /** Bind every byte in [lo, hi) to `h` at the root, as the printable-byte
      loop of `tinyrl_init` does. */
  function BindRange(n: Node<Handler>, lo: nat, hi: nat, h: Handler): (r: Node<Handler>)
    requires lo <= hi <= 256
    ensures forall c: byte :: lo <= c as int < hi ==> Get(r, c).handler == Some(h)
    ensures forall c: byte :: !(lo <= c as int < hi) ==> Get(r, c) == Get(n, c)
    ensures forall c: byte :: Get(r, c).child == Get(n, c).child
    decreases hi - lo
  {
    if lo == hi then n else BindRange(BindKey(n, lo as byte, Some(h)), lo + 1, hi, h)
  }

  /** The control byte CTRL(c) sends (c & 0x1f). */
  function Ctrl(c: char): byte
    requires 64 <= c as int < 128
  {
    (c as int % 32) as byte
  }

  const BACKSPACE: byte := 127

  /** The handler `tinyrl_init` leaves on the single byte `c`: carriage
      return and newline finish the line, the listed control keys (and
      BACKSPACE, 127) have their handlers, the rest of 32..255 inserts
      itself, and every other control byte (ESC included) has none. */
  function SingleBinding(c: byte): Option<Handler> {
    if c == '\r' as byte || c == '\n' as byte then Some(FinishLine)
    else if c == Ctrl('C') then Some(Interrupt)
    else if c == BACKSPACE || c == Ctrl('H') then Some(Backspace)
    else if c == Ctrl('D') then Some(DeleteForward)
    else if c == Ctrl('L') then Some(ClearDisplay)
    else if c == Ctrl('U') then Some(EraseToStart)
    else if c == Ctrl('A') then Some(StartOfLine)
    else if c == Ctrl('E') then Some(EndOfLine)
    else if c == Ctrl('K') then Some(KillToEnd)
    else if c == Ctrl('Y') then Some(Yank)
    else if c as int >= 32 then Some(SelfInsert)
    else None
  }

  /** The handler `tinyrl_init` leaves on the byte sequence `s`: single
      bytes as above; after ESC, the cursor keys ESC [ C, ESC [ D,
      ESC O H, ESC O F and the delete key ESC [ 3 ~; nothing on any other
      sequence (the Insert key's ESC [ 2 ~ is bound to no handler). */
  function DefaultBinding(s: seq<byte>): Option<Handler>
    requires |s| > 0
  {
    if |s| == 1 then SingleBinding(s[0])
    else if s[0] != ESC then None
    else if |s| == 3 && s[1] == '[' as byte then
      (if s[2] == 'C' as byte then Some(MoveRight) else if s[2] == 'D' as byte then Some(MoveLeft) else None)
    else if |s| == 3 && s[1] == 'O' as byte then
      (if s[2] == 'H' as byte then Some(StartOfLine) else if s[2] == 'F' as byte then Some(EndOfLine) else None)
    else if |s| == 4 && s[1] == '[' as byte && s[2] == '3' as byte && s[3] == '~' as byte then Some(DeleteForward)
    else None
  }

  /** A sequence longer than one byte with a default binding is one of the
      special keys' sequences. */
  lemma DefaultBindingSpecial(s: seq<byte>)
    requires |s| > 1 && DefaultBinding(s).Some?
    ensures s == SpecialSeq(Right) || s == SpecialSeq(Left) || s == SpecialSeq(Home)
         || s == SpecialSeq(End) || s == SpecialSeq(Delete)
  {
    if |s| == 3 {
      assert s == [s[0], s[1], s[2]];
    } else {
      assert s == [s[0], s[1], s[2], s[3]];
    }
  }

  /** The root the printable-range loop of `tinyrl_init` builds: bytes
      32 to 255 on the default handler, no children. */
  function PrintableRoot(): (r: Node<Handler>) {
    Node(map c: byte | Printable(c) :: Slot(Some(SelfInsert), None))
  }

  /** The bytes `tinyrl_init` binds to the default handler. */
  predicate Printable(c: byte) {
    c as int >= 32
  }

  /** The loop binding bytes 32 to 255 one by one builds that root. */
  lemma PrintableLoop(c: byte)
    ensures Get(BindRange(NewKeymap(), 32, 256, SelfInsert), c) == Get(PrintableRoot(), c)
  {
  }

  /** The control-key bindings of `tinyrl_init`, in the order made. */
  function BindControls(n: Node<Handler>): (r: Node<Handler>)
    ensures forall d: byte :: d as int >= 32 && d != BACKSPACE ==> Get(r, d) == Get(n, d)
  {
    var n := BindKey(n, '\r' as byte, Some(FinishLine));
    var n := BindKey(n, '\n' as byte, Some(FinishLine));
    var n := BindKey(n, Ctrl('C'), Some(Interrupt));
    var n := BindKey(n, BACKSPACE, Some(Backspace));
    var n := BindKey(n, Ctrl('H'), Some(Backspace));
    var n := BindKey(n, Ctrl('D'), Some(DeleteForward));
    var n := BindKey(n, Ctrl('L'), Some(ClearDisplay));
    var n := BindKey(n, Ctrl('U'), Some(EraseToStart));
    var n := BindKey(n, Ctrl('A'), Some(StartOfLine));
    var n := BindKey(n, Ctrl('E'), Some(EndOfLine));
    var n := BindKey(n, Ctrl('K'), Some(KillToEnd));
    BindKey(n, Ctrl('Y'), Some(Yank))
  }

  /** The control bindings keep every child. */
  lemma BindControlsChild(n: Node<Handler>, c: byte)
    ensures Get(BindControls(n), c).child == Get(n, c).child
  {
    var n1 := BindKey(n, '\r' as byte, Some(FinishLine));
    var n2 := BindKey(n1, '\n' as byte, Some(FinishLine));
    var n3 := BindKey(n2, Ctrl('C'), Some(Interrupt));
    var n4 := BindKey(n3, BACKSPACE, Some(Backspace));
    var n5 := BindKey(n4, Ctrl('H'), Some(Backspace));
    var n6 := BindKey(n5, Ctrl('D'), Some(DeleteForward));
    var n7 := BindKey(n6, Ctrl('L'), Some(ClearDisplay));
    var n8 := BindKey(n7, Ctrl('U'), Some(EraseToStart));
    var n9 := BindKey(n8, Ctrl('A'), Some(StartOfLine));
    var n10 := BindKey(n9, Ctrl('E'), Some(EndOfLine));
    var n11 := BindKey(n10, Ctrl('K'), Some(KillToEnd));
    BindKeyChild(n, '\r' as byte, Some(FinishLine), c);
    BindKeyChild(n1, '\n' as byte, Some(FinishLine), c);
    BindKeyChild(n2, Ctrl('C'), Some(Interrupt), c);
    BindKeyChild(n3, BACKSPACE, Some(Backspace), c);
    BindKeyChild(n4, Ctrl('H'), Some(Backspace), c);
    BindKeyChild(n5, Ctrl('D'), Some(DeleteForward), c);
    BindKeyChild(n6, Ctrl('L'), Some(ClearDisplay), c);
    BindKeyChild(n7, Ctrl('U'), Some(EraseToStart), c);
    BindKeyChild(n8, Ctrl('A'), Some(StartOfLine), c);
    BindKeyChild(n9, Ctrl('E'), Some(EndOfLine), c);
    BindKeyChild(n10, Ctrl('K'), Some(KillToEnd), c);
    BindKeyChild(n11, Ctrl('Y'), Some(Yank), c);
  }

  /** Over a root holding the printable range, the control bindings leave
      each byte with its `SingleBinding`. */
  lemma BindControlsHandler(n: Node<Handler>, c: byte)
    requires Get(n, c).handler == if c as int >= 32 then Some(SelfInsert) else None
    ensures Get(BindControls(n), c).handler == SingleBinding(c)
  {
    var n1 := BindKey(n, '\r' as byte, Some(FinishLine));
    var n2 := BindKey(n1, '\n' as byte, Some(FinishLine));
    var n3 := BindKey(n2, Ctrl('C'), Some(Interrupt));
    var n4 := BindKey(n3, BACKSPACE, Some(Backspace));
    var n5 := BindKey(n4, Ctrl('H'), Some(Backspace));
    var n6 := BindKey(n5, Ctrl('D'), Some(DeleteForward));
    var n7 := BindKey(n6, Ctrl('L'), Some(ClearDisplay));
    var n8 := BindKey(n7, Ctrl('U'), Some(EraseToStart));
    var n9 := BindKey(n8, Ctrl('A'), Some(StartOfLine));
    var n10 := BindKey(n9, Ctrl('E'), Some(EndOfLine));
    var n11 := BindKey(n10, Ctrl('K'), Some(KillToEnd));
    BindKeyHandler(n, '\r' as byte, Some(FinishLine), c);
    BindKeyHandler(n1, '\n' as byte, Some(FinishLine), c);
    BindKeyHandler(n2, Ctrl('C'), Some(Interrupt), c);
    BindKeyHandler(n3, BACKSPACE, Some(Backspace), c);
    BindKeyHandler(n4, Ctrl('H'), Some(Backspace), c);
    BindKeyHandler(n5, Ctrl('D'), Some(DeleteForward), c);
    BindKeyHandler(n6, Ctrl('L'), Some(ClearDisplay), c);
    BindKeyHandler(n7, Ctrl('U'), Some(EraseToStart), c);
    BindKeyHandler(n8, Ctrl('A'), Some(StartOfLine), c);
    BindKeyHandler(n9, Ctrl('E'), Some(EndOfLine), c);
    BindKeyHandler(n10, Ctrl('K'), Some(KillToEnd), c);
    BindKeyHandler(n11, Ctrl('Y'), Some(Yank), c);
  }

  /** The root after the single-byte bindings of `tinyrl_init`: the
      printable range, then the control keys. */
  function DefaultSingles(): Node<Handler> {
    BindControls(PrintableRoot())
  }

  /** Each byte's slot in `DefaultSingles` holds its `SingleBinding` and
      no child. */
  lemma DefaultSinglesSlot(c: byte)
    ensures Get(DefaultSingles(), c) == Slot(SingleBinding(c), None)
  {
    var root := PrintableRoot();
    assert Get(root, c) == Slot(if c as int >= 32 then Some(SelfInsert) else None, None);
    BindControlsChild(root, c);
    BindControlsHandler(root, c);
  }

  /** The special-key bindings of `tinyrl_init`, in order. */
  function WithSpecials(n: Node<Handler>): (r: Node<Handler>)
    ensures forall c: byte :: c != ESC ==> Get(r, c) == Get(n, c)
  {
    var n1 := BindSpecial(n, Right, Some(MoveRight));
    var n2 := BindSpecial(n1, Left, Some(MoveLeft));
    var n3 := BindSpecial(n2, Home, Some(StartOfLine));
    var n4 := BindSpecial(n3, End, Some(EndOfLine));
    var n5 := BindSpecial(n4, Insert, None);
    BindSpecial(n5, Delete, Some(DeleteForward))
  }

  predicate IsSpecialSeq(s: seq<byte>) {
    || s == SpecialSeq(Right) || s == SpecialSeq(Left) || s == SpecialSeq(Home)
    || s == SpecialSeq(End) || s == SpecialSeq(Insert) || s == SpecialSeq(Delete)
  }

  /** The special-key bindings leave every other sequence alone. */
  lemma WithSpecialsOthers(n: Node<Handler>, s: seq<byte>)
    requires |s| > 0 && !IsSpecialSeq(s)
    ensures Lookup(WithSpecials(n), s) == Lookup(n, s)
  {
  }

  /** The handler `tinyrl_init` binds to each special key (Up and Down
      are left unbound). */
  function SpecialHandler(k: SpecialKey): Option<Handler> {
    match k
    case Right => Some(MoveRight)
    case Left => Some(MoveLeft)
    case Home => Some(StartOfLine)
    case End => Some(EndOfLine)
    case Delete => Some(DeleteForward)
    case _ => None
  }

  /** Each special sequence resolves to the handler its binding gave it:
      the later special bindings use other sequences. */
  lemma WithSpecialsBound(n: Node<Handler>, k: SpecialKey)
    requires k != Up && k != Down
    ensures Lookup(WithSpecials(n), SpecialSeq(k)) == SpecialHandler(k)
  {
    SpecialSeqInjective(Right, Left); SpecialSeqInjective(Right, Home); SpecialSeqInjective(Right, End);
    SpecialSeqInjective(Right, Insert); SpecialSeqInjective(Right, Delete);
    SpecialSeqInjective(Left, Home); SpecialSeqInjective(Left, End);
    SpecialSeqInjective(Left, Insert); SpecialSeqInjective(Left, Delete);
    SpecialSeqInjective(Home, End); SpecialSeqInjective(Home, Insert); SpecialSeqInjective(Home, Delete);
    SpecialSeqInjective(End, Insert); SpecialSeqInjective(End, Delete);
    SpecialSeqInjective(Insert, Delete);
  }

  /** The byte-level table agrees with the special-key bindings. */
  lemma DefaultBindingOfSpecial(k: SpecialKey)
    ensures DefaultBinding(SpecialSeq(k)) == SpecialHandler(k)
  {
  }

  /** The key map `tinyrl_init` builds: the single bytes, then the special
      keys. */
  function DefaultKeymap(): (r: Node<Handler>)
    ensures forall c: byte :: c != ESC ==> Get(r, c) == Slot(SingleBinding(c), None)
  {
    assert forall c: byte :: Get(DefaultSingles(), c) == Slot(SingleBinding(c), None) by {
      forall c: byte { DefaultSinglesSlot(c); }
    }
    WithSpecials(DefaultSingles())
  }

  /** Every sequence resolves in the default key map as `DefaultBinding`
      says: the later bindings win, and no sequence outside the bound ones
      has a handler. */
  lemma DefaultKeymapLookup(s: seq<byte>)
    requires |s| > 0
    ensures Lookup(DefaultKeymap(), s) == DefaultBinding(s)
  {
    var n0 := DefaultSingles();
    DefaultSinglesSlot(s[0]);
    if IsSpecialSeq(s) {
      var k :| k in {Right, Left, Home, End, Insert, Delete} && s == SpecialSeq(k);
      WithSpecialsBound(n0, k);
      DefaultBindingOfSpecial(k);
    } else {
      WithSpecialsOthers(n0, s);
      if |s| > 1 {
        LookupNoChild(n0, s);
        if DefaultBinding(s).Some? {
          DefaultBindingSpecial(s);
        }
      }
    }
  }

  /** `n` binds every sequence as the default key map does. */
  ghost predicate BindsAsDefault(n: Node<Handler>) {
    forall t :: |t| > 0 ==> Lookup(n, t) == DefaultBinding(t)
  }

  /** The root of `n` is that of the default key map: every byte but ESC
      has its single-byte binding and no child. */
  ghost predicate RootAsDefault(n: Node<Handler>) {
    forall c: byte :: c != ESC ==> Get(n, c) == Slot(SingleBinding(c), None)
  }

  lemma DefaultKeymapIsDefault()
    ensures BindsAsDefault(DefaultKeymap()) && RootAsDefault(DefaultKeymap())
  {
    forall t | |t| > 0 ensures Lookup(DefaultKeymap(), t) == DefaultBinding(t) {
      DefaultKeymapLookup(t);
    }
  }

  /** In such a key map a key unit not starting with ESC resolves at the
      root, to the handler of its first byte, reading no further input. */
  lemma PlainKeyResolves(n: Node<Handler>, key: seq<byte>, pending: seq<seq<byte>>)
    requires RootAsDefault(n) && |key| > 0 && key[0] != ESC && Units(pending)
    ensures Walk(n, key, 0, pending, None) == Resolution(SingleBinding(key[0]), key, pending)
  {
  }

  /** Typing a printable key unit inserts it: the editor becomes what the
      default handler makes of it, a failed insert rings the bell twice
      (once on the failed growth, once on the failed handler), and no
      further input is read. */
  lemma TypingInserts(env: Env, n: Node<Handler>, ed: Editor, key: seq<byte>, pending: seq<seq<byte>>)
    requires env.Valid() && ed.Valid() && RootAsDefault(n) && |key| > 0 && Units(pending)
    requires key[0] as int >= 32 && key[0] != BACKSPACE
    ensures var r := HandleKey(env, n, ed, key, pending);
            var o := KeyDefault(env, ed, key);
            && r.ed == o.ed && r.rest == pending
            && (o.ok ==> r.ops == [])
            && (!o.ok ==> r.ops == [Bell, Bell])
  {
    PrintableBinding(key[0]);
    PlainKeyResolves(n, key, pending);
    SelfInsertStep(env, n, ed, key, pending);
  }

  /** Every byte from 32 up but DEL is bound to the default handler. */
  lemma PrintableBinding(c: byte)
    requires c as int >= 32 && c != BACKSPACE
    ensures c != ESC && SingleBinding(c) == Some(SelfInsert)
  {
  }

  /** A key the walk resolves to the default handler, with no input read,
      is inserted; a failed insert rings the bell twice. */
  lemma SelfInsertStep(env: Env, n: Node<Handler>, ed: Editor, key: seq<byte>, pending: seq<seq<byte>>)
    requires env.Valid() && ed.Valid() && |key| > 0 && Units(pending)
    requires Walk(n, key, 0, pending, None) == Resolution(Some(SelfInsert), key, pending)
    ensures var r := HandleKey(env, n, ed, key, pending);
            var o := KeyDefault(env, ed, key);
            && r.ed == o.ed && r.rest == pending
            && (o.ok ==> r.ops == [])
            && (!o.ok ==> r.ops == [Bell, Bell])
  {
    HandleKeyResolved(env, n, ed, key, pending, SelfInsert);
    RunSelfInsert(env, key, ed);
    var o := KeyDefault(env, ed, key);
    var r := HandleKey(env, n, ed, key, pending);
    assert r == Step(o.ed, if o.ok then o.ops else o.ops + [Bell], pending);
    assert o.ops == InsertBell(o.ok);
    if !o.ok {
      assert r.ops == [Bell] + [Bell] == [Bell, Bell];
    }
  }

  /** Once the walk has resolved to `h` with the key as given and no input
      read, the key's step is `h`'s outcome, with the bell on failure. */
  lemma HandleKeyResolved(env: Env, n: Node<Handler>, ed: Editor, key: seq<byte>, pending: seq<seq<byte>>, h: Handler)
    requires env.Valid() && ed.Valid() && |key| > 0 && Units(pending)
    requires Walk(n, key, 0, pending, None) == Resolution(Some(h), key, pending)
    ensures var o := RunHandler(env, h, key, ed);
            HandleKey(env, n, ed, key, pending) == Step(o.ed, if o.ok then o.ops else o.ops + [Bell], pending)
  {
  }

  /** The default handler dispatches to `tinyrl_key_default`. */
  lemma RunSelfInsert(env: Env, key: seq<byte>, ed: Editor)
    requires env.Valid() && ed.Valid()
    ensures RunHandler(env, SelfInsert, key, ed) == KeyDefault(env, ed, key)
  {
  }
}
