/** Worked sessions under the ASCII grapheme service: concrete inputs whose
    outcomes follow from the general contracts. */
module Scenarios {
  import opened Wrappers
  import opened Bytes
  import opened Graphemes
  import opened LineBuffer
  import opened Keymap
  import opened Display
  import opened Editing

  /** The bytes of an ASCII string. */
  function Str(s: string): seq<byte> {
    seq(|s|, k requires 0 <= k < |s| => (s[k] as int % 256) as byte)
  }

  /** A fixture for the scenarios: an editor showing `text` in its own
      buffer, cursor at `point`. */
  function EditorAt(text: seq<byte>, point: nat): (ed: Editor)
    requires point <= |text|
    ensures ed.Valid() && ed.buf.Text() == text && ed.buf.point == point && ed.buf.line.Owned?
  {
    Editor(LineBuffer(Owned, text, |text|, point, |text|, 0), None, false, Echo(true, NUL), None)
  }

  /** Under the ASCII service a run that fits on the row advances the column
      by its length. */
  lemma {:induction false} AsciiWrap(s: seq<byte>, width: nat, p: Pos, i: nat)
    requires i <= |s| && p.col + (|s| - i) <= width
    ensures Wrap(Ascii(), s, width, p, i) == Pos(p.row, p.col + |s| - i)
    decreases |s| - i
  {
    if i < |s| {
      AsciiWrap(s, width, Pos(p.row, p.col + 1), i + 1);
    }
  }

  /** Ctrl-K on "abcdef" with the cursor at 2 keeps "ab" with the cursor
      still at 2, and stores "cdef". */
  lemma KillAbcdef()
    ensures var killed := Kill(EditorAt(Str("abcdef"), 2)).ed;
            && killed.buf.Text() == Str("ab") && killed.buf.point == 2
            && killed.kill == Some(Str("cdef"))
  {
    var abc := Str("abcdef");
    assert NoNul(abc);
    assert abc[2..] == Str("cdef") && abc[..2] == Str("ab");
  }

  /** Yanking "cdef" at the end of "ab" gives "abcdef" with the cursor at 6. */
  lemma YankCdef(ed: Editor)
    requires ed.Valid() && ed.buf.Text() == Str("ab") && ed.kill == Some(Str("cdef")) && ed.buf.maxLen == 0
    ensures var yanked := KeyYank(Env(Ascii(), 80, Str("> "), true), KeyEndOfLine(ed).ed);
            && yanked.ok
            && yanked.ed.buf.Text() == Str("abcdef") && yanked.ed.buf.point == 6
  {
    var atEnd := KeyEndOfLine(ed).ed;
    assert NoNul(Str("cdef"));
    CStringOfNoNul(Str("cdef"));
    assert !InsertFails(atEnd.buf, 4, true);
    assert Str("ab") + Str("cdef") == Str("abcdef");
  }

  /** Kill and then yank at the end of the line restore the line. */
  lemma KillThenYank()
    ensures var killed := Kill(EditorAt(Str("abcdef"), 2)).ed;
            var yanked := KeyYank(Env(Ascii(), 80, Str("> "), true), KeyEndOfLine(killed).ed);
            yanked.ok && yanked.ed.buf.Text() == Str("abcdef") && yanked.ed.buf.point == 6
  {
    KillAbcdef();
    YankCdef(Kill(EditorAt(Str("abcdef"), 2)).ed);
  }

  /** Drawing "hello" after the prompt "> " on an 80-column terminal with
      no previous frame writes the prompt and the line and moves nothing. */
  lemma HelloAt80()
    ensures var d := Redisplay(Ascii(), 80, Str("> "), Echo(true, NUL), Str("hello"), 5, None);
            && d.ops == [Write(Str("> ")), Write(Str("hello"))]
            && d.frame == Frame(Str("hello"), 5, 0, 0)
  {
    var hello := Str("hello");
    AsciiWrap(Str("> "), 80, Pos(0, 0), 0);
    AsciiWrap(hello, 80, Pos(0, 2), 0);
    assert hello[..5] == hello;
  }

  /** With echo off and '*' as the echo character, "hello" shows as five
      stars and the cursor at its end shows after the fifth. */
  lemma EchoStars()
    ensures var d := InternalPrint(Ascii(), Echo(false, '*' as byte), Str("hello"), 5);
            d.text == Repeat('*' as byte, 5) && d.point == 5
  {
    AsciiBoundaries(Str("hello"), 0);
    assert Boundaries(Ascii(), Str("hello"), 0)[5] == 5;
  }

  /** ESC and ESC [ lead on to a bound sequence without being bound
      themselves, and ESC [ X is not bound. */
  ghost predicate EscapeBracketXUnbound(n: Node<Handler>) {
    && Lookup(n, [ESC]).None? && Lookup(n, [ESC, '[' as byte]).None?
    && Lookup(n, [ESC, '[' as byte, 'X' as byte]).None?
    && Lookup(n, SpecialSeq(Right)).Some?
  }

  /** The default bindings leave ESC [ X so. */
  lemma EscapeBindings(n: Node<Handler>)
    requires BindsAsDefault(n)
    ensures EscapeBracketXUnbound(n)
  {
    var right := [ESC, '[' as byte, 'C' as byte];
    assert SingleBinding(ESC) == None;
    UnboundByDefault(n, [ESC]);
    UnboundByDefault(n, [ESC, '[' as byte]);
    UnboundByDefault(n, [ESC, '[' as byte, 'X' as byte]);
    assert SpecialSeq(Right) == right;
    assert DefaultBinding(right) == Some(MoveRight);
  }

  /** In a key map binding as the default one does, a sequence with no
      default binding looks up to no handler. */
  lemma UnboundByDefault(n: Node<Handler>, t: seq<byte>)
    requires BindsAsDefault(n) && |t| > 0 && DefaultBinding(t).None?
    ensures Lookup(n, t).None?
  {
  }

  /** The walk over ESC [ X follows ESC and [ and stops at X with no
      handler, having read every unit. */
  lemma EscapeBracketX(n: Node<Handler>, key: seq<byte>, pending: seq<seq<byte>>)
    requires key == [ESC] && pending == [['[' as byte], ['X' as byte]]
    requires EscapeBracketXUnbound(n)
    ensures var r := Walk(n, key, 0, pending, None);
            r.handler.None? && r.rest == []
  {
    var s: seq<byte> := [ESC, '[' as byte, 'X' as byte];
    assert key == [s[0]] && pending == ByteUnits(s[1..]);
    assert s[..1] == [ESC] && s[..2] == [ESC, '[' as byte] && s[..3] == s;
    forall j | 1 <= j <= |s| ensures Lookup(n, s[..j]).None? {
      if j == 1 {} else if j == 2 {} else {}
    }
    assert SpecialSeq(Right)[..2] == s[..2];
    WalkUnbound(n, s);
  }

  /** ESC [ X is not bound in a key map that leaves it so (the default key
      map does, by `DefaultKeymapIsDefault` and `EscapeBindings`): handling
      it rings the bell and leaves the editor as it was. */
  lemma UnboundEscape(env: Env, n: Node<Handler>, ed: Editor, key: seq<byte>, pending: seq<seq<byte>>)
    requires env.Valid() && ed.Valid() && EscapeBracketXUnbound(n)
    requires key == [ESC] && pending == [['[' as byte], ['X' as byte]]
    ensures var r := HandleKey(env, n, ed, key, pending);
            r.ed == ed && r.ops == [Bell] && r.rest == []
  {
    EscapeBracketX(n, key, pending);
  }
}
