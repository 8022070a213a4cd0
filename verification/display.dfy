/** Redisplay: the text shown for the line under the echo settings, its
    wrapping into terminal rows, the diff against the previously drawn
    frame, and the terminal operations that bring the screen up to date
    (tinyrl.c:426-587). Terminal operations are abstract values. */
module Display {
  import opened Bytes
  import opened Wrappers
  import opened Graphemes

  /** `echo_enabled` and `echo_char` (NUL: show nothing). */
  datatype Echo = Echo(enabled: bool, ch: byte)

  /** The terminal operations the editor emits. */
  datatype Op =
    | Write(bytes: seq<byte>)
    | CarriageReturn
    | Newline
    | CursorUp(n: nat)
    | CursorDown(n: nat)
    | CursorForward(n: nat)
    | EraseLine
    | EraseLineEnd
    | ClearScreen
    | CursorHome
    | Bell

  /** What the last redisplay drew: `last_buffer`, `last_end`, `last_row`,
      `last_point_row`. */
  datatype Frame = Frame(text: seq<byte>, end: nat, row: nat, pointRow: nat) {
    predicate Valid() { end == |text| }
  }

  /** A screen position relative to the row the prompt starts on. */
  datatype Pos = Pos(row: nat, col: nat)

  /** The display text and the cursor offset within it. */
  datatype Shown = Shown(text: seq<byte>, point: nat)

  datatype Count = Count(graphemes: nat, point: nat)

  /** The grapheme-counting loop of `tinyrl_internal_print`: walk the
      boundaries from `i`, counting graphemes in `n` and noting the count
      reached when the walk stands on `point`. */
  function Scan(g: Service, s: seq<byte>, point: nat, i: nat, n: nat, dp: nat): (r: Count)
    requires Valid(g) && i <= |s|
    ensures r.graphemes + 1 == n + |Boundaries(g, s, i)|
    decreases |s| - i
  {
    var dp' := if i == point then n else dp;
    if i >= |s| then
      assert Boundaries(g, s, i) == [i];
      Count(n, dp')
    else
      var r := Scan(g, s, point, g.next(s, i), n + 1, dp');
      BoundariesStep(g, s, i);
      r
  }

  /** The count noted for `point` is left as it was when the walk never
      stands on `point`. */
  lemma {:induction false} ScanMissesPoint(g: Service, s: seq<byte>, point: nat, i: nat, n: nat, dp: nat)
    requires Valid(g) && i <= |s| && point !in Boundaries(g, s, i)
    ensures Scan(g, s, point, i, n, dp).point == dp
    decreases |s| - i
  {
    if i < |s| {
      BoundariesStep(g, s, i);
      ScanMissesPoint(g, s, point, g.next(s, i), n + 1, dp);
    }
  }

  /** The count noted for `point` is its index among the boundaries when
      the walk stands on it. */
  lemma {:induction false} ScanMeetsPoint(g: Service, s: seq<byte>, point: nat, i: nat, n: nat, dp: nat, k: nat)
    requires Valid(g) && i <= |s| && k < |Boundaries(g, s, i)| && Boundaries(g, s, i)[k] == point
    ensures Scan(g, s, point, i, n, dp).point == n + k
    decreases |s| - i
  {
    if i < |s| {
      BoundariesStep(g, s, i);
      var nx := g.next(s, i);
      if k == 0 {
        ScanMissesPoint(g, s, point, nx, n + 1, n);
      } else {
        ScanMeetsPoint(g, s, point, nx, n + 1, dp, k - 1);
      }
    }
  }

  /** From the start of `s`, the count noted for `point` is its grapheme
      index when it is a boundary, and 0 otherwise. */
  lemma ScanFromStart(g: Service, s: seq<byte>, point: nat)
    requires Valid(g)
    ensures var c := Scan(g, s, point, 0, 0, 0);
            var b := Boundaries(g, s, 0);
            && (point in b ==> c.point < |b| && b[c.point] == point)
            && (point !in b ==> c.point == 0)
  {
    var b := Boundaries(g, s, 0);
    if point in b {
      var k :| 0 <= k < |b| && b[k] == point;
      ScanMeetsPoint(g, s, point, 0, 0, 0, k);
    } else {
      ScanMissesPoint(g, s, point, 0, 0, 0);
    }
  }

  /** The boundaries from `i` are `i` followed by those from the next one. */
  lemma BoundariesStep(g: Service, s: seq<byte>, i: nat)
    requires Valid(g) && i < |s|
    ensures Boundaries(g, s, i) == [i] + Boundaries(g, s, g.next(s, i))
    ensures i !in Boundaries(g, s, g.next(s, i))
  {
  }

  function Repeat(c: byte, n: nat): (r: seq<byte>)
    ensures |r| == n && forall k :: 0 <= k < n ==> r[k] == c
  {
    seq(n, _ => c)
  }

  /** `tinyrl_internal_print`. Echo on: the line itself. Echo off with an
      echo character: that character once per grapheme, the cursor at the
      grapheme index of the point (0 when the point is inside a grapheme).
      Echo off without one: nothing, cursor at 0. */
  function InternalPrint(g: Service, echo: Echo, line: seq<byte>, point: nat): (r: Shown)
    requires Valid(g) && point <= |line|
    ensures r.point <= |r.text|
    ensures echo.enabled ==> r.text == line && r.point == point
    ensures !echo.enabled && echo.ch != NUL ==>
              && |r.text| == GraphemeCount(g, line)
              && (forall k :: 0 <= k < |r.text| ==> r.text[k] == echo.ch)
              && (IsBoundary(g, line, point) ==> Boundaries(g, line, 0)[r.point] == point)
              && (!IsBoundary(g, line, point) ==> r.point == 0)
    ensures !echo.enabled && echo.ch == NUL ==> r.text == [] && r.point == 0
  {
    if echo.enabled then Shown(line, point)
    else if echo.ch != NUL then
      var c := Scan(g, line, point, 0, 0, 0);
      ScanFromStart(g, line, point);
      Shown(Repeat(echo.ch, c.graphemes), c.point)
    else Shown([], 0)
  }

  /** `tinyrl_string_wrap` from offset `i`: each grapheme's width is added
      to the column; one that would pass the row width starts the next row. */
  function Wrap(g: Service, s: seq<byte>, width: nat, p: Pos, i: nat): (r: Pos)
    requires Valid(g) && i <= |s|
    ensures r.row >= p.row
    decreases |s| - i
  {
    if i >= |s| then p
    else
      var w := g.width(s, i);
      var next := if p.col + w > width then Pos(p.row + 1, w) else Pos(p.row, p.col + w);
      Wrap(g, s, width, next, g.next(s, i))
  }

  /** Wrapping keeps the column within the row when no grapheme is wider
      than the row. */
  lemma {:induction false} WrapColumnBound(g: Service, s: seq<byte>, width: nat, p: Pos, i: nat)
    requires Valid(g) && i <= |s| && p.col <= width
    requires forall k :: i <= k < |s| ==> g.width(s, k) <= width
    ensures Wrap(g, s, width, p, i).col <= width
    decreases |s| - i
  {
    if i < |s| {
      var w := g.width(s, i);
      var next := if p.col + w > width then Pos(p.row + 1, w) else Pos(p.row, p.col + w);
      WrapColumnBound(g, s, width, next, g.next(s, i));
    }
  }

  /** The position after wrapping the whole of `s` from `start`. */
  function WrapAll(g: Service, s: seq<byte>, width: nat, start: Pos): (r: Pos)
    requires Valid(g)
    ensures r.row >= start.row
  {
    Wrap(g, s, width, start, 0)
  }

  /** The kept-prefix loop of `tinyrl_redisplay`: extend `k` grapheme by
      grapheme while the grapheme lies within the previous text's length
      `lastEnd` and its bytes equal the previous text's. */
  function KeepPrefix(g: Service, text: seq<byte>, last: seq<byte>, lastEnd: nat, k: nat): (r: nat)
    requires Valid(g) && k <= |text| && lastEnd <= |last| && k <= lastEnd
    requires text[..k] == last[..k]
    ensures k <= r <= |text| && r <= lastEnd
    ensures text[..r] == last[..r]
    ensures r in Boundaries(g, text, k)
    ensures r == |text| || g.next(text, r) > lastEnd || text[r..g.next(text, r)] != last[r..g.next(text, r)]
    decreases |text| - k
  {
    if k >= |text| then k
    else
      var nx := g.next(text, k);
      if nx > lastEnd then k
      else if text[k..nx] != last[k..nx] then k
      else
        assert text[..nx] == text[..k] + text[k..nx] && last[..nx] == last[..k] + last[k..nx];
        KeepPrefix(g, text, last, lastEnd, nx)
  }

  /** A kept length and the screen position its end wraps to. */
  datatype Kept = Kept(len: nat, pos: Pos)

  /** The back-off of `tinyrl_redisplay`: a kept prefix ending exactly at the
      row width is cut back by one grapheme, so that the kept part never
      ends on a full row. */
  function BackOff(g: Service, width: nat, start: Pos, text: seq<byte>, keep: nat): (r: Kept)
    requires Valid(g) && keep <= |text|
    ensures r.len <= keep
    ensures r.pos == WrapAll(g, text[..r.len], width, start)
    ensures r.len < keep <==> keep > 0 && WrapAll(g, text[..keep], width, start).col == width
    ensures r.len < keep ==> r.len == g.prev(text, keep)
  {
    var pos := WrapAll(g, text[..keep], width, start);
    if keep > 0 && pos.col == width then
      var len := g.prev(text, keep);
      Kept(len, WrapAll(g, text[..len], width, start))
    else Kept(keep, pos)
  }

  /** How much of the previous frame's text is kept on screen. */
  function KeepLength(g: Service, width: nat, start: Pos, text: seq<byte>, f: Frame): (r: Kept)
    requires Valid(g) && f.Valid()
    ensures r.len <= |text| && r.len <= |f.text|
    ensures text[..r.len] == f.text[..r.len]
    ensures r.pos == WrapAll(g, text[..r.len], width, start)
  {
    var k := KeepPrefix(g, text, f.text, f.end, 0);
    var r := BackOff(g, width, start, text, k);
    assert text[..r.len] == text[..k][..r.len] && f.text[..r.len] == f.text[..k][..r.len];
    r
  }

  /** The cursor position for the display point: the wrap of the text up to
      it, moved to the start of the next row when it lands exactly at the row
      width or the grapheme under it would not fit on the row. */
  function PointPos(g: Service, width: nat, start: Pos, text: seq<byte>, point: nat): (r: Pos)
    requires Valid(g) && point <= |text| && width > 0
    ensures var raw := WrapAll(g, text[..point], width, start);
            && (r == raw || r == Pos(raw.row + 1, 0))
            && (raw.col == width ==> r == Pos(raw.row + 1, 0))
            && (point < |text| && raw.col + g.width(text, point) > width ==> r == Pos(raw.row + 1, 0))
            && (!(raw.col == width || (point < |text| && raw.col + g.width(text, point) > width)) ==> r == raw)
            && r.col != width
  {
    var raw := WrapAll(g, text[..point], width, start);
    if raw.col == width || (point < |text| && raw.col + g.width(text, point) > width) then
      Pos(raw.row + 1, 0)
    else raw
  }

  /** When no grapheme is wider than the row, the cursor is strictly inside
      a row and the grapheme under it fits on the cursor's row. */
  lemma PointFits(g: Service, width: nat, start: Pos, text: seq<byte>, point: nat)
    requires Valid(g) && point <= |text| && width > 0 && start.col <= width
    requires forall k :: 0 <= k < point ==> g.width(text[..point], k) <= width
    ensures var r := PointPos(g, width, start, text, point);
            && r.col < width
            && (point < |text| ==> r.col == 0 || r.col + g.width(text, point) <= width)
            && (point < |text| && g.width(text, point) <= width ==> r.col + g.width(text, point) <= width)
  {
    WrapColumnBound(g, text[..point], width, start, 0);
  }

  /** The net number of rows a sequence of operations moves the cursor down. */
  function RowMoves(ops: seq<Op>): int {
    if |ops| == 0 then 0 else RowMove(ops[0]) + RowMoves(ops[1..])
  }

  function RowMove(op: Op): int {
    match op
    case CursorDown(n) => n as int
    case CursorUp(n) => -(n as int)
    case Newline => 1
    case _ => 0
  }

  lemma {:induction false} RowMovesAppend(a: seq<Op>, b: seq<Op>)
    ensures RowMoves(a + b) == RowMoves(a) + RowMoves(b)
    decreases |a|
  {
    if |a| > 0 {
      assert (a + b)[0] == a[0];
      assert (a + b)[1..] == a[1..] + b;
      RowMovesAppend(a[1..], b);
    } else {
      assert a + b == b;
    }
  }

  /** From the row of the previous cursor to the previous frame's last row. */
  function ToLastRow(f: Frame): (r: seq<Op>)
    ensures RowMoves(r) == f.row - f.pointRow
  {
    if f.row > f.pointRow then [CursorDown(f.row - f.pointRow)]
    else if f.row < f.pointRow then [CursorUp(f.pointRow - f.row)]
    else []
  }

  /** Erase every row from `to` back up to, but not including, row `from`. */
  function EraseRows(from: nat, to: nat): (r: seq<Op>)
    ensures |r| == (if from < to then 2 * (to - from) else 0)
    ensures forall k :: 0 <= k < |r| ==> r[k] == (if k % 2 == 0 then EraseLine else CursorUp(1))
    ensures RowMoves(r) == (if from < to then from - to else 0)
    decreases if from < to then to - from else 0
  {
    if from >= to then []
    else
      var rest := EraseRows(from + 1, to);
      RowMovesAppend([EraseLine, CursorUp(1)], rest);
      [EraseLine, CursorUp(1)] + rest
  }

  /** The erase phase against a previous frame: back to column 0 and down (or
      up) to its last row, erase the rows below the kept row, then erase the
      kept row from the kept column on. */
  function EraseChanged(f: Frame, kept: Pos): (r: seq<Op>)
    ensures |r| >= 2 && r[0] == CarriageReturn && r[|r| - 1] == EraseLineEnd
    ensures kept.row <= f.row ==> RowMoves(r) == kept.row - f.pointRow
    ensures (forall k :: 0 <= k < |r| ==> r[k] != EraseLine) <==> kept.row >= f.row
  {
    var fwd := if kept.col > 0 then [CursorForward(kept.col)] else [];
    var r := [CarriageReturn] + ToLastRow(f) + EraseRows(kept.row, f.row) + fwd + [EraseLineEnd];
    RowMovesAppend([CarriageReturn], ToLastRow(f));
    RowMovesAppend([CarriageReturn] + ToLastRow(f), EraseRows(kept.row, f.row));
    RowMovesAppend([CarriageReturn] + ToLastRow(f) + EraseRows(kept.row, f.row), fwd);
    RowMovesAppend([CarriageReturn] + ToLastRow(f) + EraseRows(kept.row, f.row) + fwd, [EraseLineEnd]);
    assert kept.row < f.row ==> r[|[CarriageReturn] + ToLastRow(f)|] == EraseLine;
    r
  }

  /** The erase phase moves forward once, to the kept column, just before
      the erase-to-end, and only when that column is not 0. */
  lemma EraseChangedForward(f: Frame, kept: Pos)
    ensures var r := EraseChanged(f, kept);
            && (kept.col > 0 ==> r[|r| - 2] == CursorForward(kept.col))
            && forall k :: 0 <= k < |r| && r[k].CursorForward? ==> k == |r| - 2 && r[k] == CursorForward(kept.col)
  {
    var head := [CarriageReturn] + ToLastRow(f) + EraseRows(kept.row, f.row);
    var fwd := if kept.col > 0 then [CursorForward(kept.col)] else [];
    var r := head + fwd + [EraseLineEnd];
    assert EraseChanged(f, kept) == r;
    forall k | 0 <= k < |head| ensures !head[k].CursorForward? {
      if 0 < k <= |ToLastRow(f)| {
        assert head[k] == ToLastRow(f)[k - 1];
      } else if k > |ToLastRow(f)| {
        assert head[k] == EraseRows(kept.row, f.row)[k - 1 - |ToLastRow(f)|];
      }
    }
    forall k | 0 <= k < |r| && r[k].CursorForward? ensures k == |r| - 2 && r[k] == CursorForward(kept.col) {
    }
  }

  /** The final cursor move, from the end of the written text (row `last`)
      to the point position `p`: a newline when the point is on the row after
      the text, and when the point is before the end, up to its row, back to
      column 0 and forward to its column. */
  function ToPoint(last: nat, p: Pos, end: nat, point: nat): (r: seq<Op>)
    ensures end > point && last >= p.row ==> RowMoves(r) == p.row - last
    ensures end <= point ==> RowMoves(r) == (if last < p.row then 1 else 0)
    ensures end > point ==> CarriageReturn in r
    ensures end > point ==> r[|r| - 1] == (if p.col > 0 then CursorForward(p.col) else CarriageReturn)
    ensures end > point && p.col > 0 ==> r[|r| - 2] == CarriageReturn
    ensures end <= point ==> forall k :: 0 <= k < |r| ==> r[k] == Newline
    ensures forall k :: 0 <= k < |r| ==>
              r[k].Newline? || r[k].CursorUp? || r[k].CarriageReturn? || r[k].CursorForward?
  {
    var nl := if last < p.row then [Newline] else [];
    var up := if last > p.row then [CursorUp(last - p.row)] else [];
    var fwd := if p.col > 0 then [CursorForward(p.col)] else [];
    RowMovesAppend(nl, up + [CarriageReturn] + fwd);
    RowMovesAppend(up, [CarriageReturn] + fwd);
    RowMovesAppend([CarriageReturn], fwd);
    if end > point then nl + up + [CarriageReturn] + fwd else nl
  }

  /** The outcome of a redisplay: the operations emitted, the frame saved for
      next time, and how many display bytes were kept on screen. */
  datatype Redraw = Redraw(ops: seq<Op>, frame: Frame, keep: nat)

  /** `tinyrl_redisplay` for terminal width `width`; the prompt is a C
      string. With no last frame the prompt and the whole display text are
      written; with one, the rows that changed are erased and only the text
      after the kept prefix is written. Either way the cursor is then moved
      from the end of the text to the point. */
  function Redisplay(g: Service, width: nat, prompt: seq<byte>, echo: Echo, line: seq<byte>, point: nat, last: Option<Frame>): (r: Redraw)
    requires Valid(g) && width > 0 && point <= |line| && NoNul(prompt)
    requires last.Some? ==> last.value.Valid()
    ensures var d := InternalPrint(g, echo, line, point);
            var start := WrapAll(g, prompt, width, Pos(0, 0));
            var endRow := WrapAll(g, d.text, width, start).row;
            var pp := PointPos(g, width, start, d.text, d.point);
            && r.frame.Valid() && r.frame.text == d.text
            && r.frame.row == endRow && r.frame.pointRow == pp.row
            && r.keep <= |d.text|
            && Write(d.text[r.keep..]) in r.ops
            && (last.None? ==>
                  && r.keep == 0
                  && r.ops == [Write(prompt), Write(d.text)] + ToPoint(endRow, pp, |d.text|, d.point))
            && (last.Some? ==>
                  var kept := KeepLength(g, width, start, d.text, last.value);
                  && r.keep == kept.len <= last.value.end
                  && d.text[..r.keep] == last.value.text[..r.keep]
                  && r.ops == EraseChanged(last.value, kept.pos) + [Write(d.text[r.keep..])]
                              + ToPoint(endRow, pp, |d.text|, d.point)
                  && r.ops[0] == CarriageReturn)
  {
    var start := WrapAll(g, prompt, width, Pos(0, 0));
    var d := InternalPrint(g, echo, line, point);
    var text := d.text;
    var endPos := WrapAll(g, text, width, start);
    var pp := PointPos(g, width, start, text, d.point);
    var frame := Frame(text, |text|, endPos.row, pp.row);
    var tail := ToPoint(endPos.row, pp, |text|, d.point);
    match last
    case None =>
      var ops := [Write(prompt), Write(text)] + tail;
      assert text[0..] == text && ops[1] == Write(text);
      Redraw(ops, frame, 0)
    case Some(f) =>
      var kept := KeepLength(g, width, start, text, f);
      var erase := EraseChanged(f, kept.pos);
      var ops := erase + [Write(text[kept.len..])] + tail;
      assert ops[|erase|] == Write(text[kept.len..]);
      Redraw(ops, frame, kept.len)
  }

  /** Diffing a text against itself keeps all of it. */
  lemma KeepPrefixSelf(g: Service, text: seq<byte>)
    requires Valid(g)
    ensures KeepPrefix(g, text, text, |text|, 0) == |text|
  {
  }

  /** A frame showing `text` is kept whole, ending on the frame's last
      row, unless the text ends exactly at the row width. */
  lemma KeepWholeFrame(g: Service, width: nat, start: Pos, text: seq<byte>, f: Frame)
    requires Valid(g) && f.Valid() && f.text == text
    requires f.row == WrapAll(g, text, width, start).row
    requires |text| == 0 || WrapAll(g, text, width, start).col != width
    ensures var kept := KeepLength(g, width, start, text, f);
            kept.len == |text| && kept.pos.row == f.row
  {
    KeepPrefixSelf(g, text);
    assert text[..|text|] == text;
  }

  /** A redraw that rewrites nothing after keeping a row it does not pass
      erases no row. */
  lemma KeptRedrawClean(f: Frame, kept: Pos, tail: seq<Op>)
    requires kept.row >= f.row
    requires forall j :: 0 <= j < |tail| ==> tail[j] != EraseLine
    ensures var ops := EraseChanged(f, kept) + [Write([])] + tail;
            Write([]) in ops && forall j :: 0 <= j < |ops| ==> ops[j] != EraseLine
  {
    var erase := EraseChanged(f, kept);
    var ops := erase + [Write([])] + tail;
    assert ops[|erase|] == Write([]);
    forall j | 0 <= j < |ops| ensures ops[j] != EraseLine {
      if j < |erase| {
        assert ops[j] == erase[j];
      } else if j > |erase| {
        assert ops[j] == tail[j - |erase| - 1];
      }
    }
  }

  /** Redrawing against a frame that already shows the display text keeps
      all of it and erases no row, unless the text ends exactly at the row
      width (then its last grapheme is backed off and rewritten). */
  lemma RedisplayUnchanged(g: Service, width: nat, prompt: seq<byte>, echo: Echo, line: seq<byte>, point: nat, f: Frame)
    requires Valid(g) && width > 0 && point <= |line| && NoNul(prompt) && f.Valid()
    requires f.text == InternalPrint(g, echo, line, point).text
    requires f.row == WrapAll(g, f.text, width, WrapAll(g, prompt, width, Pos(0, 0))).row
    requires |f.text| == 0 || WrapAll(g, f.text, width, WrapAll(g, prompt, width, Pos(0, 0))).col != width
    ensures var r := Redisplay(g, width, prompt, echo, line, point, Some(f));
            && r.keep == |f.text|
            && Write([]) in r.ops
            && forall k :: 0 <= k < |r.ops| ==> r.ops[k] != EraseLine
  {
    var text := f.text;
    var start := WrapAll(g, prompt, width, Pos(0, 0));
    var d := InternalPrint(g, echo, line, point);
    KeepWholeFrame(g, width, start, text, f);
    assert text[|text|..] == [];
    var kept := KeepLength(g, width, start, text, f);
    KeptRedrawClean(f, kept.pos, ToPoint(f.row, PointPos(g, width, start, text, d.point), |text|, d.point));
  }

  /** Calling redisplay twice with no change in between: the second call
      keeps the whole line and erases nothing, unless the text ends exactly
      at the row width. */
  lemma RedisplayTwice(g: Service, width: nat, prompt: seq<byte>, echo: Echo, line: seq<byte>, point: nat, last: Option<Frame>)
    requires Valid(g) && width > 0 && point <= |line| && NoNul(prompt)
    requires last.Some? ==> last.value.Valid()
    ensures var first := Redisplay(g, width, prompt, echo, line, point, last);
            var second := Redisplay(g, width, prompt, echo, line, point, Some(first.frame));
            var text := first.frame.text;
            (|text| == 0 || WrapAll(g, text, width, WrapAll(g, prompt, width, Pos(0, 0))).col != width) ==>
              && second.keep == |text|
              && Write([]) in second.ops
              && forall k :: 0 <= k < |second.ops| ==> second.ops[k] != EraseLine
  {
    var f := Redisplay(g, width, prompt, echo, line, point, last).frame;
    if |f.text| == 0 || WrapAll(g, f.text, width, WrapAll(g, prompt, width, Pos(0, 0))).col != width {
      RedisplayUnchanged(g, width, prompt, echo, line, point, f);
    }
  }
}
