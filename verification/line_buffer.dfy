/** The editable line: the owned buffer, the possibly borrowed line it
    shows, the cursor (`point`) and the length (`end`), with copy-on-write
    promotion and the capacity-growth policy (tinyrl.c:121-131, 777-901,
    987-991). */
module LineBuffer {
  import opened Wrappers
  import opened Bytes

  /** Whether `line` aliases the owned buffer or an external string (a
      recalled history entry). */
  datatype Line = Owned | Borrowed(text: seq<byte>)

  /** `buffer` is the owned string's content (before its terminator);
      `size` the capacity excluding the terminator; `maxLen` 0 when
      unbounded. */
  datatype LineBuffer = LineBuffer(
    line: Line, buffer: seq<byte>, size: nat, point: nat, end: nat, maxLen: nat)
  {
    /** The bytes of the line being edited. */
    function Text(): seq<byte> {
      if line.Owned? then buffer else line.text
    }

    /** point <= end; the owned content fits its capacity; the line
        shown has exactly `end` bytes; a borrowed line is a C string. */
    ghost predicate Valid() {
      && point <= end
      && |buffer| <= size
      && |Text()| == end
      && (line.Borrowed? ==> NoNul(line.text))
    }
  }

  /** An edit's success flag (false rings the bell) and the buffer after it. */
  datatype Edit = Edit(ok: bool, buf: LineBuffer)

  /** The buffer a new read starts with: `strdup("")`. */
  function Fresh(maxLen: nat): (b: LineBuffer)
    ensures b.Valid() && b.Text() == [] && b.point == 0 && b.line.Owned?
  {
    LineBuffer(Owned, [], 0, 0, 0, maxLen)
  }

  /** `changed_line`: a borrowed line is duplicated into the owned buffer,
      whose capacity becomes the copy's length; an owned line is untouched. */
  function Promote(b: LineBuffer): (r: LineBuffer)
    requires b.Valid()
    ensures r.Valid() && r.line.Owned?
    ensures r.Text() == b.Text() && r.point == b.point && r.end == b.end && r.maxLen == b.maxLen
    ensures b.line.Owned? ==> r == b
    ensures b.line.Borrowed? ==> r.size == b.end
  {
    match b.line
    case Owned => b
    case Borrowed(t) =>
      CStringOfNoNul(t);
      b.(line := Owned, buffer := CString(t), size := |CString(t)|)
  }

  /** The capacity an unbounded buffer grows to: the request, but at least
      ten bytes more than now. */
  function GrownSize(size: nat, len: nat): nat {
    if len < size + 10 then size + 10 else len
  }

  /** `tinyrl_extend_line_buffer`: make room for `len` bytes. `allocOk`
      says whether `realloc` succeeds. */
  function Extend(b: LineBuffer, len: nat, allocOk: bool): (r: Edit)
    requires b.Valid() && b.line.Owned?
    ensures r.buf.Valid() && r.buf.line.Owned?
    ensures r.buf.Text() == b.Text() && r.buf.point == b.point && r.buf.maxLen == b.maxLen
    ensures r.ok <==> b.size >= len || (allocOk && (b.maxLen == 0 || len < b.maxLen))
    ensures r.ok ==> r.buf.size >= len
    ensures !r.ok ==> r.buf == b
    ensures r.ok && b.size < len && b.maxLen == 0 ==>
              r.buf.size >= len && r.buf.size >= b.size + 10 && (r.buf.size == len || r.buf.size == b.size + 10)
    ensures r.ok && b.size < len && b.maxLen > 0 ==> r.buf.size == b.maxLen - 1
  {
    if b.size >= len then Edit(true, b)
    else if b.maxLen == 0 then
      if allocOk then Edit(true, b.(size := GrownSize(b.size, len))) else Edit(false, b)
    else if len < b.maxLen then
      if allocOk then Edit(true, b.(size := b.maxLen - 1)) else Edit(false, b)
    else Edit(false, b)
  }

  /** Whether inserting `delta` bytes needs growth that fails. */
  function InsertFails(b: LineBuffer, delta: nat, allocOk: bool): (r: bool)
    requires b.Valid()
    ensures r <==> Promote(b).end + delta > Promote(b).size && !Extend(Promote(b), Promote(b).end + delta, allocOk).ok
    ensures b.line.Owned? && b.end + delta <= b.size ==> !r
    ensures !allocOk && Promote(b).end + delta > Promote(b).size ==> r
  {
    var p := Promote(b);
    p.end + delta > p.size && !(allocOk && (p.maxLen == 0 || p.end + delta < p.maxLen))
  }

  /** `tinyrl_insert_text_len`: promote, grow if needed, then put the
      `delta` bytes `strncpy` takes from `text` at the point. */
  function InsertTextLen(b: LineBuffer, text: seq<byte>, delta: nat, allocOk: bool): (r: Edit)
    requires b.Valid()
    ensures r.buf.Valid() && r.buf.line.Owned? && r.buf.maxLen == b.maxLen
    ensures r.ok <==> !InsertFails(b, delta, allocOk)
    ensures r.ok ==> && r.buf.Text() == b.Text()[..b.point] + StrnCpy(text, delta) + b.Text()[b.point..]
                     && r.buf.point == b.point + delta
                     && r.buf.end == b.end + delta
                     && r.buf.end <= r.buf.size
    ensures !r.ok ==> r.buf.Text() == b.Text() && r.buf.point == b.point && r.buf.end == b.end
  {
    var p := Promote(b);
    var e := if delta + p.end > p.size then Extend(p, p.end + delta, allocOk) else Edit(true, p);
    if !e.ok then e
    else
      var q := e.buf;
      var content := q.buffer[..q.point] + StrnCpy(text, delta) + q.buffer[q.point..];
      Edit(true, q.(buffer := content, point := q.point + delta, end := q.end + delta))
  }

  /** `tinyrl_insert_text`: insert the whole C string `text`. */
  function InsertText(b: LineBuffer, text: seq<byte>, allocOk: bool): (r: Edit)
    requires b.Valid()
    ensures r.buf.Valid() && r.buf.line.Owned?
    ensures r.ok <==> !InsertFails(b, |CString(text)|, allocOk)
    ensures r.ok ==> && r.buf.Text() == b.Text()[..b.point] + CString(text) + b.Text()[b.point..]
                     && r.buf.point == b.point + |CString(text)|
    ensures !r.ok ==> r.buf.Text() == b.Text() && r.buf.point == b.point
  {
    StrnCpyOfStrlen(text);
    InsertTextLen(b, text, |CString(text)|, allocOk)
  }

  /** `tinyrl_delete_text`: remove the bytes [start, stop) of the line. */
  function DeleteText(b: LineBuffer, start: nat, stop: nat): (r: LineBuffer)
    requires b.Valid() && start <= stop <= b.end
    ensures r.Valid() && r.maxLen == b.maxLen
    ensures start == stop ==> r == b
    ensures start < stop ==> r.line.Owned?
    ensures r.Text() == b.Text()[..start] + b.Text()[stop..]
    ensures r.end == b.end - (stop - start)
    ensures b.point <= start ==> r.point == b.point
    ensures start < b.point <= stop ==> r.point == start
    ensures stop < b.point ==> r.point == b.point - (stop - start)
  {
    if start == stop then b
    else
      var p := Promote(b);
      var delta := stop - start;
      var point :=
        if p.point > stop then p.point - delta
        else if p.point > start then start
        else p.point;
      p.(buffer := p.buffer[..start] + p.buffer[stop..], end := p.end - delta, point := point)
  }

  /** `tinyrl_set_line`: show `text` (borrowed, never written to), or the
      owned buffer again when there is none; the cursor goes to the end. */
  function SetLine(b: LineBuffer, text: Option<seq<byte>>): (r: LineBuffer)
    requires b.Valid()
    ensures r.Valid()
    ensures r.point == r.end && r.size == b.size && r.maxLen == b.maxLen
    ensures text.Some? ==> r.line == Borrowed(CString(text.value)) && r.buffer == b.buffer
    ensures text.None? ==> r.line.Owned? && r.Text() == CString(b.buffer)
  {
    match text
    case Some(t) =>
      var c := CString(t);
      b.(line := Borrowed(c), point := |c|, end := |c|)
    case None =>
      var c := CString(b.buffer);
      b.(line := Owned, buffer := c, point := |c|, end := |c|)
  }

  /** Inserting `n` bytes at the point and then deleting [point, point+n)
      restores the line, the point and the end. */
  lemma InsertDeleteRoundTrip(b: LineBuffer, text: seq<byte>, n: nat, allocOk: bool)
    requires b.Valid()
    requires !InsertFails(b, n, allocOk)
    ensures var i := InsertTextLen(b, text, n, allocOk).buf;
            var d := DeleteText(i, b.point, b.point + n);
            d.Text() == b.Text() && d.point == b.point && d.end == b.end
  {
    var i := InsertTextLen(b, text, n, allocOk).buf;
    var d := DeleteText(i, b.point, b.point + n);
    var t := b.Text();
    var x := StrnCpy(text, n);
    assert i.Text() == t[..b.point] + x + t[b.point..];
    assert i.Text()[..b.point] == t[..b.point];
    assert i.Text()[b.point + n..] == t[b.point..];
    assert d.Text() == t[..b.point] + t[b.point..];
    assert t[..b.point] + t[b.point..] == t;
  }

  /** A capped buffer refuses an insert that would reach the cap: after
      promotion there is no room, and the growth request is not below the
      cap. A borrowed line is promoted to exactly its length, so only an
      empty insert gets through there. */
  lemma BoundedInsertBeyondCapFails(b: LineBuffer, text: seq<byte>, delta: nat, allocOk: bool)
    requires b.Valid() && b.maxLen > 0 && b.end + delta >= b.maxLen
    requires (b.line.Owned? && b.size < b.maxLen) || (b.line.Borrowed? && delta > 0)
    ensures var r := InsertTextLen(b, text, delta, allocOk);
            !r.ok && r.buf.Text() == b.Text() && r.buf.point == b.point && r.buf.end == b.end
  {
  }

  /** An unbounded insert that must grow grows to at least the request and
      at least ten bytes beyond the capacity of the (promoted) line; a
      borrowed line is first copied to a buffer of exactly its length. */
  lemma UnboundedGrowth(b: LineBuffer, text: seq<byte>, delta: nat)
    requires b.Valid() && b.maxLen == 0 && Promote(b).end + delta > Promote(b).size
    ensures var r := InsertTextLen(b, text, delta, true);
            && r.ok && r.buf.size >= Promote(b).end + delta && r.buf.size >= Promote(b).size + 10
            && (b.line.Borrowed? ==> r.buf.size >= b.end + 10)
  {
  }
}
