/** The grapheme and codepoint service the editor consumes (utf8.h, which is
    not part of this model). Its tables are not modelled: the service is a
    value of four functions, and `Valid` states all the editor may assume.
    Each function receives the bounded text `s[..bound]` the source passes
    as (buffer, bound) together with an offset into it. */
module Graphemes {
  import opened Bytes

  datatype Service = Service(
    next: (seq<byte>, nat) -> nat,      // utf8_grapheme_next
    prev: (seq<byte>, nat) -> nat,      // utf8_grapheme_prev
    charPrev: (seq<byte>, nat) -> nat,  // utf8_char_prev
    width: (seq<byte>, nat) -> nat)     // utf8_grapheme_width

  /** Inside the text, the next boundary lies strictly ahead and not past the
      end; the previous grapheme or codepoint boundary lies strictly behind;
      every grapheme is 0, 1 or 2 columns wide. */
  ghost predicate Valid(g: Service) {
    && (forall s: seq<byte>, i: nat :: i < |s| ==> i < g.next(s, i) <= |s|)
    && (forall s: seq<byte>, i: nat :: 0 < i <= |s| ==> g.prev(s, i) < i)
    && (forall s: seq<byte>, i: nat :: 0 < i <= |s| ==> g.charPrev(s, i) < i)
    && (forall s: seq<byte>, i: nat :: g.width(s, i) <= 2)
  }

  /** The grapheme boundaries met when stepping with `next` from offset `i`
      up to the end of `s`, both ends included. */
  function Boundaries(g: Service, s: seq<byte>, i: nat): (r: seq<nat>)
    requires Valid(g) && i <= |s|
    ensures |r| >= 1 && r[0] == i && r[|r| - 1] == |s|
    ensures forall k :: 0 <= k < |r| ==> i <= r[k] <= |s|
    decreases |s| - i
  {
    if i >= |s| then [i] else [i] + Boundaries(g, s, g.next(s, i))
  }

  /** Boundaries strictly increase, so each offset appears at most once. */
  lemma {:induction false} BoundariesIncreasing(g: Service, s: seq<byte>, i: nat, j: nat, k: nat)
    requires Valid(g) && i <= |s|
    requires j < k < |Boundaries(g, s, i)|
    ensures Boundaries(g, s, i)[j] < Boundaries(g, s, i)[k]
    decreases |s| - i
  {
    var b := Boundaries(g, s, i);
    if i < |s| {
      var n := g.next(s, i);
      assert b == [i] + Boundaries(g, s, n);
      if j == 0 {
        if k > 1 {
          BoundariesIncreasing(g, s, n, 0, k - 1);
        }
      } else {
        BoundariesIncreasing(g, s, n, j - 1, k - 1);
      }
    }
  }

  /** Offset `k` starts a grapheme of `s` (or is its end). */
  ghost predicate IsBoundary(g: Service, s: seq<byte>, k: nat)
    requires Valid(g)
  {
    k in Boundaries(g, s, 0)
  }

  /** The number of graphemes in `s`. */
  function GraphemeCount(g: Service, s: seq<byte>): nat
    requires Valid(g)
  {
    |Boundaries(g, s, 0)| - 1
  }

  /** A service in which every byte is a one-column grapheme (plain ASCII). */
  function Ascii(): (g: Service)
    ensures Valid(g)
    ensures forall s: seq<byte>, i: nat :: g.next(s, i) == i + 1 && g.width(s, i) == 1
  {
    Service(
      (s: seq<byte>, i: nat) => i + 1,
      (s: seq<byte>, i: nat) => if i > 0 then i - 1 else 0,
      (s: seq<byte>, i: nat) => if i > 0 then i - 1 else 0,
      (s: seq<byte>, i: nat) => 1)
  }

  /** Under the ASCII service every offset is a boundary and the count of
      graphemes is the length. */
  lemma {:induction false} AsciiBoundaries(s: seq<byte>, i: nat)
    requires i <= |s|
    ensures |Boundaries(Ascii(), s, i)| == |s| - i + 1
    ensures forall k :: 0 <= k < |s| - i + 1 ==> Boundaries(Ascii(), s, i)[k] == i + k
    decreases |s| - i
  {
    if i < |s| {
      AsciiBoundaries(s, i + 1);
    }
  }
}
