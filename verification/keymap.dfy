/** The key trie: a prefix tree over input bytes whose slots hold an
    optional handler and an optional child node (tinyrl.c:18-22, 273-287,
    601-640, 903-962). The handler type `H` stands for the source's
    (handler, context) pair: a slot whose handler is NULL is `None`. */
module Keymap {
  import opened Wrappers
  import opened Bytes

  datatype Slot<H> = Slot(handler: Option<H>, child: Option<Node<H>>)

  /** A byte absent from `slots` has an empty slot. */
  datatype Node<H> = Node(slots: map<byte, Slot<H>>)

  const ESC: byte := 27

  function Get<H>(n: Node<H>, c: byte): Slot<H> {
    if c in n.slots then n.slots[c] else Slot(None, None)
  }

  /** `tinyrl_keymap_new`: a node with every handler and child empty. */
  function NewKeymap<H>(): (n: Node<H>)
    ensures forall c: byte :: Get(n, c) == Slot(None, None)
  {
    Node(map[])
  }

  /** `tinyrl_bind_key`: set the handler of byte `c` at node `n`, keeping
      its child. */
  function BindKey<H>(n: Node<H>, c: byte, h: Option<H>): (r: Node<H>)
    ensures Get(r, c).handler == h && Get(r, c).child == Get(n, c).child
    ensures forall d: byte :: d != c ==> Get(r, d) == Get(n, d)
  {
    Node(n.slots[c := Slot(h, Get(n, c).child)])
  }

  /** Binding a key keeps the child of every byte. */
  lemma BindKeyChild<H>(n: Node<H>, c: byte, h: Option<H>, d: byte)
    ensures Get(BindKey(n, c, h), d).child == Get(n, d).child
  {
  }

  /** Binding a key sets its handler and no other. */
  lemma BindKeyHandler<H>(n: Node<H>, c: byte, h: Option<H>, d: byte)
    ensures Get(BindKey(n, c, h), d).handler == if d == c then h else Get(n, d).handler
  {
  }

  /** The node reached from `n` by following children along all of `s`. */
  function Descend<H>(n: Node<H>, s: seq<byte>): Option<Node<H>>
    decreases |s|
  {
    if |s| == 0 then Some(n)
    else match Get(n, s[0]).child
      case None => None
      case Some(c) => Descend(c, s[1..])
  }

  /** The handler bound to exactly the sequence `s` (non-empty). */
  function Lookup<H>(n: Node<H>, s: seq<byte>): Option<H>
    requires |s| > 0
  {
    match Descend(n, s[..|s| - 1])
    case None => None
    case Some(m) => Get(m, s[|s| - 1]).handler
  }

  /** Binding below `n`: children are created along every byte but the
      last, and the last byte's handler is set. */
  function BindPath<H>(n: Node<H>, s: seq<byte>, h: Option<H>): (r: Node<H>)
    requires |s| > 0
    ensures forall d: byte :: d != s[0] ==> Get(r, d) == Get(n, d)
    ensures |s| > 1 ==> Get(r, s[0]).handler == Get(n, s[0]).handler && Get(r, s[0]).child.Some?
    decreases |s|
  {
    if |s| == 1 then BindKey(n, s[0], h)
    else
      var prior := Get(n, s[0]);
      var child := if prior.child.Some? then prior.child.value else NewKeymap();
      Node(n.slots[s[0] := Slot(prior.handler, Some(BindPath(child, s[1..], h)))])
  }

  /** `tinyrl_bind_keyseq`: bind the C string `keys`; an empty one binds nothing. */
  function BindKeySeq<H>(n: Node<H>, keys: seq<byte>, h: Option<H>): (r: Node<H>)
    ensures |CString(keys)| == 0 ==> r == n
    ensures |CString(keys)| > 0 ==> Lookup(r, CString(keys)) == h
  {
    var s := CString(keys);
    if |s| == 0 then n
    else
      BindThenLookup(n, s, h);
      BindPath(n, s, h)
  }

  /** After binding `s`, looking `s` up gives the new handler. */
  lemma {:induction false} BindThenLookup<H>(n: Node<H>, s: seq<byte>, h: Option<H>)
    requires |s| > 0
    ensures Lookup(BindPath(n, s, h), s) == h
    decreases |s|
  {
    var r := BindPath(n, s, h);
    if |s| > 1 {
      var prior := Get(n, s[0]);
      var child := if prior.child.Some? then prior.child.value else NewKeymap();
      assert Get(r, s[0]).child == Some(BindPath(child, s[1..], h));
      BindThenLookup(child, s[1..], h);
      assert s[1..][..|s[1..]| - 1] == s[..|s| - 1][1..];
      assert s[1..][|s[1..]| - 1] == s[|s| - 1];
    }
  }

  /** Binding `s` leaves the handler of every other sequence `t` alone. */
  lemma {:induction false} BindLeavesOthers<H>(n: Node<H>, s: seq<byte>, h: Option<H>, t: seq<byte>)
    requires |s| > 0 && |t| > 0 && t != s
    ensures Lookup(BindPath(n, s, h), t) == Lookup(n, t)
    decreases |s|
  {
    var r := BindPath(n, s, h);
    if t[0] != s[0] {
      assert Get(r, t[0]) == Get(n, t[0]);
      if |t| > 1 {
        assert t[..|t| - 1][0] == t[0];
        assert Descend(r, t[..|t| - 1]) == Descend(n, t[..|t| - 1]);
      }
    } else if |s| == 1 {
      assert |t| > 1;
      assert Get(r, t[0]).child == Get(n, t[0]).child;
    } else if |t| == 1 {
      assert Get(r, t[0]).handler == Get(n, t[0]).handler;
    } else {
      var prior := Get(n, s[0]);
      var child := if prior.child.Some? then prior.child.value else NewKeymap();
      assert Get(r, s[0]).child == Some(BindPath(child, s[1..], h));
      assert t[1..] != s[1..] by { assert t == [t[0]] + t[1..] && s == [s[0]] + s[1..]; }
      BindLeavesOthers(child, s[1..], h, t[1..]);
      assert t[1..][..|t[1..]| - 1] == t[..|t| - 1][1..];
      assert t[1..][|t[1..]| - 1] == t[|t| - 1];
      if prior.child.None? {
        NewKeymapLookupEmpty<H>(t[1..]);
        assert Descend(n, t[..|t| - 1]) == None;
      }
    }
  }

  /** A new node binds no sequence. */
  lemma NewKeymapLookupEmpty<H>(t: seq<byte>)
    requires |t| > 0
    ensures Lookup(NewKeymap<H>(), t) == None
  {
    if |t| > 1 {
      assert Get(NewKeymap<H>(), t[0]).child == None;
    }
  }

  /** The special keys `tinyrl_bind_special` knows. */
  datatype SpecialKey = Up | Down | Left | Right | Home | End | Insert | Delete

  /** The escape sequence each special key sends. */
  function SpecialSeq(k: SpecialKey): (r: seq<byte>)
    ensures |r| >= 3 && r[0] == ESC && NoNul(r)
  {
    match k
    case Up => [ESC, '[' as byte, 'A' as byte]
    case Down => [ESC, '[' as byte, 'B' as byte]
    case Left => [ESC, '[' as byte, 'D' as byte]
    case Right => [ESC, '[' as byte, 'C' as byte]
    case Home => [ESC, 'O' as byte, 'H' as byte]
    case End => [ESC, 'O' as byte, 'F' as byte]
    case Insert => [ESC, '[' as byte, '2' as byte, '~' as byte]
    case Delete => [ESC, '[' as byte, '3' as byte, '~' as byte]
  }

  /** Distinct special keys send distinct sequences. */
  lemma SpecialSeqInjective(a: SpecialKey, b: SpecialKey)
    requires a != b
    ensures SpecialSeq(a) != SpecialSeq(b)
  {
    var x, y := SpecialSeq(a), SpecialSeq(b);
    if |x| == |y| {
      if |x| == 3 {
        assert x[1] != y[1] || x[2] != y[2];
      } else {
        assert x[2] != y[2];
      }
    }
  }

  /** `tinyrl_bind_special`: bind a special key's escape sequence. */
  function BindSpecial<H>(n: Node<H>, k: SpecialKey, h: Option<H>): (r: Node<H>)
    ensures Lookup(r, SpecialSeq(k)) == h
    ensures forall t :: |t| > 0 && t != SpecialSeq(k) ==> Lookup(r, t) == Lookup(n, t)
    ensures forall c: byte :: c != ESC ==> Get(r, c) == Get(n, c)
  {
    var s := SpecialSeq(k);
    CStringOfNoNul(s);
    BindThenLookup(n, s, h);
    forall t | |t| > 0 && t != s
      ensures Lookup(BindPath(n, s, h), t) == Lookup(n, t)
    {
      BindLeavesOthers(n, s, h, t);
    }
    BindKeySeq(n, s, h)
  }

  /** What a walk through the trie resolved: the last handler seen, the key
      unit the handler receives (the most recently read one), and the input
      units left unread. */
  datatype Resolution<H> = Resolution(handler: Option<H>, key: seq<byte>, rest: seq<seq<byte>>)

  predicate Units(pending: seq<seq<byte>>) {
    forall k :: 0 <= k < |pending| ==> |pending[k]| > 0
  }

  /** The walk of `tinyrl_handle_key`, from byte `i` of the key unit `key`.
      `pending` holds the units a non-blocking read would return, in order;
      when it is exhausted the read fails and the walk stops. */
  function Walk<H>(n: Node<H>, key: seq<byte>, i: nat, pending: seq<seq<byte>>, best: Option<H>): (r: Resolution<H>)
    requires i < |key| && Units(pending)
    ensures |r.rest| <= |pending| && r.rest == pending[|pending| - |r.rest|..]
    ensures |r.key| > 0
    decreases |pending|, |key| - i
  {
    var slot := Get(n, key[i]);
    var seen := if slot.handler.Some? then slot.handler else best;
    match slot.child
    case None => Resolution(seen, key, pending)
    case Some(child) =>
      if i + 1 < |key| then Walk(child, key, i + 1, pending, seen)
      else if |pending| == 0 then Resolution(seen, key, pending)
      else Walk(child, pending[0], 0, pending[1..], seen)
  }

  /** The handler receives the unit read last: the starting unit when the
      walk read no further input, else the last pending unit it read. */
  lemma {:induction false} WalkKeyIsLastRead<H>(n: Node<H>, key: seq<byte>, i: nat, pending: seq<seq<byte>>, best: Option<H>)
    requires i < |key| && Units(pending)
    ensures var r := Walk(n, key, i, pending, best);
            r.key == if |r.rest| == |pending| then key else pending[|pending| - |r.rest| - 1]
    decreases |pending|, |key| - i, 1
  {
    var slot := Get(n, key[i]);
    var seen := if slot.handler.Some? then slot.handler else best;
    if slot.child.Some? && i + 1 < |key| {
      assert Walk(n, key, i, pending, best) == Walk(slot.child.value, key, i + 1, pending, seen);
      WalkKeyIsLastRead(slot.child.value, key, i + 1, pending, seen);
    } else if slot.child.Some? && |pending| > 0 {
      WalkKeyNextUnit(n, key, i, pending, best);
    } else {
      assert Walk(n, key, i, pending, best) == Resolution(seen, key, pending);
    }
  }

  /** The case of `WalkKeyIsLastRead` where the walk goes on to the next
      pending unit. */
  lemma {:induction false} WalkKeyNextUnit<H>(n: Node<H>, key: seq<byte>, i: nat, pending: seq<seq<byte>>, best: Option<H>)
    requires i < |key| && Units(pending) && |pending| > 0
    requires Get(n, key[i]).child.Some? && i + 1 == |key|
    ensures var r := Walk(n, key, i, pending, best);
            r.key == if |r.rest| == |pending| then key else pending[|pending| - |r.rest| - 1]
    decreases |pending|, |key| - i, 0
  {
    var slot := Get(n, key[i]);
    var seen := if slot.handler.Some? then slot.handler else best;
    var tail := pending[1..];
    var r := Walk(slot.child.value, pending[0], 0, tail, seen);
    WalkReadsNext(n, key, i, pending, best);
    WalkKeyIsLastRead(slot.child.value, pending[0], 0, tail, seen);
    assert r.key == if |r.rest| == |tail| then pending[0] else tail[|tail| - |r.rest| - 1];
  }

  /** At the last byte of a unit with a child to follow, the walk reads the
      next pending unit; the key it ends with is indexed the same way in
      both input lists. */
  lemma WalkReadsNext<H>(n: Node<H>, key: seq<byte>, i: nat, pending: seq<seq<byte>>, best: Option<H>)
    requires i < |key| && Units(pending) && |pending| > 0
    requires Get(n, key[i]).child.Some? && i + 1 == |key|
    ensures var slot := Get(n, key[i]);
            var seen := if slot.handler.Some? then slot.handler else best;
            var r := Walk(slot.child.value, pending[0], 0, pending[1..], seen);
            && Walk(n, key, i, pending, best) == r
            && |r.rest| < |pending|
            && (|r.rest| < |pending| - 1 ==> pending[1..][|pending| - 1 - |r.rest| - 1] == pending[|pending| - |r.rest| - 1])
  {
  }

  /** The bytes of the first unit from offset `i` followed by all later units. */
  function Flatten(key: seq<byte>, i: nat, pending: seq<seq<byte>>): seq<byte>
    requires i <= |key|
    decreases |pending|
  {
    if |pending| == 0 then key[i..] else key[i..] + Flatten(pending[0], 0, pending[1..])
  }

  /** The reference walk over plain bytes: record the handler of each byte,
      follow its child, stop at a missing child or at the end of input. */
  function WalkBytes<H>(n: Node<H>, s: seq<byte>, best: Option<H>): Option<H>
    decreases |s|
  {
    if |s| == 0 then best
    else
      var slot := Get(n, s[0]);
      var seen := if slot.handler.Some? then slot.handler else best;
      match slot.child
      case None => seen
      case Some(child) => WalkBytes(child, s[1..], seen)
  }

  /** Below a byte with a child, lookups continue in the child. */
  lemma LookupChild<H>(n: Node<H>, c: byte, child: Node<H>, t: seq<byte>)
    requires Get(n, c).child == Some(child) && |t| > 0
    ensures Lookup(n, [c] + t) == Lookup(child, t)
  {
    var s := [c] + t;
    assert s[..|s| - 1] == [c] + t[..|t| - 1];
    assert s[..|s| - 1][1..] == t[..|t| - 1];
    assert s[|s| - 1] == t[|t| - 1];
  }

  /** Below a byte without a child, no longer sequence is bound. */
  lemma LookupNoChild<H>(n: Node<H>, s: seq<byte>)
    requires |s| > 1 && Get(n, s[0]).child.None?
    ensures Lookup(n, s) == None
  {
    assert s[..|s| - 1][0] == s[0];
  }

  /** The walk resolves to the handler of the LONGEST prefix of the input
      that has one (the last handler met on the path), and to the handler
      already recorded when no prefix has one. It is not the deepest node
      reached: bytes walked past the last handler are dropped. */
  lemma {:induction false} WalkBytesLast<H>(n: Node<H>, s: seq<byte>, best: Option<H>)
    ensures forall k ::
              (1 <= k <= |s| && Lookup(n, s[..k]).Some? && (forall j :: k < j <= |s| ==> Lookup(n, s[..j]).None?))
              ==> WalkBytes(n, s, best) == Lookup(n, s[..k])
    ensures (forall j :: 1 <= j <= |s| ==> Lookup(n, s[..j]).None?) ==> WalkBytes(n, s, best) == best
    decreases |s|
  {
    if |s| > 0 {
      var slot := Get(n, s[0]);
      var seen := if slot.handler.Some? then slot.handler else best;
      assert Lookup(n, s[..1]) == slot.handler by { assert s[..1][..0] == []; }
      match slot.child
      case None =>
        forall j | 1 < j <= |s| ensures Lookup(n, s[..j]) == None {
          LookupNoChild(n, s[..j]);
        }
      case Some(c) =>
        var t := s[1..];
        WalkBytesLast(c, t, seen);
        forall j | 1 < j <= |s| ensures Lookup(n, s[..j]) == Lookup(c, t[..j - 1]) {
          assert s[..j] == [s[0]] + t[..j - 1];
          LookupChild(n, s[0], c, t[..j - 1]);
        }
        assert WalkBytes(n, s, best) == WalkBytes(c, t, seen);
        forall k | 1 <= k <= |s| && Lookup(n, s[..k]).Some? && (forall j :: k < j <= |s| ==> Lookup(n, s[..j]).None?)
          ensures WalkBytes(n, s, best) == Lookup(n, s[..k])
        {
          forall j | k - 1 < j <= |t| ensures Lookup(c, t[..j]).None? {
            assert Lookup(c, t[..j]) == Lookup(n, s[..j + 1]);
          }
          if k > 1 {
            assert Lookup(c, t[..k - 1]) == Lookup(n, s[..k]);
          }
        }
        if forall j :: 1 <= j <= |s| ==> Lookup(n, s[..j]).None? {
          forall j | 1 <= j <= |t| ensures Lookup(c, t[..j]).None? {
            assert Lookup(c, t[..j]) == Lookup(n, s[..j + 1]);
          }
        }
    }
  }

  /** Walking a whole bound sequence resolves to its handler. */
  lemma WalkBytesWhole<H>(n: Node<H>, s: seq<byte>, best: Option<H>)
    requires |s| > 0 && Lookup(n, s).Some?
    ensures WalkBytes(n, s, best) == Lookup(n, s)
  {
    WalkBytesLast(n, s, best);
    assert s[..|s|] == s;
  }

  /** The flattened input starts with byte `i` of the unit, followed by
      the flattened rest. */
  lemma FlattenHead(key: seq<byte>, i: nat, pending: seq<seq<byte>>)
    requires i < |key| && Units(pending)
    ensures var f := Flatten(key, i, pending);
            && |f| > 0 && f[0] == key[i]
            && f[1..] == (if i + 1 < |key| then Flatten(key, i + 1, pending)
                          else if |pending| == 0 then []
                          else Flatten(pending[0], 0, pending[1..]))
  {
    if |pending| > 0 {
      assert key[i..][1..] == key[i + 1..];
    }
  }

  /** One step of the reference walk. */
  lemma WalkBytesStep<H>(n: Node<H>, s: seq<byte>, best: Option<H>)
    requires |s| > 0
    ensures var slot := Get(n, s[0]);
            var seen := if slot.handler.Some? then slot.handler else best;
            WalkBytes(n, s, best) == if slot.child.None? then seen else WalkBytes(slot.child.value, s[1..], seen)
  {
  }

  /** How the input is cut into units does not change which handler the
      walk resolves. */
  lemma {:induction false} WalkIsWalkBytes<H>(n: Node<H>, key: seq<byte>, i: nat, pending: seq<seq<byte>>, best: Option<H>)
    requires i < |key| && Units(pending)
    ensures Walk(n, key, i, pending, best).handler == WalkBytes(n, Flatten(key, i, pending), best)
    decreases |pending|, |key| - i
  {
    var f := Flatten(key, i, pending);
    FlattenHead(key, i, pending);
    WalkBytesStep(n, f, best);
    var slot := Get(n, key[i]);
    var seen := if slot.handler.Some? then slot.handler else best;
    if slot.child.Some? {
      var child := slot.child.value;
      if i + 1 < |key| {
        WalkIsWalkBytes(child, key, i + 1, pending, seen);
      } else if |pending| > 0 {
        WalkIsWalkBytes(child, pending[0], 0, pending[1..], seen);
      }
    }
  }

  /** Pressing exactly a bound sequence, one byte per unit, resolves to its
      handler with no input left over. */
  lemma BindThenWalk<H>(n: Node<H>, s: seq<byte>, h: H)
    requires |s| > 0
    ensures var r := Walk(BindPath(n, s, Some(h)), [s[0]], 0, ByteUnits(s[1..]), None);
            r.handler == Some(h) && r.rest == []
  {
    var m := BindPath(n, s, Some(h));
    BindThenLookup(n, s, Some(h));
    FlattenByteUnits([s[0]], s[1..]);
    assert [s[0]] + s[1..] == s;
    WalkIsWalkBytes(m, [s[0]], 0, ByteUnits(s[1..]), None);
    WalkBytesWhole(m, s, None);
    WalkRestEmpty(m, [s[0]], 0, ByteUnits(s[1..]), None, s);
  }

  /** When no prefix of the input is bound, the walk resolves to no handler. */
  lemma NoHandlerOnPath<H>(n: Node<H>, key: seq<byte>, pending: seq<seq<byte>>)
    requires |key| > 0 && Units(pending)
    requires forall j :: 1 <= j <= |Flatten(key, 0, pending)| ==> Lookup(n, Flatten(key, 0, pending)[..j]).None?
    ensures Walk(n, key, 0, pending, None).handler.None?
  {
    WalkIsWalkBytes(n, key, 0, pending, None);
    WalkBytesLast(n, Flatten(key, 0, pending), None);
  }

  /** Pressing, one byte per unit, a sequence no prefix of which is bound
      but whose last byte is still reached resolves to no handler with no
      input left over. */
  lemma WalkUnbound<H>(n: Node<H>, s: seq<byte>)
    requires |s| > 0
    requires forall j :: 1 <= j <= |s| ==> Lookup(n, s[..j]).None?
    requires Descend(n, s[..|s| - 1]).Some?
    ensures var r := Walk(n, [s[0]], 0, ByteUnits(s[1..]), None);
            r.handler.None? && r.rest == []
  {
    FlattenByteUnits([s[0]], s[1..]);
    assert [s[0]] + s[1..] == s;
    NoHandlerOnPath(n, [s[0]], ByteUnits(s[1..]));
    WalkRestEmpty(n, [s[0]], 0, ByteUnits(s[1..]), None, s);
  }

  /** Each byte as a unit of its own. */
  function ByteUnits(s: seq<byte>): (r: seq<seq<byte>>)
    ensures |r| == |s| && Units(r)
    ensures forall k :: 0 <= k < |s| ==> r[k] == [s[k]]
  {
    if |s| == 0 then [] else [[s[0]]] + ByteUnits(s[1..])
  }

  lemma {:induction false} FlattenByteUnits(key: seq<byte>, s: seq<byte>)
    ensures Flatten(key, 0, ByteUnits(s)) == key + s
    decreases |s|
  {
    var u := ByteUnits(s);
    assert key[0..] == key;
    if |s| == 0 {
      assert u == [];
      assert key + s == key;
    } else {
      assert u[0] == [s[0]] && u[1..] == ByteUnits(s[1..]);
      FlattenByteUnits([s[0]], s[1..]);
      assert Flatten(key, 0, u) == key + Flatten(u[0], 0, u[1..]);
      assert [s[0]] + s[1..] == s;
      assert key + ([s[0]] + s[1..]) == key + s;
    }
  }

  /** Walking along a path the trie has, every unit is consumed. */
  lemma {:induction false} WalkRestEmpty<H>(n: Node<H>, key: seq<byte>, i: nat, pending: seq<seq<byte>>, best: Option<H>, s: seq<byte>)
    requires i < |key| && Units(pending) && s == Flatten(key, i, pending)
    requires Descend(n, s[..|s| - 1]).Some?
    ensures Walk(n, key, i, pending, best).rest == []
    decreases |pending|, |key| - i
  {
    FlattenHead(key, i, pending);
    var slot := Get(n, key[i]);
    var seen := if slot.handler.Some? then slot.handler else best;
    if i + 1 < |key| || |pending| > 0 {
      var t := s[1..];
      assert |t| > 0 by {
        if i + 1 >= |key| { FlattenHead(pending[0], 0, pending[1..]); }
      }
      assert s[..|s| - 1] == [s[0]] + t[..|t| - 1];
      assert s[..|s| - 1][1..] == t[..|t| - 1];
      var child := slot.child.value;
      if i + 1 < |key| {
        WalkRestEmpty(child, key, i + 1, pending, seen, t);
      } else {
        WalkRestEmpty(child, pending[0], 0, pending[1..], seen, t);
      }
    }
  }

}
