/**
 * The on-disk chain format (YashoDB.java, the format comment at the top).
 * A collection or object body is a chain of slots, each a liveness byte
 * (`r` live, `R` removed), an 8-byte big-endian length and that many bytes
 * of payload, ended by `t` plus 8 bytes, or continued elsewhere by `T` plus
 * the absolute offset of the next segment.
 *
 * Every loop of the engine that follows a chain is stated here once, as the
 * list of slots a walk visits and how the walk ended; each loop is then a
 * function of that list.  A walk only moves forward: a length that is
 * negative, or a tail link that does not point past its own 9 bytes, ends the
 * walk as Backward (the engine never writes one; the source would follow it).
 */
module Chains {
  import opened Bytes
  import opened Text
  import opened Results
  import opened Sequences

  const COLLECTION: byte := 67    // 'C'
  const OBJECT: byte := 79        // 'O'
  const VALUE: byte := 86         // 'V'
  const NULL: byte := 78          // 'N'
  const HAS_TAIL: byte := 84      // 'T'
  const HAS_NOT_TAIL: byte := 116 // 't'
  const DELETED: byte := 82       // 'R'
  const NOT_DELETED: byte := 114  // 'r'

  /** A slot: its liveness byte is at `at`, its payload starts at at + 9 and is `len` bytes long. */
  datatype Entry = Entry(at: nat, live: bool, len: int)

  /** How a walk ended: on the terminator `t` at `at`, at the end of the file, on a backward link, or on a foreign byte at `at`. */
  datatype Stop = End(at: nat) | Truncated | Backward | BadTag(at: nat)

  datatype Chain = Chain(entries: seq<Entry>, stop: Stop)

  function Cons(e: Entry, c: Chain): Chain
  {
    Chain([e] + c.entries, c.stop)
  }

  /** The long at p, if the file holds 8 bytes there. */
  function LongAt(f: seq<byte>, p: nat): (r: Option<int>)
    ensures r.Some? <==> p + 8 <= |f|
    ensures r.Some? ==> IsLong(r.value)
  {
    if p + 8 <= |f| then Some(DecodeLong(f[p..p + 8])) else None
  }

  /**
   * The slots a chain walk visits from p, in visiting order.  With
   * followTails false a `T` is stepped over without reading its offset, as
   * the compaction of nested collections does.
   */
  function Walk(f: seq<byte>, p: nat, followTails: bool): Chain
    decreases |f| - p
  {
    if p >= |f| then Chain([], Truncated)
    else if f[p] == HAS_NOT_TAIL then Chain([], End(p))
    else if f[p] == HAS_TAIL && !followTails then Walk(f, p + 1, false)
    else if f[p] == HAS_TAIL || f[p] == DELETED || f[p] == NOT_DELETED then
      if p + 9 > |f| then Chain([], Truncated)
      else
        var n := DecodeLong(f[p + 1..p + 9]);
        if f[p] == HAS_TAIL then
          if n < p + 9 then Chain([], Backward) else Walk(f, n, true)
        else
          var e := Entry(p, f[p] == NOT_DELETED, n);
          if n < 0 then Chain([e], Backward) else Cons(e, Walk(f, p + 9 + n, followTails))
    else Chain([], BadTag(p))
  }

  /** The slots already visited, then what a walk from the current position visits. */
  function Glue(done: seq<Entry>, c: Chain): Chain
  {
    Chain(done + c.entries, c.stop)
  }

  /** One step of a walk at a slot: the slot, then the walk from just past its payload. */
  lemma WalkAtSlot(f: seq<byte>, p: nat, followTails: bool, done: seq<Entry>)
    requires p + 9 <= |f| && (f[p] == DELETED || f[p] == NOT_DELETED)
    requires DecodeLong(f[p + 1..p + 9]) >= 0
    ensures var n := DecodeLong(f[p + 1..p + 9]);
      Glue(done, Walk(f, p, followTails))
      == Glue(done + [Entry(p, f[p] == NOT_DELETED, n)], Walk(f, p + 9 + n, followTails))
  {
    var n := DecodeLong(f[p + 1..p + 9]);
    var e := Entry(p, f[p] == NOT_DELETED, n);
    assert Walk(f, p, followTails) == Cons(e, Walk(f, p + 9 + n, followTails));
    Assoc(done, [e], Walk(f, p + 9 + n, followTails).entries);
  }

  /** A walk at a slot visits that slot first. */
  lemma WalkHead(f: seq<byte>, p: nat, followTails: bool, done: seq<Entry>)
    requires p + 9 <= |f| && (f[p] == DELETED || f[p] == NOT_DELETED)
    ensures var g := Glue(done, Walk(f, p, followTails));
      |done| < |g.entries| && g.entries[|done|] == Entry(p, f[p] == NOT_DELETED, DecodeLong(f[p + 1..p + 9]))
  {
  }

  /** A slot as the file holds it: its liveness byte and its length field. */
  predicate SlotIn(f: seq<byte>, e: Entry)
  {
    e.at + 9 <= |f| && f[e.at] == (if e.live then NOT_DELETED else DELETED)
    && e.len == DecodeLong(f[e.at + 1..e.at + 9])
  }

  /** A walk that reaches a terminator finds it at or after its start. */
  lemma {:induction false} WalkEnd(f: seq<byte>, p: nat, followTails: bool)
    ensures var c := Walk(f, p, followTails);
      c.stop.End? ==> p <= c.stop.at < |f| && f[c.stop.at] == HAS_NOT_TAIL
    decreases |f| - p
  {
    if p < |f| && f[p] != HAS_NOT_TAIL {
      if f[p] == HAS_TAIL && !followTails {
        WalkEnd(f, p + 1, false);
      } else if (f[p] == HAS_TAIL || f[p] == DELETED || f[p] == NOT_DELETED) && p + 9 <= |f| {
        var n := DecodeLong(f[p + 1..p + 9]);
        if f[p] == HAS_TAIL && n >= p + 9 {
          WalkEnd(f, n, true);
        } else if f[p] != HAS_TAIL && n >= 0 {
          WalkEnd(f, p + 9 + n, followTails);
        }
      }
    }
  }

  /** Every slot of es lies at or after p and is what the file holds there. */
  predicate SlotsFrom(f: seq<byte>, p: nat, es: seq<Entry>)
  {
    forall i :: 0 <= i < |es| ==> p <= es[i].at && SlotIn(f, es[i])
  }

  /** Every slot a walk visits lies at or after its start and is what the file holds there. */
  lemma {:induction false} WalkSlots(f: seq<byte>, p: nat, followTails: bool)
    ensures SlotsFrom(f, p, Walk(f, p, followTails).entries)
    decreases |f| - p
  {
    if p < |f| && f[p] != HAS_NOT_TAIL {
      if f[p] == HAS_TAIL && !followTails {
        assert Walk(f, p, followTails) == Walk(f, p + 1, false);
        WalkSlots(f, p + 1, false);
      } else if (f[p] == HAS_TAIL || f[p] == DELETED || f[p] == NOT_DELETED) && p + 9 <= |f| {
        var n := DecodeLong(f[p + 1..p + 9]);
        if f[p] == HAS_TAIL && n >= p + 9 {
          WalkSlots(f, n, true);
        } else if f[p] != HAS_TAIL && n >= 0 {
          var e := Entry(p, f[p] == NOT_DELETED, n);
          var rest := Walk(f, p + 9 + n, followTails).entries;
          WalkSlots(f, p + 9 + n, followTails);
          assert Walk(f, p, followTails).entries == [e] + rest;
        }
      }
    }
  }

  /** The slots lie at strictly increasing offsets, so no two share one. */
  predicate Ascending(es: seq<Entry>)
  {
    forall j, k :: 0 <= j < k < |es| ==> es[j].at < es[k].at
  }

  /** A walk visits its slots at strictly increasing offsets. */
  lemma {:induction false} WalkAscending(f: seq<byte>, p: nat, followTails: bool)
    ensures Ascending(Walk(f, p, followTails).entries)
    decreases |f| - p
  {
    if p < |f| && f[p] != HAS_NOT_TAIL {
      if f[p] == HAS_TAIL && !followTails {
        assert Walk(f, p, followTails) == Walk(f, p + 1, false);
        WalkAscending(f, p + 1, false);
      } else if (f[p] == HAS_TAIL || f[p] == DELETED || f[p] == NOT_DELETED) && p + 9 <= |f| {
        var n := DecodeLong(f[p + 1..p + 9]);
        if f[p] == HAS_TAIL && n >= p + 9 {
          WalkAscending(f, n, true);
        } else if f[p] != HAS_TAIL && n >= 0 {
          WalkAscending(f, p + 9 + n, followTails);
          WalkAtsFrom(f, p + 9 + n, followTails);
          WalkAtSlotCases(f, p, followTails);
          AscendingCons(Entry(p, f[p] == NOT_DELETED, n), Walk(f, p + 9 + n, followTails).entries);
        }
      }
    }
  }

  /** Every slot a walk visits lies at or after its start. */
  lemma WalkAtsFrom(f: seq<byte>, p: nat, followTails: bool)
    ensures forall k :: 0 <= k < |Walk(f, p, followTails).entries| ==> p <= Walk(f, p, followTails).entries[k].at
  {
    WalkSlots(f, p, followTails);
  }

  lemma AscendingCons(e: Entry, rest: seq<Entry>)
    requires Ascending(rest) && forall k :: 0 <= k < |rest| ==> e.at < rest[k].at
    ensures Ascending([e] + rest)
  {
    var es := [e] + rest;
    forall j, k | 0 <= j < k < |es|
      ensures es[j].at < es[k].at
    {
      assert es[k] == rest[k - 1];
      if j > 0 {
        assert es[j] == rest[j - 1];
      }
    }
  }

  /** The bytes from lo up to hi are the same in f and g. */
  predicate Agree(f: seq<byte>, g: seq<byte>, lo: nat, hi: nat)
  {
    hi <= |f| && hi <= |g| && forall i :: lo <= i < hi ==> f[i] == g[i]
  }

  /**
   * A walk reads only bytes from its start up to its terminator: a file
   * that agrees on the bytes before the terminator visits the same slots,
   * and then goes on from the old terminator's position.
   */
  lemma {:induction false} WalkFrame(f: seq<byte>, g: seq<byte>, p: nat, followTails: bool)
    requires Walk(f, p, followTails).stop.End?
    requires Agree(f, g, p, Walk(f, p, followTails).stop.at)
    ensures var t := Walk(f, p, followTails).stop.at;
      Walk(g, p, followTails) == Chain(Walk(f, p, followTails).entries + Walk(g, t, followTails).entries,
                                       Walk(g, t, followTails).stop)
    decreases |f| - p
  {
    var t := Walk(f, p, followTails).stop.at;
    WalkEnd(f, p, followTails);
    if p != t {
      assert g[p] == f[p];
      if f[p] == HAS_TAIL && !followTails {
        WalkEnd(f, p + 1, false);
        WalkFrame(f, g, p + 1, false);
      } else {
        var n := DecodeLong(f[p + 1..p + 9]);
        if f[p] == HAS_TAIL {
          WalkEnd(f, n, true);
          assert g[p + 1..p + 9] == f[p + 1..p + 9];
          WalkFrame(f, g, n, true);
        } else {
          FrameStep(f, g, p, followTails);
        }
      }
    }
  }

  /** WalkFrame for a walk that starts on a slot. */
  lemma {:induction false} FrameStep(f: seq<byte>, g: seq<byte>, p: nat, followTails: bool)
    requires Walk(f, p, followTails).stop.End?
    requires Agree(f, g, p, Walk(f, p, followTails).stop.at)
    requires p < |f| && (f[p] == DELETED || f[p] == NOT_DELETED)
    ensures var t := Walk(f, p, followTails).stop.at;
      Walk(g, p, followTails) == Chain(Walk(f, p, followTails).entries + Walk(g, t, followTails).entries,
                                       Walk(g, t, followTails).stop)
    decreases |f| - p, 0
  {
    var t := Walk(f, p, followTails).stop.at;
    var n := DecodeLong(f[p + 1..p + 9]);
    var e := Entry(p, f[p] == NOT_DELETED, n);
    var next := p + 9 + n;
    var fr := Walk(f, next, followTails);
    assert n >= 0 && Walk(f, p, followTails) == Cons(e, fr) && p + 9 <= next <= t by {
      WalkAtSlotCases(f, p, followTails);
      WalkEnd(f, next, followTails);
    }
    assert Walk(g, p, followTails) == Cons(e, Walk(g, next, followTails)) by {
      HeadAgree(f, g, p, t);
      WalkAtSlotCases(g, p, followTails);
    }
    var gt := Walk(g, t, followTails);
    assert Walk(g, next, followTails) == Chain(fr.entries + gt.entries, gt.stop) by {
      WalkFrame(f, g, next, followTails);
    }
    Assoc([e], fr.entries, gt.entries);
  }

  /** Two files that agree from p to hi agree on a slot header at p below hi. */
  lemma HeadAgree(f: seq<byte>, g: seq<byte>, p: nat, hi: nat)
    requires Agree(f, g, p, hi) && p + 9 <= hi
    ensures g[p] == f[p] && g[p + 1..p + 9] == f[p + 1..p + 9]
  {
    assert forall i :: p + 1 <= i < p + 9 ==> g[i] == f[i];
  }

  // ---------------------------------------------------------------- slot contents

  /** (char) b for a Java byte, which is signed: bytes above 127 sign-extend. */
  function KeyChar(b: byte): Char16
  {
    if b < 128 then b as int as Char16 else (b as int + 0xFF00) as Char16
  }

  /** readKey: one char per byte. */
  function KeyText(bs: seq<byte>): (r: JString)
    ensures |r| == |bs|
    ensures forall i :: 0 <= i < |bs| ==> r[i] == KeyChar(bs[i])
  {
    seq(|bs|, i requires 0 <= i < |bs| => KeyChar(bs[i]))
  }

  /** The key of an object slot (readInt, then readKey), or why it cannot be read. */
  function SlotKey(f: seq<byte>, e: Entry): Result<JString>
  {
    if e.at + 13 > |f| then Err(Access)
    else
      var n := DecodeInt(f[e.at + 9..e.at + 13]);
      if n < 0 then Err(NegativeSize)
      else if e.at + 13 + n > |f| then Err(Access)
      else Ok(KeyText(f[e.at + 13..e.at + 13 + n]))
  }

  /**
   * The error a loop raises where a walk stopped; own is that loop's own
   * exception for a foreign byte, and for a terminator where it needed more.
   */
  function StopError(s: Stop, own: Error): Error
  {
    match s
    case End(_) => own
    case Truncated => Access
    case Backward => BackwardLink
    case BadTag(_) => own
  }

  /** A key found in an object chain: the slot, where its value starts and the value's length. */
  datatype Hit = Hit(index: nat, valueAt: nat, valueLen: int)

  /** Live slot j holds a readable key other than key. */
  predicate OtherKey(f: seq<byte>, e: Entry, key: JString)
  {
    e.live ==> SlotKey(f, e).Ok? && SlotKey(f, e).value != key
  }

  /**
   * goToKey over the slots of an object chain, from slot i on: the first live
   * slot whose key is key, or None when the chain ends without one.
   */
  function FindKey(f: seq<byte>, c: Chain, key: JString, i: nat): Result<Option<Hit>>
    requires i <= |c.entries|
    decreases |c.entries| - i
  {
    if i == |c.entries| then
      if c.stop.End? then Ok(None) else Err(StopError(c.stop, IllegalState))
    else if !c.entries[i].live then FindKey(f, c, key, i + 1)
    else
      match SlotKey(f, c.entries[i])
      case Err(e) => Err(e)
      case Ok(k) =>
        if k == key then Ok(Some(Hit(i, c.entries[i].at + 13 + |k|, c.entries[i].len - |k| - 4)))
        else FindKey(f, c, key, i + 1)
  }

  /**
   * goToKey finds the first live slot from i on whose key is key, having
   * read every live key before it; it finds nothing exactly when the chain
   * ends on its terminator with no such slot.
   */
  lemma {:induction false} FindKeySpec(f: seq<byte>, c: Chain, key: JString, i: nat)
    requires i <= |c.entries|
    ensures var r := FindKey(f, c, key, i);
      r.Ok? && r.value.Some? ==>
      var h := r.value.value;
      i <= h.index < |c.entries| && c.entries[h.index].live && SlotKey(f, c.entries[h.index]) == Ok(key)
      && h.valueAt == c.entries[h.index].at + 13 + |key| && h.valueLen == c.entries[h.index].len - |key| - 4
      && forall j :: i <= j < h.index ==> OtherKey(f, c.entries[j], key)
    ensures FindKey(f, c, key, i) == Ok(None) <==>
      c.stop.End? && forall j :: i <= j < |c.entries| ==> OtherKey(f, c.entries[j], key)
    decreases |c.entries| - i
  {
    if i < |c.entries| {
      FindKeySpec(f, c, key, i + 1);
    }
  }

  /** goToKey's outcome from slot position at on, with the slots in done already passed. */
  function FindFrom(f: seq<byte>, done: seq<Entry>, at: nat, key: JString): Result<Option<Hit>>
  {
    FindKey(f, Glue(done, Walk(f, at, true)), key, |done|)
  }

  /** Where goToKey stops without reading further: past the end, on the terminator or on a foreign byte. */
  lemma FindAtStop(f: seq<byte>, done: seq<Entry>, at: nat, key: JString)
    requires at >= |f| || (f[at] != HAS_TAIL && f[at] != DELETED && f[at] != NOT_DELETED)
    ensures FindFrom(f, done, at, key)
      == if at >= |f| then Err(Access) else if f[at] == HAS_NOT_TAIL then Ok(None) else Err(IllegalState)
  {
  }

  /** At a tail link goToKey reads the offset and goes on there, if it can. */
  lemma FindAtTail(f: seq<byte>, done: seq<Entry>, at: nat, key: JString)
    requires at < |f| && f[at] == HAS_TAIL
    ensures at + 9 > |f| ==> FindFrom(f, done, at, key) == Err(Access)
    ensures at + 9 <= |f| ==>
      var n := DecodeLong(f[at + 1..at + 9]);
      FindFrom(f, done, at, key) == if n < at + 9 then Err(BackwardLink) else FindFrom(f, done, n, key)
  {
  }

  /** At a slot goToKey reads the length; a removed slot it steps over. */
  lemma FindAtSlot(f: seq<byte>, done: seq<Entry>, at: nat, key: JString)
    requires at < |f| && (f[at] == DELETED || f[at] == NOT_DELETED)
    ensures at + 9 > |f| ==> FindFrom(f, done, at, key) == Err(Access)
    ensures at + 9 <= |f| && f[at] == DELETED ==>
      var n := DecodeLong(f[at + 1..at + 9]);
      FindFrom(f, done, at, key)
      == if n < 0 then Err(BackwardLink) else FindFrom(f, done + [Entry(at, false, n)], at + 9 + n, key)
  {
    if at + 9 <= |f| && f[at] == DELETED {
      var n := DecodeLong(f[at + 1..at + 9]);
      var e := Entry(at, false, n);
      if n >= 0 {
        WalkAtSlot(f, at, true, done);
        var g := Glue(done + [e], Walk(f, at + 9 + n, true));
        assert g.entries[|done|] == e;
      } else {
        var g := Chain(done + [e], Backward);
        assert Glue(done, Walk(f, at, true)) == g;
        assert FindKey(f, g, key, |done|) == FindKey(f, g, key, |done| + 1);
      }
    }
  }

  /** At a live slot goToKey reads the key: the slot is the hit, or the search goes on past it. */
  lemma FindAtLive(f: seq<byte>, done: seq<Entry>, at: nat, key: JString)
    requires at + 9 <= |f| && f[at] == NOT_DELETED
    ensures var n := DecodeLong(f[at + 1..at + 9]);
      var e := Entry(at, true, n);
      FindFrom(f, done, at, key)
      == match SlotKey(f, e)
         case Err(x) => Err(x)
         case Ok(k) =>
           if k == key then Ok(Some(Hit(|done|, at + 13 + |k|, n - |k| - 4)))
           else if n < 0 then Err(BackwardLink)
           else FindFrom(f, done + [e], at + 9 + n, key)
  {
    var n := DecodeLong(f[at + 1..at + 9]);
    var e := Entry(at, true, n);
    var g := if n >= 0 then Glue(done + [e], Walk(f, at + 9 + n, true)) else Chain(done + [e], Backward);
    if n >= 0 {
      WalkAtSlot(f, at, true, done);
    } else {
      assert Glue(done, Walk(f, at, true)) == g;
      assert FindKey(f, g, key, |done| + 1) == Err(BackwardLink);
    }
    assert g.entries[|done|] == e;
    FindKeyLive(f, g, key, |done|);
  }

  /** goToKey at a live slot: its key decides between a hit and going on to the next slot. */
  lemma FindKeyLive(f: seq<byte>, c: Chain, key: JString, i: nat)
    requires i < |c.entries| && c.entries[i].live
    ensures FindKey(f, c, key, i)
      == match SlotKey(f, c.entries[i])
         case Err(x) => Err(x)
         case Ok(k) => if k == key then Ok(Some(Hit(i, c.entries[i].at + 13 + |k|, c.entries[i].len - |k| - 4)))
                       else FindKey(f, c, key, i + 1)
  {
  }

  // ---------------------------------------------------------------- live slots

  function LiveCount(es: seq<Entry>): (n: nat)
    ensures n <= |es|
  {
    if es == [] then 0 else (if es[0].live then 1 else 0) + LiveCount(es[1..])
  }

  lemma {:induction false} LiveCountAppend(a: seq<Entry>, b: seq<Entry>)
    ensures LiveCount(a + b) == LiveCount(a) + LiveCount(b)
  {
    if a != [] {
      assert (a + b)[0] == a[0];
      assert (a + b)[1..] == a[1..] + b;
      LiveCountAppend(a[1..], b);
    } else {
      assert a + b == b;
    }
  }

  /** The live slots in visiting order: the members iterate hands to its processor. */
  function LiveEntries(es: seq<Entry>): seq<Entry>
  {
    if es == [] then []
    else if es[0].live then [es[0]] + LiveEntries(es[1..])
    else LiveEntries(es[1..])
  }

  /** The members are the live slots, as many as LiveCount counts, each one of the walk's slots. */
  lemma {:induction false} LiveEntriesLive(es: seq<Entry>)
    ensures |LiveEntries(es)| == LiveCount(es)
    ensures forall k :: 0 <= k < |LiveEntries(es)| ==> LiveEntries(es)[k].live && LiveEntries(es)[k] in es
  {
    if es != [] {
      var r, rest := LiveEntries(es), LiveEntries(es[1..]);
      LiveEntriesLive(es[1..]);
      assert forall x :: x in es[1..] ==> x in es;
      if es[0].live {
        assert forall k :: 1 <= k < |r| ==> r[k] == rest[k - 1];
      }
    }
  }

  lemma {:induction false} LiveEntriesAppend(a: seq<Entry>, b: seq<Entry>)
    ensures LiveEntries(a + b) == LiveEntries(a) + LiveEntries(b)
  {
    if a != [] {
      assert (a + b)[0] == a[0];
      assert (a + b)[1..] == a[1..] + b;
      LiveEntriesAppend(a[1..], b);
    } else {
      assert a + b == b;
    }
  }

  /** Every live slot is a member. */
  lemma {:induction false} LiveEntriesHas(es: seq<Entry>, e: Entry)
    requires e in es && e.live
    ensures e in LiveEntries(es)
  {
    if es[0] != e {
      assert e in es[1..];
      LiveEntriesHas(es[1..], e);
    }
  }

  /** A chain of dead slots has no member. */
  lemma {:induction false} LiveEntriesNone(es: seq<Entry>)
    requires forall k :: 0 <= k < |es| ==> !es[k].live
    ensures LiveEntries(es) == []
  {
    if es != [] {
      assert forall k :: 0 <= k < |es[1..]| ==> es[1..][k] == es[k + 1];
      LiveEntriesNone(es[1..]);
    }
  }

  // ---------------------------------------------------------------- what the other loops compute

  /** What iterate hands to its processor: the live slots in visiting order, and the fault that ended the walk, if any. */
  datatype Scan = Scan(members: seq<Entry>, fault: Option<Error>)

  /** iterate over a walked chain; a foreign tag byte is a DBFormatException. */
  function ChainScan(c: Chain): Scan
  {
    Scan(LiveEntries(c.entries), if c.stop.End? then None else Some(StopError(c.stop, Format)))
  }

  /** The members already handed over, then the rest of a scan. */
  function Then(members: seq<Entry>, s: Scan): Scan
  {
    Scan(members + s.members, s.fault)
  }

  /** The slot as a member, if it is live. */
  function Live(e: Entry): seq<Entry>
  {
    if e.live then [e] else []
  }

  /** iterate at a slot: the slot is a member if live, then the scan goes on past its payload. */
  lemma ScanAtSlot(f: seq<byte>, at: nat, members: seq<Entry>)
    requires at + 9 <= |f| && (f[at] == DELETED || f[at] == NOT_DELETED)
    ensures var n := DecodeLong(f[at + 1..at + 9]);
      var e := Entry(at, f[at] == NOT_DELETED, n);
      Then(members, ChainScan(Walk(f, at, true)))
      == if n < 0 then Scan(members + Live(e), Some(BackwardLink))
         else Then(members + Live(e), ChainScan(Walk(f, at + 9 + n, true)))
  {
    var n := DecodeLong(f[at + 1..at + 9]);
    var e := Entry(at, f[at] == NOT_DELETED, n);
    var w := Walk(f, at, true);
    WalkAtSlotCases(f, at, true);
    if n >= 0 {
      var rest := Walk(f, at + 9 + n, true);
      assert w == Cons(e, rest);
      ScanCons(members, e, rest);
    } else {
      assert w == Chain([e], Backward);
      LiveEntriesCons(e, []);
      AppendNothing([e]);
      AppendNothing(Live(e));
      assert ChainScan(w) == Scan(Live(e), Some(BackwardLink));
    }
  }

  lemma ScanCons(members: seq<Entry>, e: Entry, c: Chain)
    ensures Then(members, ChainScan(Cons(e, c))) == Then(members + Live(e), ChainScan(c))
  {
    LiveEntriesCons(e, c.entries);
    Assoc(members, Live(e), LiveEntries(c.entries));
  }

  lemma LiveEntriesCons(e: Entry, es: seq<Entry>)
    ensures LiveEntries([e] + es) == Live(e) + LiveEntries(es)
  {
    assert ([e] + es)[1..] == es;
  }

  /**
   * seekToRawPosition over the slots of a walk: the live member numbered n
   * from 0.  Running out of slots at the terminator is a DBFormatException
   * ("reached end of data base").
   */
  function NthSlot(es: seq<Entry>, stop: Stop, n: nat): Result<Entry>
  {
    if es == [] then Err(StopError(stop, Format))
    else if es[0].live then
      if n == 0 then Ok(es[0]) else NthSlot(es[1..], stop, n - 1)
    else NthSlot(es[1..], stop, n)
  }

  /** The member numbered n is the n-th live slot; with fewer live slots the walk's own fault is raised. */
  lemma {:induction false} NthSlotLive(es: seq<Entry>, stop: Stop, n: nat)
    ensures NthSlot(es, stop, n).Ok? <==> n < |LiveEntries(es)|
    ensures NthSlot(es, stop, n).Ok? ==> NthSlot(es, stop, n).value == LiveEntries(es)[n]
    ensures NthSlot(es, stop, n).Err? ==> NthSlot(es, stop, n).error == StopError(stop, Format)
  {
    if es != [] {
      if es[0].live {
        if n > 0 {
          NthSlotLive(es[1..], stop, n - 1);
        }
      } else {
        NthSlotLive(es[1..], stop, n);
      }
    }
  }

  /** A walk's stepping over a slot: the slot, then the walk past its payload, or a backward link. */
  lemma WalkAtSlotCases(f: seq<byte>, at: nat, followTails: bool)
    requires at + 9 <= |f| && (f[at] == DELETED || f[at] == NOT_DELETED)
    ensures var n := DecodeLong(f[at + 1..at + 9]);
      var e := Entry(at, f[at] == NOT_DELETED, n);
      Walk(f, at, followTails) == if n < 0 then Chain([e], Backward) else Cons(e, Walk(f, at + 9 + n, followTails))
  {
  }

  /** Where seekToEnd leaves the pointer for the walk from at: just after the terminator, or why it cannot get there. */
  function EndFrom(f: seq<byte>, at: nat): Result<nat>
  {
    var stop := Walk(f, at, true).stop;
    if stop.End? then Ok(stop.at + 1) else Err(StopError(stop, Format))
  }

  /** seekToEnd where it reads no further: past the end, on the terminator, or on a foreign byte. */
  lemma EndAtStop(f: seq<byte>, at: nat)
    requires at >= |f| || (f[at] != HAS_TAIL && f[at] != DELETED && f[at] != NOT_DELETED)
    ensures EndFrom(f, at) == if at >= |f| then Err(Access) else if f[at] == HAS_NOT_TAIL then Ok(at + 1) else Err(Format)
  {
  }

  /** seekToEnd at a slot cut off by the end of the file. */
  lemma EndAtShortSlot(f: seq<byte>, at: nat)
    requires at < |f| < at + 9 && (f[at] == DELETED || f[at] == NOT_DELETED)
    ensures EndFrom(f, at) == Err(Access)
  {
    assert Walk(f, at, true) == Chain([], Truncated);
  }

  /** seekToEnd steps over every slot, live or not. */
  lemma EndAtSlot(f: seq<byte>, at: nat)
    requires at + 9 <= |f| && (f[at] == DELETED || f[at] == NOT_DELETED)
    ensures var len := DecodeLong(f[at + 1..at + 9]);
      EndFrom(f, at) == if len < 0 then Err(BackwardLink) else EndFrom(f, at + 9 + len)
  {
    WalkAtSlotCases(f, at, true);
  }

  /** The live member numbered n of the walk from at. */
  function NthFrom(f: seq<byte>, at: nat, n: nat): Result<Entry>
  {
    NthSlot(Walk(f, at, true).entries, Walk(f, at, true).stop, n)
  }

  /** seekToRawPosition at a slot cut off by the end of the file. */
  lemma NthAtShortSlot(f: seq<byte>, at: nat, n: nat)
    requires at < |f| < at + 9 && (f[at] == DELETED || f[at] == NOT_DELETED)
    ensures NthFrom(f, at, n) == Err(Access)
  {
    assert Walk(f, at, true) == Chain([], Truncated);
  }

  /** seekToRawPosition at a live slot when it is the member sought. */
  lemma NthHit(f: seq<byte>, at: nat)
    requires at + 9 <= |f| && f[at] == NOT_DELETED
    ensures NthFrom(f, at, 0) == Ok(Entry(at, true, DecodeLong(f[at + 1..at + 9])))
  {
    WalkAtSlotCases(f, at, true);
  }

  /** seekToRawPosition past a slot that is not the one sought, once its length has been read. */
  lemma NthPassed(f: seq<byte>, at: nat, n: nat, len: int)
    requires at + 9 <= |f| && (f[at] == DELETED || f[at] == NOT_DELETED)
    requires len == DecodeLong(f[at + 1..at + 9]) && !(f[at] == NOT_DELETED && n == 0)
    ensures NthFrom(f, at, n)
      == if len < 0 then Err(BackwardLink) else NthFrom(f, at + 9 + len, if f[at] == NOT_DELETED then n - 1 else n)
  {
    var e := Entry(at, f[at] == NOT_DELETED, len);
    WalkAtSlotCases(f, at, true);
    if len >= 0 {
      var rest := Walk(f, at + 9 + len, true);
      assert ([e] + rest.entries)[1..] == rest.entries;
    } else {
      assert [e][1..] == [];
      assert NthSlot([], Backward, if e.live then n - 1 else n) == Err(BackwardLink);
    }
  }

  /**
   * removeNestedObject over an object chain: the first live slot whose
   * payload reaches past target (the slot that holds target), None when the
   * chain ends without one.
   */
  function Covering(es: seq<Entry>, stop: Stop, target: int): Result<Option<Entry>>
  {
    if es == [] then
      if stop.End? then Ok(None) else Err(StopError(stop, IllegalState))
    else if es[0].live && es[0].at + 9 + es[0].len > target then Ok(Some(es[0]))
    else Covering(es[1..], stop, target)
  }

  /**
   * The slot found is a live one whose payload reaches past target; nothing
   * is found exactly when the chain ends on its terminator and no live
   * payload reaches that far.
   */
  lemma {:induction false} CoveringSpec(es: seq<Entry>, stop: Stop, target: int)
    ensures var r := Covering(es, stop, target);
      r.Ok? && r.value.Some? ==> r.value.value in es && r.value.value.live && r.value.value.at + 9 + r.value.value.len > target
    ensures Covering(es, stop, target) == Ok(None)
      <==> stop.End? && forall k :: 0 <= k < |es| && es[k].live ==> es[k].at + 9 + es[k].len <= target
  {
    if es != [] && !(es[0].live && es[0].at + 9 + es[0].len > target) {
      CoveringSpec(es[1..], stop, target);
      assert forall k :: 1 <= k < |es| ==> es[k] == es[1..][k - 1];
    }
  }

  /** removeNestedObject at a slot: this slot holds target, or the search goes on past it. */
  lemma CoveringAtSlot(f: seq<byte>, at: nat, target: int)
    requires at + 9 <= |f| && (f[at] == DELETED || f[at] == NOT_DELETED)
    ensures var n := DecodeLong(f[at + 1..at + 9]);
      var e := Entry(at, f[at] == NOT_DELETED, n);
      var w := Walk(f, at, true);
      Covering(w.entries, w.stop, target)
      == if e.live && at + 9 + n > target then Ok(Some(e))
         else if n < 0 then Err(BackwardLink)
         else Covering(Walk(f, at + 9 + n, true).entries, Walk(f, at + 9 + n, true).stop, target)
  {
    var n := DecodeLong(f[at + 1..at + 9]);
    var e := Entry(at, f[at] == NOT_DELETED, n);
    if n >= 0 {
      var rest := Walk(f, at + 9 + n, true);
      assert Walk(f, at, true).entries == [e] + rest.entries;
      assert ([e] + rest.entries)[1..] == rest.entries;
    } else {
      assert Walk(f, at, true) == Chain([e], Backward);
      assert [e][1..] == [];
    }
  }
}
