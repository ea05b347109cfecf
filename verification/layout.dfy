/**
 * The byte-level effect of the engine's updates on the file (YashoDB.java:
 * open, insert / insertAll, remove, setObjectKeyValue and the two count
 * updates), stated as functions of the old contents, and what each does to
 * the walks of Chains.  The methods of Store are proved to leave exactly
 * these contents behind.
 */
module Layout {
  import opened Bytes
  import opened Results
  import opened Chains
  import opened Sequences
  import opened FileAccess
  import opened Encoding
  import opened Walker

  // ---------------------------------------------------------------- open

  /** What open writes into an empty file: `C`, a zero count, `t`, a zero offset. */
  function Header(): seq<byte>
  {
    [COLLECTION] + EncodeLong(0) + Terminator()
  }

  /** readLong at `at`: the count a collection keeps at its start. */
  function StoredCount(d: seq<byte>, at: nat): Result<int>
  {
    if at + 8 > |d| then Err(Access) else Ok(DecodeLong(d[at..at + 8]))
  }

  /**
   * The header is an empty root collection: 18 bytes, a count of 0, no
   * member, and the end of its chain right after the `t` at offset 9.
   */
  lemma HeaderIsEmptyRoot()
    ensures |Header()| == 18
    ensures StoredCount(Header(), 1) == Ok(0)
    ensures ScanFrom(Header(), 9) == Scan([], None)
    ensures EndFrom(Header(), 9) == Ok(10)
  {
    var h := Header();
    assert h[1..9] == EncodeLong(0);
    LongRoundTrip(0);
    assert h[9] == HAS_NOT_TAIL;
    WalkAtStop(h, 9, true);
    EndAtStop(h, 9);
  }

  // ---------------------------------------------------------------- counts

  /** incrementCount(delta) / decrementCount(-delta): the count at `at` read, moved by delta as a Java long, written back. */
  function Recounted(d: seq<byte>, at: nat, delta: int): seq<byte>
    requires at + 8 <= |d|
  {
    Patch(d, at, EncodeLong(WrapLong(DecodeLong(d[at..at + 8]) + delta)))
  }

  /** After a count update the count reads as the old one moved by delta, and nothing else changed. */
  lemma RecountedCount(d: seq<byte>, at: nat, delta: int)
    requires at + 8 <= |d|
    ensures var g := Recounted(d, at, delta);
      |g| == |d| && StoredCount(g, at) == Ok(WrapLong(DecodeLong(d[at..at + 8]) + delta))
      && forall i :: 0 <= i < |d| && !(at <= i < at + 8) ==> g[i] == d[i]
  {
    var w := EncodeLong(WrapLong(DecodeLong(d[at..at + 8]) + delta));
    var g := Recounted(d, at, delta);
    PatchIndex(d, at, w);
    assert g[at..at + 8] == w;
    LongRoundTrip(WrapLong(DecodeLong(d[at..at + 8]) + delta));
  }

  // ---------------------------------------------------------------- removal

  /** Whether some slot of es sits at offset i. */
  predicate AtSome(es: seq<Entry>, i: int)
  {
    exists k :: 0 <= k < |es| && es[k].at == i
  }

  /** remove(): `R` written over the liveness byte of each slot of es, in turn. */
  function Tombstoned(d: seq<byte>, es: seq<Entry>): seq<byte>
    decreases |es|
  {
    if es == [] then d else Tombstoned(Patch(d, es[0].at, [DELETED]), es[1..])
  }

  /**
   * Tombstoning slots that lie inside the file keeps its length, puts `R`
   * at each of their offsets, and leaves every other byte alone.
   */
  lemma {:induction false} TombstonedBytes(d: seq<byte>, es: seq<Entry>)
    requires forall k :: 0 <= k < |es| ==> es[k].at < |d|
    ensures |Tombstoned(d, es)| == |d|
    ensures forall i :: 0 <= i < |d| ==> Tombstoned(d, es)[i] == if AtSome(es, i) then DELETED else d[i]
    decreases |es|
  {
    if es != [] {
      var g := Patch(d, es[0].at, [DELETED]);
      PatchIndex(d, es[0].at, [DELETED]);
      assert |g| == |d|;
      assert forall k :: 0 <= k < |es[1..]| ==> es[1..][k].at < |g| by {
        assert forall k :: 0 <= k < |es[1..]| ==> es[1..][k] == es[k + 1];
      }
      TombstonedBytes(g, es[1..]);
      forall i | 0 <= i < |d|
        ensures Tombstoned(d, es)[i] == if AtSome(es, i) then DELETED else d[i]
      {
        if AtSome(es[1..], i) {
          var k :| 0 <= k < |es[1..]| && es[1..][k].at == i;
          assert es[k + 1].at == i;
        } else if i == es[0].at {
          assert AtSome(es, i);
        } else if AtSome(es, i) {
          var k :| 0 <= k < |es| && es[k].at == i;
          assert k != 0 && es[1..][k - 1].at == i;
        }
      }
    }
  }

  /** The slots of es with their liveness as g now holds it. */
  function Relived(g: seq<byte>, es: seq<Entry>): seq<Entry>
  {
    seq(|es|, k requires 0 <= k < |es| => Entry(es[k].at, es[k].at < |g| && g[es[k].at] == NOT_DELETED, es[k].len))
  }

  /** Reading liveness from g commutes with putting a slot in front of a walk. */
  lemma RelivedCons(g: seq<byte>, e: Entry, rest: Chain, relived: Chain)
    requires relived == Chain(Relived(g, rest.entries), rest.stop)
    ensures Cons(Entry(e.at, e.at < |g| && g[e.at] == NOT_DELETED, e.len), relived) == Chain(Relived(g, Cons(e, rest).entries), rest.stop)
  {
    var es := rest.entries;
    var a, b := Relived(g, [e] + es), [Entry(e.at, e.at < |g| && g[e.at] == NOT_DELETED, e.len)] + Relived(g, es);
    assert forall k :: 1 <= k < |a| ==> ([e] + es)[k] == es[k - 1];
    assert forall k :: 0 <= k < |a| ==> a[k] == b[k];
  }

  /** g is d with `R` written, from p on, over the liveness bytes of some of the slots es. */
  predicate Retagged(d: seq<byte>, g: seq<byte>, p: nat, es: seq<Entry>)
  {
    |g| == |d| && forall i :: p <= i < |d| && g[i] != d[i] ==> g[i] == DELETED && AtSome(es, i)
  }

  /**
   * Writing `R` over liveness bytes of slots a walk visits changes no step
   * of the walk: it visits the same slots with the same lengths and stops
   * the same way, only reading each slot's liveness from the new bytes.
   */
  lemma {:induction false} RetaggedWalk(d: seq<byte>, g: seq<byte>, p: nat, followTails: bool)
    requires Retagged(d, g, p, Walk(d, p, followTails).entries)
    ensures Walk(g, p, followTails) == Chain(Relived(g, Walk(d, p, followTails).entries), Walk(d, p, followTails).stop)
    decreases |d| - p, 1
  {
    var w := Walk(d, p, followTails);
    if p < |d| && d[p] == HAS_TAIL && !followTails {
      RetaggedSkip(d, g, p, w);
      RetaggedWalk(d, g, p + 1, false);
    } else if p >= |d| || (d[p] != HAS_TAIL && d[p] != DELETED && d[p] != NOT_DELETED) || p + 9 > |d| {
      RetaggedStop(d, g, p, followTails, w);
    } else if d[p] == HAS_TAIL {
      var n := DecodeLong(d[p + 1..p + 9]);
      RetaggedLink(d, g, p, n, w);
      if n >= p + 9 {
        RetaggedWalk(d, g, n, true);
      }
    } else {
      RetaggedAtSlot(d, g, p, followTails);
    }
  }

  /** RetaggedWalk at a slot: the slot itself, then the rest of the walk past it. */
  lemma {:induction false} RetaggedAtSlot(d: seq<byte>, g: seq<byte>, p: nat, followTails: bool)
    requires Retagged(d, g, p, Walk(d, p, followTails).entries)
    requires p + 9 <= |d| && (d[p] == DELETED || d[p] == NOT_DELETED)
    ensures Walk(g, p, followTails) == Chain(Relived(g, Walk(d, p, followTails).entries), Walk(d, p, followTails).stop)
    decreases |d| - p, 0
  {
    var n := DecodeLong(d[p + 1..p + 9]);
    var rest := RetaggedSlot(d, g, p, followTails, n, Walk(d, p, followTails));
    if n >= 0 {
      RetaggedWalk(d, g, p + 9 + n, followTails);
      RelivedCons(g, Entry(p, d[p] == NOT_DELETED, n), rest, Walk(g, p + 9 + n, followTails));
    }
  }

  /** Where the walk stops at once, or finds a slot header cut short, the new bytes stop it the same way. */
  lemma RetaggedStop(d: seq<byte>, g: seq<byte>, p: nat, followTails: bool, w: Chain)
    requires w == Walk(d, p, followTails) && Retagged(d, g, p, w.entries)
    requires p < |d| ==> d[p] != HAS_TAIL || followTails
    requires p >= |d| || (d[p] != HAS_TAIL && d[p] != DELETED && d[p] != NOT_DELETED) || p + 9 > |d|
    ensures w.entries == [] && Walk(g, p, followTails) == Chain([], w.stop)
  {
    if p < |d| {
      assert g[p] == d[p];
    }
  }

  /** A `T` stepped over without following it is left as it was. */
  lemma RetaggedSkip(d: seq<byte>, g: seq<byte>, p: nat, w: Chain)
    requires w == Walk(d, p, false) && Retagged(d, g, p, w.entries)
    requires p < |d| && d[p] == HAS_TAIL
    ensures w == Walk(d, p + 1, false)
    ensures Walk(g, p, false) == Walk(g, p + 1, false)
    ensures Retagged(d, g, p + 1, w.entries)
  {
    WalkSlots(d, p + 1, false);
    assert g[p] == d[p];
  }

  /** A tail link that is followed is left as it was, offset and all. */
  lemma RetaggedLink(d: seq<byte>, g: seq<byte>, p: nat, n: int, w: Chain)
    requires w == Walk(d, p, true) && Retagged(d, g, p, w.entries)
    requires p + 9 <= |d| && d[p] == HAS_TAIL && n == DecodeLong(d[p + 1..p + 9])
    ensures w == if n < p + 9 then Chain([], Backward) else Walk(d, n, true)
    ensures Walk(g, p, true) == if n < p + 9 then Chain([], Backward) else Walk(g, n, true)
    ensures n >= p + 9 ==> Retagged(d, g, n, w.entries)
  {
    if n >= p + 9 {
      WalkSlots(d, n, true);
    }
    assert g[p] == d[p];
    assert g[p + 1..p + 9] == d[p + 1..p + 9];
  }

  /**
   * At a slot only the liveness byte may have changed; its length, and so
   * the next step, are the same.  rest is the walk past the slot.
   */
  lemma RetaggedSlot(d: seq<byte>, g: seq<byte>, p: nat, followTails: bool, n: int, w: Chain) returns (rest: Chain)
    requires w == Walk(d, p, followTails) && Retagged(d, g, p, w.entries)
    requires p + 9 <= |d| && (d[p] == DELETED || d[p] == NOT_DELETED) && n == DecodeLong(d[p + 1..p + 9])
    ensures n < 0 ==> (w == Chain([Entry(p, d[p] == NOT_DELETED, n)], Backward)
      && Walk(g, p, followTails) == Chain([Entry(p, g[p] == NOT_DELETED, n)], Backward))
    ensures n >= 0 ==> (rest == Walk(d, p + 9 + n, followTails) && w == Cons(Entry(p, d[p] == NOT_DELETED, n), rest)
      && Walk(g, p, followTails) == Cons(Entry(p, g[p] == NOT_DELETED, n), Walk(g, p + 9 + n, followTails))
      && Retagged(d, g, p + 9 + n, rest.entries))
  {
    RetaggedSlotHeader(d, g, p, followTails, n, w);
    WalkAtSlotCases(g, p, followTails);
    rest := w;
    if n >= 0 {
      var q := p + 9 + n;
      rest := Walk(d, q, followTails);
      WalkAtSlotCases(d, p, followTails);
      assert w.entries == [w.entries[0]] + rest.entries;
      forall i | q <= i < |d| && g[i] != d[i]
        ensures AtSome(rest.entries, i)
      {
        var k :| 0 <= k < |w.entries| && w.entries[k].at == i;
        assert k != 0 && rest.entries[k - 1].at == i;
      }
    }
  }

  /** The length field of a slot the walk visits is no slot's liveness byte, so it is unchanged. */
  lemma RetaggedSlotHeader(d: seq<byte>, g: seq<byte>, p: nat, followTails: bool, n: int, w: Chain)
    requires w == Walk(d, p, followTails) && Retagged(d, g, p, w.entries)
    requires p + 9 <= |d| && (d[p] == DELETED || d[p] == NOT_DELETED) && n == DecodeLong(d[p + 1..p + 9])
    ensures g[p + 1..p + 9] == d[p + 1..p + 9]
  {
    WalkAtSlotCases(d, p, followTails);
    if n >= 0 {
      var rest := Walk(d, p + 9 + n, followTails).entries;
      WalkAtsFrom(d, p + 9 + n, followTails);
      assert forall k :: 0 < k < |w.entries| ==> w.entries[k] == rest[k - 1];
    }
    forall i | p + 1 <= i < p + 9
      ensures g[i] == d[i]
    {
      assert !AtSome(w.entries, i);
    }
  }

  /**
   * `R` over the liveness byte of every member a walk finds, and no other
   * change from p on: the walk visits the same slots with the same lengths,
   * all of them dead now, and stops the same way.
   */
  lemma TombstonedWalk(d: seq<byte>, g: seq<byte>, p: nat, followTails: bool)
    requires |g| == |d|
    requires forall i :: p <= i < |d| ==>
      g[i] == if AtSome(LiveEntries(Walk(d, p, followTails).entries), i) then DELETED else d[i]
    ensures var w := Walk(d, p, followTails);
      && |Walk(g, p, followTails).entries| == |w.entries| && Walk(g, p, followTails).stop == w.stop
      && (forall k :: 0 <= k < |w.entries| ==> Walk(g, p, followTails).entries[k] == w.entries[k].(live := false))
      && LiveEntries(Walk(g, p, followTails).entries) == []
  {
    var w := Walk(d, p, followTails);
    var ms := LiveEntries(w.entries);
    WalkSlots(d, p, followTails);
    LiveEntriesLive(w.entries);
    forall i | p <= i < |d| && g[i] != d[i]
      ensures g[i] == DELETED && AtSome(w.entries, i)
    {
      var k :| 0 <= k < |ms| && ms[k].at == i;
      assert ms[k] in w.entries;
    }
    RetaggedWalk(d, g, p, followTails);
    var rw := Relived(g, w.entries);
    forall k | 0 <= k < |w.entries|
      ensures rw[k] == w.entries[k].(live := false)
    {
      var e := w.entries[k];
      assert SlotIn(d, e);
      if e.live {
        LiveEntriesHas(w.entries, e);
        var m :| 0 <= m < |ms| && ms[m] == e;
        assert AtSome(ms, e.at);
      }
    }
    LiveEntriesNone(rw);
  }

  /** `R` over the liveness byte of one slot a walk visits: the walk sees that slot dead and the rest as before. */
  lemma KilledWalk(d: seq<byte>, p: nat, followTails: bool, h: nat)
    requires h < |Walk(d, p, followTails).entries|
    ensures var w := Walk(d, p, followTails);
      Walk(Patch(d, w.entries[h].at, [DELETED]), p, followTails) == Chain(w.entries[h := w.entries[h].(live := false)], w.stop)
  {
    var w := Walk(d, p, followTails);
    var e := w.entries[h];
    var g := Patch(d, e.at, [DELETED]);
    WalkSlots(d, p, followTails);
    WalkAscending(d, p, followTails);
    PatchIndex(d, e.at, [DELETED]);
    assert AtSome(w.entries, e.at);
    RetaggedWalk(d, g, p, followTails);
    var dead := w.entries[h := e.(live := false)];
    forall k | 0 <= k < |w.entries|
      ensures Relived(g, w.entries)[k] == dead[k]
    {
      assert SlotIn(d, w.entries[k]);
    }
  }

  // ---------------------------------------------------------------- appending

  /** Live slots holding bodies, back to back: what insertAll's loop of writeObject leaves. */
  function Slots(bodies: seq<seq<byte>>): (r: seq<byte>)
    ensures bodies == [] ==> r == []
  {
    if bodies == [] then [] else Slot(bodies[0]) + Slots(bodies[1..])
  }

  /** The slots of Slots(bodies) laid out from p on. */
  function SlotEntries(p: nat, bodies: seq<seq<byte>>): seq<Entry>
    decreases |bodies|
  {
    if bodies == [] then [] else [Entry(p, true, |bodies[0]|)] + SlotEntries(p + 9 + |bodies[0]|, bodies[1..])
  }

  /** Writing one more slot after Slots(bodies) gives Slots(bodies + [b]). */
  lemma {:induction false} SlotsSnoc(bodies: seq<seq<byte>>, b: seq<byte>)
    ensures Slots(bodies + [b]) == Slots(bodies) + Slot(b)
  {
    if bodies == [] {
      assert bodies + [b] == [b];
      assert [b][1..] == [];
    } else {
      ConsSnoc(bodies, b);
      assert (bodies + [b])[1..] == bodies[1..] + [b];
      SlotsSnoc(bodies[1..], b);
      Assoc(Slot(bodies[0]), Slots(bodies[1..]), Slot(b));
    }
  }

  /** Every slot Slots writes is live. */
  lemma {:induction false} SlotEntriesLive(p: nat, bodies: seq<seq<byte>>)
    ensures LiveEntries(SlotEntries(p, bodies)) == SlotEntries(p, bodies)
    decreases |bodies|
  {
    if bodies != [] {
      var e := Entry(p, true, |bodies[0]|);
      var rest := SlotEntries(p + 9 + |bodies[0]|, bodies[1..]);
      SlotEntriesLive(p + 9 + |bodies[0]|, bodies[1..]);
      LiveEntriesCons(e, rest);
    }
  }

  /**
   * insert / insertAll / setObjectKeyValue after seekToEnd found the
   * terminator at t: `T` over it, the file's length as the link, the
   * segment written at that old end.
   */
  function Appended(d: seq<byte>, t: nat, segment: seq<byte>): seq<byte>
  {
    Patch(Patch(d, t, [HAS_TAIL] + EncodeLong(|d|)), |d|, segment)
  }

  /** The bytes of Appended when the terminator lies whole inside the file: three regions, each stated. */
  lemma AppendedBytes(d: seq<byte>, t: nat, segment: seq<byte>)
    requires t + 9 <= |d|
    ensures var g := Appended(d, t, segment);
      |g| == |d| + |segment| && g[..|d|] == Patch(d, t, [HAS_TAIL] + EncodeLong(|d|)) && g[|d|..] == segment
  {
    var link := Patch(d, t, [HAS_TAIL] + EncodeLong(|d|));
    assert |link| == |d|;
    PatchAtEnd(link, segment);
  }

  /** A slice of a concatenation starting at a piece boundary. */
  lemma SliceTail(g: seq<byte>, p: nat, a: seq<byte>, b: seq<byte>)
    requires p + |a| + |b| <= |g| && g[p..p + |a| + |b|] == a + b
    ensures g[p..p + |a|] == a && g[p + |a|..p + |a| + |b|] == b
  {
    assert g[p..p + |a|] == (a + b)[..|a|];
    assert g[p + |a|..p + |a| + |b|] == (a + b)[|a|..];
  }

  /** The liveness byte and the length field of a slot written at p. */
  lemma SlotHeader(g: seq<byte>, p: nat, b: seq<byte>)
    requires p + 9 + |b| <= |g| && g[p..p + 9 + |b|] == Slot(b)
    ensures g[p] == NOT_DELETED && g[p + 1..p + 9] == EncodeLong(|b|)
  {
    var s := Slot(b);
    assert s[0] == NOT_DELETED;
    assert s[1..9] == EncodeLong(|b|);
    assert forall i :: p <= i < p + 9 ==> g[i] == s[i - p];
    assert forall i :: 0 <= i < 8 ==> g[p + 1..p + 9][i] == s[1..9][i];
  }

  /**
   * A walk over slots written back to back and a terminator visits
   * exactly those slots, all live, each with its body's length.
   */
  lemma {:induction false} WalkSegment(g: seq<byte>, p: nat, bodies: seq<seq<byte>>, followTails: bool)
    requires |g| < TWO_63
    requires p + |Slots(bodies)| < |g| && g[p..p + |Slots(bodies)|] == Slots(bodies)
    requires g[p + |Slots(bodies)|] == HAS_NOT_TAIL
    ensures Walk(g, p, followTails) == Chain(SlotEntries(p, bodies), End(p + |Slots(bodies)|))
    decreases |bodies|
  {
    if bodies == [] {
      WalkAtStop(g, p, followTails);
    } else {
      SegmentRest(g, p, bodies);
      WalkSegment(g, p + 9 + |bodies[0]|, bodies[1..], followTails);
      SegmentHead(g, p, bodies, followTails);
    }
  }

  /** A chain made of the first slot of a segment and the chain of the rest is the chain of the whole segment. */
  lemma SegmentStep(p: nat, bodies: seq<seq<byte>>, whole: Chain, rest: Chain)
    requires bodies != []
    requires whole == Cons(Entry(p, true, |bodies[0]|), rest)
    requires rest == Chain(SlotEntries(p + 9 + |bodies[0]|, bodies[1..]), End(p + 9 + |bodies[0]| + |Slots(bodies[1..])|))
    ensures whole == Chain(SlotEntries(p, bodies), End(p + |Slots(bodies)|))
  {
  }

  /** A walk that follows tails, at a tail link pointing forward, goes on from where it points. */
  lemma WalkAtLink(f: seq<byte>, at: nat)
    requires at + 9 <= |f| && f[at] == HAS_TAIL && DecodeLong(f[at + 1..at + 9]) >= at + 9
    ensures Walk(f, at, true) == Walk(f, DecodeLong(f[at + 1..at + 9]), true)
  {
  }

  /** After the first slot of a segment, the rest of the segment and its terminator. */
  lemma SegmentRest(g: seq<byte>, p: nat, bodies: seq<seq<byte>>)
    requires bodies != []
    requires p + |Slots(bodies)| < |g| && g[p..p + |Slots(bodies)|] == Slots(bodies)
    requires g[p + |Slots(bodies)|] == HAS_NOT_TAIL
    ensures var q := p + 9 + |bodies[0]|;
      var rest := Slots(bodies[1..]);
      q + |rest| < |g| && g[q..q + |rest|] == rest && g[q + |rest|] == HAS_NOT_TAIL
  {
    SliceTail(g, p, Slot(bodies[0]), Slots(bodies[1..]));
  }

  /**
   * A walk at the first slot of a segment visits it, live and with its
   * body's length, and goes on past it into the rest of the segment.
   */
  lemma SegmentHead(g: seq<byte>, p: nat, bodies: seq<seq<byte>>, followTails: bool)
    requires bodies != [] && |g| < TWO_63
    requires p + |Slots(bodies)| < |g| && g[p..p + |Slots(bodies)|] == Slots(bodies)
    requires var q := p + 9 + |bodies[0]|;
      Walk(g, q, followTails) == Chain(SlotEntries(q, bodies[1..]), End(q + |Slots(bodies[1..])|))
    ensures Walk(g, p, followTails) == Chain(SlotEntries(p, bodies), End(p + |Slots(bodies)|))
  {
    SegmentHeader(g, p, bodies);
    WalkAtSlotCases(g, p, followTails);
    SegmentStep(p, bodies, Walk(g, p, followTails), Walk(g, p + 9 + |bodies[0]|, followTails));
  }

  /** The first slot of a segment is live and its length field holds its body's length. */
  lemma SegmentHeader(g: seq<byte>, p: nat, bodies: seq<seq<byte>>)
    requires bodies != [] && |bodies[0]| < TWO_63
    requires p + |Slots(bodies)| <= |g| && g[p..p + |Slots(bodies)|] == Slots(bodies)
    ensures p + 9 + |bodies[0]| <= |g|
    ensures g[p] == NOT_DELETED && DecodeLong(g[p + 1..p + 9]) == |bodies[0]|
  {
    var b := bodies[0];
    SliceTail(g, p, Slot(b), Slots(bodies[1..]));
    SlotHeader(g, p, b);
    LongRoundTrip(|b|);
  }

  /**
   * The file after appending a segment of slots to a chain whose walk
   * from c ended on the terminator at t (which lies whole inside the file)
   * agrees with the old file from c up to t.
   */
  lemma AppendedAgrees(d: seq<byte>, c: nat, t: nat, segment: seq<byte>, g: seq<byte>)
    requires c <= t && t + 9 <= |d| && g == Appended(d, t, segment)
    ensures Agree(d, g, c, t)
  {
    AppendedBytes(d, t, segment);
    PatchIndex(d, t, [HAS_TAIL] + EncodeLong(|d|));
    assert forall i :: c <= i < t ==> g[i] == g[..|d|][i];
  }

  /** Appending changes no byte of the old file but the old terminator. */
  lemma AppendedKeeps(d: seq<byte>, t: nat, segment: seq<byte>)
    requires t + 9 <= |d|
    ensures var g := Appended(d, t, segment);
      |d| <= |g| && forall i :: 0 <= i < |d| && !(t <= i < t + 9) ==> g[i] == d[i]
  {
    var g := Appended(d, t, segment);
    AppendedBytes(d, t, segment);
    PatchIndex(d, t, [HAS_TAIL] + EncodeLong(|d|));
    assert forall i :: 0 <= i < |d| ==> g[i] == g[..|d|][i];
  }

  /** In the appended file the old terminator is a tail link to the old end of the file. */
  lemma AppendedLink(d: seq<byte>, t: nat, segment: seq<byte>)
    requires t + 9 <= |d|
    ensures var g := Appended(d, t, segment);
      g[t] == HAS_TAIL && g[t + 1..t + 9] == EncodeLong(|d|)
  {
    var g := Appended(d, t, segment);
    var w := [HAS_TAIL] + EncodeLong(|d|);
    AppendedBytes(d, t, segment);
    PatchIndex(d, t, w);
    assert g[t + 1..t + 9] == g[..|d|][t + 1..t + 9];
    assert g[..|d|][t + 1..t + 9] == Patch(d, t, w)[t + 1..t + 9];
    assert Patch(d, t, w)[t + 1..t + 9] == w[1..];
  }

  /**
   * The chain after appending slots for bodies: the walk from c visits the
   * old slots, follows the new link, then visits the new slots and ends on
   * the new terminator.
   */
  lemma {:induction false} AppendedWalk(d: seq<byte>, c: nat, bodies: seq<seq<byte>>)
    requires Walk(d, c, true).stop.End?
    requires Walk(d, c, true).stop.at + 9 <= |d|
    requires |d| + |Slots(bodies)| + 9 < TWO_63
    ensures var t := Walk(d, c, true).stop.at;
      var g := Appended(d, t, Slots(bodies) + Terminator());
      Walk(g, c, true) == Chain(Walk(d, c, true).entries + SlotEntries(|d|, bodies), End(|d| + |Slots(bodies)|))
  {
    var t := Walk(d, c, true).stop.at;
    var seg := Slots(bodies) + Terminator();
    var g := Appended(d, t, seg);
    AppendedFrame(d, c, seg);
    AppendedTail(d, t, bodies);
  }

  /** In the appended file the walk from the old terminator follows the link and crosses the new slots. */
  lemma AppendedTail(d: seq<byte>, t: nat, bodies: seq<seq<byte>>)
    requires t + 9 <= |d| && |d| + |Slots(bodies)| + 9 < TWO_63
    ensures Walk(Appended(d, t, Slots(bodies) + Terminator()), t, true) == Chain(SlotEntries(|d|, bodies), End(|d| + |Slots(bodies)|))
  {
    AppendedShape(d, t, bodies);
    LinkedWalk(Appended(d, t, Slots(bodies) + Terminator()), t, |d|, bodies);
  }

  /** The bytes of the appended file that the walk after the old terminator reads. */
  lemma AppendedShape(d: seq<byte>, t: nat, bodies: seq<seq<byte>>)
    requires t + 9 <= |d| && |d| + |Slots(bodies)| + 9 < TWO_63
    ensures var g := Appended(d, t, Slots(bodies) + Terminator());
      var n := |Slots(bodies)|;
      |d| + n < |g| < TWO_63 && g[t] == HAS_TAIL && DecodeLong(g[t + 1..t + 9]) == |d|
      && g[|d|..|d| + n] == Slots(bodies) && g[|d| + n] == HAS_NOT_TAIL
  {
    var seg := Slots(bodies) + Terminator();
    var g := Appended(d, t, seg);
    var n := |Slots(bodies)|;
    AppendedLink(d, t, seg);
    LongRoundTrip(|d|);
    AppendedBytes(d, t, seg);
    assert g[|d|..|d| + n] == g[|d|..][..n];
    assert g[|d| + n] == g[|d|..][n];
  }

  /** Appending leaves the walk of the chain as it was up to the old terminator. */
  lemma AppendedFrame(d: seq<byte>, c: nat, seg: seq<byte>)
    requires Walk(d, c, true).stop.End? && Walk(d, c, true).stop.at + 9 <= |d|
    ensures var t := Walk(d, c, true).stop.at;
      var g := Appended(d, t, seg);
      Walk(g, c, true) == Chain(Walk(d, c, true).entries + Walk(g, t, true).entries, Walk(g, t, true).stop)
  {
    var t := Walk(d, c, true).stop.at;
    WalkEnd(d, c, true);
    AppendedAgrees(d, c, t, seg, Appended(d, t, seg));
    WalkFrame(d, Appended(d, t, seg), c, true);
  }

  /** A tail link at t to e, followed from e by slots for bodies and a terminator. */
  lemma LinkedWalk(g: seq<byte>, t: nat, e: nat, bodies: seq<seq<byte>>)
    requires t + 9 <= e && e + |Slots(bodies)| < |g| < TWO_63
    requires g[t] == HAS_TAIL && DecodeLong(g[t + 1..t + 9]) == e
    requires g[e..e + |Slots(bodies)|] == Slots(bodies) && g[e + |Slots(bodies)|] == HAS_NOT_TAIL
    ensures Walk(g, t, true) == Chain(SlotEntries(e, bodies), End(e + |Slots(bodies)|))
  {
    WalkAtLink(g, t);
    WalkSegment(g, e, bodies, true);
  }

  /**
   * insert / insertAll: the appended file with its count raised by the
   * number of new slots.
   */
  function Inserted(d: seq<byte>, start: nat, t: nat, bodies: seq<seq<byte>>): seq<byte>
    requires start + 8 <= t < |d|
  {
    Recounted(Appended(d, t, Slots(bodies) + Terminator()), start, |bodies|)
  }

  /** The count update after an append changes neither the walk of the chain nor any byte outside the count. */
  lemma {:induction false} InsertedWalk(d: seq<byte>, start: nat, bodies: seq<seq<byte>>)
    requires Walk(d, start + 8, true).stop.End?
    requires Walk(d, start + 8, true).stop.at + 9 <= |d|
    requires |d| + |Slots(bodies)| + 9 < TWO_63
    ensures var t := Walk(d, start + 8, true).stop.at;
      start + 8 <= t &&
      var a := Appended(d, t, Slots(bodies) + Terminator());
      Walk(Inserted(d, start, t, bodies), start + 8, true) == Walk(a, start + 8, true)
  {
    var c := start + 8;
    var t := Walk(d, c, true).stop.at;
    WalkEnd(d, c, true);
    var seg := Slots(bodies) + Terminator();
    var a := Appended(d, t, seg);
    var e := |d| + |Slots(bodies)|;
    AppendedBytes(d, t, seg);
    AppendedWalk(d, c, bodies);
    var g := Inserted(d, start, t, bodies);
    RecountedCount(a, start, |bodies|);
    assert a[e] == HAS_NOT_TAIL by {
      assert a[e] == a[|d|..][|Slots(bodies)|];
    }
    assert Agree(a, g, c, e);
    WalkFrame(a, g, c, true);
    AppendNothing(Walk(a, c, true).entries);
    WalkAtStop(g, e, true);
  }

  /** Inserting keeps the count's bytes until the count update, and the bytes Appended stated. */
  lemma InsertedBytes(d: seq<byte>, start: nat, t: nat, bodies: seq<seq<byte>>)
    requires start + 8 <= t && t + 9 <= |d|
    ensures var g := Inserted(d, start, t, bodies);
      StoredCount(g, start) == Ok(WrapLong(DecodeLong(d[start..start + 8]) + |bodies|))
      && |g| == |d| + |Slots(bodies)| + 9
      && g[t] == HAS_TAIL && g[t + 1..t + 9] == EncodeLong(|d|)
      && g[|d|..] == Slots(bodies) + Terminator()
      && forall i :: 0 <= i < |d| && !(start <= i < start + 8) && !(t <= i < t + 9) ==> g[i] == d[i]
  {
    var seg := Slots(bodies) + Terminator();
    var a := Appended(d, t, seg);
    var g := Inserted(d, start, t, bodies);
    AppendedBytes(d, t, seg);
    AppendedKeeps(d, t, seg);
    AppendedLink(d, t, seg);
    assert a[start..start + 8] == d[start..start + 8];
    RecountedCount(a, start, |bodies|);
    assert g[t + 1..t + 9] == a[t + 1..t + 9];
    assert g[|d|..] == a[|d|..];
  }

  /**
   * What insert and insertAll promise: when the collection's chain ended
   * cleanly, iterate afterwards yields the old members followed by the new
   * ones, in list order, and the count has risen by their number.  Only
   * the old terminator, the count and the bytes past the old end changed,
   * so every other chain in the file keeps its bytes.
   */
  lemma InsertedMembers(d: seq<byte>, start: nat, bodies: seq<seq<byte>>)
    requires ScanFrom(d, start + 8).fault.None?
    requires Walk(d, start + 8, true).stop.at + 9 <= |d|
    requires |d| + |Slots(bodies)| + 9 < TWO_63
    ensures var t := Walk(d, start + 8, true).stop.at;
      start + 8 <= t < |d| &&
      var g := Inserted(d, start, t, bodies);
      ScanFrom(g, start + 8) == Scan(ScanFrom(d, start + 8).members + SlotEntries(|d|, bodies), None)
      && StoredCount(g, start) == Ok(WrapLong(DecodeLong(d[start..start + 8]) + |bodies|))
      && |g| == |d| + |Slots(bodies)| + 9
      && g[t] == HAS_TAIL && g[t + 1..t + 9] == EncodeLong(|d|)
      && g[|d|..] == Slots(bodies) + Terminator()
      && forall i :: 0 <= i < |d| && !(start <= i < start + 8) && !(t <= i < t + 9) ==> g[i] == d[i]
  {
    var t := Walk(d, start + 8, true).stop.at;
    InsertedScan(d, start, bodies);
    InsertedBytes(d, start, t, bodies);
  }

  /** The scan half of InsertedMembers: the old members, then the new slots, and no fault. */
  lemma InsertedScan(d: seq<byte>, start: nat, bodies: seq<seq<byte>>)
    requires ScanFrom(d, start + 8).fault.None?
    requires Walk(d, start + 8, true).stop.at + 9 <= |d|
    requires |d| + |Slots(bodies)| + 9 < TWO_63
    ensures var t := Walk(d, start + 8, true).stop.at;
      start + 8 <= t < |d| &&
      ScanFrom(Inserted(d, start, t, bodies), start + 8) == Scan(ScanFrom(d, start + 8).members + SlotEntries(|d|, bodies), None)
  {
    var c := start + 8;
    WalkEnd(d, c, true);
    InsertedWalk(d, start, bodies);
    AppendedWalk(d, c, bodies);
    ScanOfLinked(Walk(d, c, true), |d|, bodies, |d| + |Slots(bodies)|);
  }

  /** Scanning a clean chain followed by new slots yields its members and then every new slot. */
  lemma ScanOfLinked(w: Chain, p: nat, bodies: seq<seq<byte>>, e: nat)
    requires w.stop.End?
    ensures ChainScan(Chain(w.entries + SlotEntries(p, bodies), End(e))) == Scan(ChainScan(w).members + SlotEntries(p, bodies), None)
  {
    LiveEntriesAppend(w.entries, SlotEntries(p, bodies));
    SlotEntriesLive(p, bodies);
  }
}
