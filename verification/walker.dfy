/**
 * The loops of YashoDB.java that follow a chain through the shared file
 * pointer.  Each reads the chain one tag byte at a time, exactly as the
 * source does, and is proved to do what the walk of Chains says: its loop
 * invariant is that the walk from where it started is the slots it has
 * passed followed by the walk from where it is.
 */
module Walker {
  import opened Bytes
  import opened Text
  import opened Results
  import opened Chains
  import opened Sequences
  import opened FileAccess

  /** readKey: keyLength bytes, each widened to a char as Java's (char) cast of a signed byte does. */
  method ReadKey(f: RandomAccess, keyLength: int) returns (r: Result<JString>)
    modifies f
    ensures f.data == old(f.data)
    ensures keyLength < 0 ==> r == Err(NegativeSize)
    ensures keyLength >= 0 ==> (r.Ok? <==> old(f.pos) + keyLength <= |f.data|)
    ensures r.Ok? ==> r.value == KeyText(f.data[old(f.pos)..old(f.pos) + keyLength]) && f.pos == old(f.pos) + keyLength
    ensures keyLength >= 0 && r.Err? ==> r.error == Access
  {
    if keyLength < 0 {
      return Err(NegativeSize);
    }
    var keyBytes :- f.ReadFully(keyLength);
    var keyChars: JString := [];
    var i := 0;
    while i < keyLength
      invariant 0 <= i <= keyLength
      invariant keyChars == KeyText(keyBytes[..i])
    {
      keyChars := keyChars + [KeyChar(keyBytes[i])];
      i := i + 1;
    }
    assert keyBytes[..i] == keyBytes;
    return Ok(keyChars);
  }

  /** What goToKey returns for a search result: the value's length, -1 when the key is absent. */
  function FoundLength(found: Result<Option<Hit>>): Result<int>
  {
    match found
    case Err(e) => Err(e)
    case Ok(None) => Ok(-1)
    case Ok(Some(h)) => Ok(h.valueLen)
  }

  /**
   * goToKey: from the pointer at an object chain, the first live slot whose
   * key is key.  On a hit the pointer is left at the value.
   */
  method GoToKey(f: RandomAccess, key: JString) returns (r: Result<int>)
    modifies f
    ensures f.data == old(f.data)
    ensures r == FoundLength(FindKey(f.data, Walk(f.data, old(f.pos), true), key, 0))
    ensures var found := FindKey(f.data, Walk(f.data, old(f.pos), true), key, 0);
      found.Ok? && found.value.Some? ==> f.pos == found.value.value.valueAt
  {
    ghost var d := f.data;
    ghost var goal := FindKey(d, Walk(d, f.pos, true), key, 0);
    ghost var done: seq<Entry> := [];
    assert Glue([], Walk(d, f.pos, true)) == Walk(d, f.pos, true);
    var c := f.ReadByte();
    if c.Err? {
      FindAtStop(d, done, f.pos, key);
      return Err(c.error);
    }
    r := GoToKeyFrom(f, key, d, c.value, done, goal);
  }

  /** The loop of goToKey, from just after the tag byte c. */
  method GoToKeyFrom(f: RandomAccess, key: JString, ghost d: seq<byte>, c: byte, ghost done: seq<Entry>,
                     ghost goal: Result<Option<Hit>>) returns (r: Result<int>)
    requires f.data == d && 1 <= f.pos <= |d| && d[f.pos - 1] == c
    requires goal == FindFrom(d, done, f.pos - 1, key)
    modifies f
    ensures f.data == d
    ensures r == FoundLength(goal)
    ensures goal.Ok? && goal.value.Some? ==> f.pos == goal.value.value.valueAt
  {
    var c := c;
    ghost var done := done;
    while c != HAS_NOT_TAIL
      invariant f.data == d && 1 <= f.pos <= |d| && d[f.pos - 1] == c
      invariant goal == FindFrom(d, done, f.pos - 1, key)
      decreases |d| - f.pos
    {
      var step;
      step, done := PassTag(f, key, d, c, done);
      if step.Err? {
        return Err(step.error);
      }
      if step.value.Some? {
        return Ok(step.value.value);
      }
      var next := f.ReadByte();
      if next.Err? {
        FindAtStop(d, done, f.pos, key);
        return Err(next.error);
      }
      c := next.value;
    }
    FindAtStop(d, done, f.pos - 1, key);
    return Ok(-1);
  }

  /**
   * One round of goToKey's loop, from just after the tag byte c: follow a
   * tail link, step over a removed slot, or read a live slot's key.  Some is
   * the value length of a hit; None leaves the pointer at the next tag.
   */
  method PassTag(f: RandomAccess, key: JString, ghost d: seq<byte>, c: byte, ghost done: seq<Entry>)
    returns (r: Result<Option<int>>, ghost done': seq<Entry>)
    requires f.data == d && 1 <= f.pos <= |d| && d[f.pos - 1] == c && c != HAS_NOT_TAIL
    modifies f
    ensures f.data == d
    ensures var goal := FindFrom(d, done, old(f.pos) - 1, key);
      match r
      case Err(e) => goal == Err(e)
      case Ok(Some(n)) => goal.Ok? && goal.value.Some? && goal.value.value.valueLen == n && f.pos == goal.value.value.valueAt
      case Ok(None) => old(f.pos) <= f.pos && goal == FindFrom(d, done', f.pos, key)
  {
    var at := f.pos - 1;
    done' := done;
    if c == HAS_TAIL {
      FindAtTail(d, done, at, key);
      var offset :- f.ReadLong();
      if offset < at + 9 {
        return Err(BackwardLink), done;
      }
      var _ := f.Seek(offset);
      return Ok(None), done;
    } else if c == DELETED {
      FindAtSlot(d, done, at, key);
      var length :- f.ReadLong();
      if length < 0 {
        return Err(BackwardLink), done;
      }
      var _ := f.Seek(f.pos + length);
      return Ok(None), done + [Entry(at, false, length)];
    } else if c == NOT_DELETED {
      r, done' := PassLiveSlot(f, key, d, done);
    } else {
      FindAtStop(d, done, at, key);
      return Err(IllegalState), done;
    }
  }

  /** PassTag at a live slot: read its length and key; a hit leaves the pointer at the value. */
  method PassLiveSlot(f: RandomAccess, key: JString, ghost d: seq<byte>, ghost done: seq<Entry>)
    returns (r: Result<Option<int>>, ghost done': seq<Entry>)
    requires f.data == d && 1 <= f.pos <= |d| && d[f.pos - 1] == NOT_DELETED
    modifies f
    ensures f.data == d
    ensures var goal := FindFrom(d, done, old(f.pos) - 1, key);
      match r
      case Err(e) => goal == Err(e)
      case Ok(Some(n)) => goal.Ok? && goal.value.Some? && goal.value.value.valueLen == n && f.pos == goal.value.value.valueAt
      case Ok(None) => old(f.pos) <= f.pos && goal == FindFrom(d, done', f.pos, key)
  {
    var at := f.pos - 1;
    done' := done;
    FindAtSlot(d, done, at, key);
    var keyValueLength :- f.ReadLong();
    FindAtLive(d, done, at, key);
    var keyLength :- f.ReadInt();
    var k :- ReadKey(f, keyLength);
    var valueLength := keyValueLength - keyLength - 4;
    if k == key {
      return Ok(Some(valueLength)), done;
    }
    if keyValueLength < 0 {
      return Err(BackwardLink), done;
    }
    var _ := f.Seek(f.pos + valueLength);
    return Ok(None), done + [Entry(at, true, keyValueLength)];
  }

  // ---------------------------------------------------------------- steps shared by the loops

  /** A tail link whose `T` was just read: readLong, then seek to the offset. */
  method FollowTail(f: RandomAccess, ghost d: seq<byte>) returns (r: Result<()>)
    requires f.data == d && 1 <= f.pos <= |d| && d[f.pos - 1] == HAS_TAIL
    modifies f
    ensures f.data == d
    ensures var w := Walk(d, old(f.pos) - 1, true);
      match r
      case Ok(_) => old(f.pos) + 8 <= f.pos && w == Walk(d, f.pos, true)
      case Err(e) => w.entries == [] && (w.stop.Truncated? || w.stop.Backward?) && e == StopError(w.stop, Format)
  {
    var at := f.pos - 1;
    var offset :- f.ReadLong();
    if offset < at + 9 {
      return Err(BackwardLink);
    }
    var _ := f.Seek(offset);
    return Ok(());
  }

  /** Where a loop stops on the byte at at without reading on: past the end, or a byte no chain holds. */
  lemma WalkAtStop(d: seq<byte>, at: nat, followTails: bool)
    requires at >= |d| || (d[at] != HAS_TAIL && d[at] != DELETED && d[at] != NOT_DELETED)
    ensures Walk(d, at, followTails)
      == if at >= |d| then Chain([], Truncated) else if d[at] == HAS_NOT_TAIL then Chain([], End(at)) else Chain([], BadTag(at))
  {
  }

  /** A slot whose length field runs past the end of the file ends the walk. */
  lemma WalkAtShortSlot(d: seq<byte>, at: nat, followTails: bool)
    requires at < |d| < at + 9 && (d[at] == DELETED || d[at] == NOT_DELETED)
    ensures Walk(d, at, followTails) == Chain([], Truncated)
  {
  }

  // ---------------------------------------------------------------- seekToEnd

  /**
   * seekToEnd for a view whose chain starts at start (after the 8-byte count
   * when the view is a collection): the pointer is left just past the `t`.
   */
  method SeekToEnd(f: RandomAccess, start: nat, isCollection: bool) returns (r: Result<()>)
    modifies f
    ensures f.data == old(f.data)
    ensures match EndFrom(f.data, if isCollection then start + 8 else start)
      case Ok(p) => r.Ok? && f.pos == p
      case Err(e) => r == Err(e)
  {
    ghost var d := f.data;
    ghost var p0 := if isCollection then start + 8 else start;
    ghost var goal := EndFrom(d, p0);
    var _ := f.Seek(start);
    if isCollection {
      var _ := f.SkipBytes(8);
    }
    var c := f.ReadByte();
    if c.Err? {
      EndAtStop(d, p0);
      return Err(c.error);
    }
    r := EndLoop(f, d, c.value);
  }

  /** The loop of seekToEnd, from just after the tag byte tag. */
  method EndLoop(f: RandomAccess, ghost d: seq<byte>, tag: byte) returns (r: Result<()>)
    requires f.data == d && 1 <= f.pos <= |d| && d[f.pos - 1] == tag
    modifies f
    ensures f.data == d
    ensures match EndFrom(d, old(f.pos) - 1)
      case Ok(p) => r.Ok? && f.pos == p
      case Err(e) => r == Err(e)
  {
    ghost var goal := EndFrom(d, f.pos - 1);
    var tag := tag;
    while tag != HAS_NOT_TAIL
      invariant f.data == d && 1 <= f.pos <= |d| && d[f.pos - 1] == tag
      invariant goal == EndFrom(d, f.pos - 1)
      decreases |d| - f.pos
    {
      var _ :- EndRound(f, d, tag);
      var next := f.ReadByte();
      if next.Err? {
        EndAtStop(d, f.pos);
        return Err(next.error);
      }
      tag := next.value;
    }
    EndAtStop(d, f.pos - 1);
    return Ok(());
  }

  /** One round of seekToEnd's loop, from just after the tag byte tag: on to the next tag. */
  method EndRound(f: RandomAccess, ghost d: seq<byte>, tag: byte) returns (r: Result<()>)
    requires f.data == d && 1 <= f.pos <= |d| && d[f.pos - 1] == tag && tag != HAS_NOT_TAIL
    modifies f
    ensures f.data == d
    ensures var goal := EndFrom(d, old(f.pos) - 1);
      match r
      case Ok(_) => old(f.pos) <= f.pos && goal == EndFrom(d, f.pos)
      case Err(e) => goal == Err(e)
  {
    var at := f.pos - 1;
    if tag == DELETED || tag == NOT_DELETED {
      if at + 9 > |d| {
        EndAtShortSlot(d, at);
      } else {
        EndAtSlot(d, at);
      }
      var length :- f.ReadLong();
      if length < 0 {
        return Err(BackwardLink);
      }
      var _ := f.Seek(f.pos + length);
      return Ok(());
    } else if tag == HAS_TAIL {
      r := FollowTail(f, d);
    } else {
      WalkAtStop(d, at, true);
      return Err(Format);
    }
  }

  // ---------------------------------------------------------------- seekToRawPosition

  /**
   * seekToRawPosition: the pointer just after the `r` of the member
   * numbered position (from 0) of the collection whose count is at start.
   * The source returns before reading that slot's length, so a slot cut off
   * by the end of the file is found here and fails at the caller's readLong.
   */
  method SeekToRawPosition(f: RandomAccess, start: nat, position: nat) returns (r: Result<()>)
    modifies f
    ensures f.data == old(f.data)
    ensures match NthFrom(f.data, start + 8, position)
      case Ok(e) => r.Ok? && f.pos == e.at + 1
      case Err(x) => r == Err(x) || (x == Access && r.Ok? && f.pos + 8 > |f.data|)
  {
    ghost var d := f.data;
    ghost var goal := NthFrom(d, start + 8, position);
    var _ := f.Seek(start + 8);
    var index := -1;
    while index <= position
      invariant f.data == d && -1 <= index < position
      invariant goal == NthFrom(d, f.pos, position - index - 1)
      decreases if f.pos <= |d| then |d| + 1 - f.pos else 0
    {
      var found;
      found, index := NthRound(f, d, position, index);
      if found.Err? {
        return Err(found.error);
      }
      if found.value {
        return Ok(());
      }
    }
  }

  /**
   * One round of seekToRawPosition's loop, index being one less than the
   * live slots passed: true when the member sought is the slot just read.
   */
  method NthRound(f: RandomAccess, ghost d: seq<byte>, position: nat, index: int) returns (r: Result<bool>, index': int)
    requires f.data == d && -1 <= index < position
    modifies f
    ensures f.data == d
    ensures var goal := NthFrom(d, old(f.pos), position - index - 1);
      match r
      case Ok(true) => index' == position && ((goal.Ok? && f.pos == goal.value.at + 1) || (goal == Err(Access) && f.pos + 8 > |d|))
      case Ok(false) => old(f.pos) < f.pos && old(f.pos) < |d| && index <= index' < position
                        && goal == NthFrom(d, f.pos, position - index' - 1)
      case Err(x) => goal == Err(x)
  {
    var at := f.pos;
    index' := index;
    var c := f.ReadByte();
    if c.Err? {
      WalkAtStop(d, at, true);
      return Err(Access), index;
    }
    if c.value == HAS_TAIL {
      var _ :- FollowTail(f, d);
      return Ok(false), index;
    } else if c.value == DELETED || c.value == NOT_DELETED {
      r, index' := NthPassSlot(f, d, c.value, position, index);
    } else {
      WalkAtStop(d, at, true);
      return Err(Format), index;
    }
  }

  /** NthRound at a slot whose tag was just read. */
  method NthPassSlot(f: RandomAccess, ghost d: seq<byte>, tag: byte, position: nat, index: int) returns (r: Result<bool>, index': int)
    requires f.data == d && -1 <= index < position
    requires 1 <= f.pos <= |d| && d[f.pos - 1] == tag && (tag == DELETED || tag == NOT_DELETED)
    modifies f
    ensures f.data == d
    ensures var goal := NthFrom(d, old(f.pos) - 1, position - index - 1);
      match r
      case Ok(true) => index' == position && ((goal.Ok? && f.pos == goal.value.at + 1) || (goal == Err(Access) && f.pos + 8 > |d|))
      case Ok(false) => old(f.pos) < f.pos && index <= index' < position
                        && goal == NthFrom(d, f.pos, position - index' - 1)
      case Err(x) => goal == Err(x)
  {
    var at := f.pos - 1;
    ghost var n := position - index - 1;
    index' := index;
    if tag == NOT_DELETED && index + 1 == position {
      if at + 9 > |d| {
        NthAtShortSlot(d, at, n);
      } else {
        NthHit(d, at);
      }
      return Ok(true), position;
    }
    if tag == NOT_DELETED {
      index' := index + 1;
    }
    var length := f.ReadLong();
    if length.Err? {
      NthAtShortSlot(d, at, n);
      return Err(Access), index';
    }
    NthPassed(d, at, n, length.value);
    if length.value < 0 {
      return Err(BackwardLink), index';
    }
    var _ := f.Seek(f.pos + length.value);
    return Ok(false), index';
  }

  // ---------------------------------------------------------------- iterate

  /** What iterate visits from the tag at at. */
  function ScanFrom(d: seq<byte>, at: nat): Scan
  {
    ChainScan(Walk(d, at, true))
  }

  /**
   * The walk of iterate over a collection whose count is at start: the
   * live slots it hands to the processor, and the fault that ends it early.
   */
  method ChainMembers(f: RandomAccess, start: nat) returns (s: Scan)
    modifies f
    ensures f.data == old(f.data)
    ensures s == ScanFrom(f.data, start + 8)
  {
    ghost var d := f.data;
    ghost var goal := ScanFrom(d, start + 8);
    var _ := f.Seek(start + 8);
    var members: seq<Entry> := [];
    var c := f.ReadByte();
    if c.Err? {
      WalkAtStop(d, start + 8, true);
      return Scan([], Some(Access));
    }
    var tag := c.value;
    while tag != HAS_NOT_TAIL
      invariant f.data == d && 1 <= f.pos <= |d| && d[f.pos - 1] == tag
      invariant goal == Then(members, ScanFrom(d, f.pos - 1))
      decreases |d| - f.pos
    {
      var fault;
      fault, members := ScanRound(f, d, tag, members);
      if fault.Some? {
        return Scan(members, fault);
      }
      var next := f.ReadByte();
      if next.Err? {
        ScanAtStop(d, f.pos, members);
        return Scan(members, Some(Access));
      }
      tag := next.value;
    }
    ScanAtStop(d, f.pos - 1, members);
    return Scan(members, None);
  }

  /** iterate where it reads no further: past the end, on the terminator, or on a foreign byte. */
  lemma ScanAtStop(d: seq<byte>, at: nat, members: seq<Entry>)
    requires at >= |d| || (d[at] != HAS_TAIL && d[at] != DELETED && d[at] != NOT_DELETED)
    ensures Then(members, ScanFrom(d, at))
      == if at >= |d| then Scan(members, Some(Access))
         else if d[at] == HAS_NOT_TAIL then Scan(members, None) else Scan(members, Some(Format))
  {
    WalkAtStop(d, at, true);
    AppendNothing(members);
  }

  /** One round of iterate's loop, from just after the tag byte tag: a live slot joins the members. */
  method ScanRound(f: RandomAccess, ghost d: seq<byte>, tag: byte, members: seq<Entry>)
    returns (fault: Option<Error>, members': seq<Entry>)
    requires f.data == d && 1 <= f.pos <= |d| && d[f.pos - 1] == tag && tag != HAS_NOT_TAIL
    modifies f
    ensures f.data == d
    ensures var goal := Then(members, ScanFrom(d, old(f.pos) - 1));
      match fault
      case None => old(f.pos) <= f.pos && goal == Then(members', ScanFrom(d, f.pos))
      case Some(_) => goal == Scan(members', fault)
  {
    var at := f.pos - 1;
    members' := members;
    if tag == NOT_DELETED || tag == DELETED {
      var length := f.ReadLong();
      if length.Err? {
        WalkAtShortSlot(d, at, true);
        return Some(Access), members;
      }
      ScanAtSlot(d, at, members);
      members' := members + Live(Entry(at, tag == NOT_DELETED, length.value));
      if length.value < 0 {
        return Some(BackwardLink), members';
      }
      var _ := f.Seek(f.pos + length.value);
      return None, members';
    } else if tag == HAS_TAIL {
      var step := FollowTail(f, d);
      if step.Err? {
        return Some(step.error), members;
      }
      return None, members;
    } else {
      WalkAtStop(d, at, true);
      return Some(Format), members;
    }
  }

  // ---------------------------------------------------------------- removeNestedObject

  /** What removeNestedObject's search finds from the tag at at. */
  function CoveringFrom(d: seq<byte>, at: nat, target: int): Result<Option<Entry>>
  {
    Covering(Walk(d, at, true).entries, Walk(d, at, true).stop, target)
  }

  /**
   * The loop of removeNestedObject over an object chain starting at start:
   * the live slot whose payload holds target.  The caller tombstones it.
   */
  method FindCovering(f: RandomAccess, start: nat, target: int) returns (r: Result<Option<Entry>>)
    modifies f
    ensures f.data == old(f.data)
    ensures r == CoveringFrom(f.data, start, target)
  {
    ghost var d := f.data;
    ghost var goal := CoveringFrom(d, start, target);
    var _ := f.Seek(start);
    var c := f.ReadByte();
    if c.Err? {
      WalkAtStop(d, start, true);
      return Err(Access);
    }
    var tag := c.value;
    while tag != HAS_NOT_TAIL
      invariant f.data == d && 1 <= f.pos <= |d| && d[f.pos - 1] == tag
      invariant goal == CoveringFrom(d, f.pos - 1, target)
      decreases |d| - f.pos
    {
      var found := CoveringRound(f, d, tag, target);
      if found.Err? || found.value.Some? {
        return found;
      }
      var next := f.ReadByte();
      if next.Err? {
        WalkAtStop(d, f.pos, true);
        return Err(Access);
      }
      tag := next.value;
    }
    WalkAtStop(d, f.pos - 1, true);
    return Ok(None);
  }

  /** One round of removeNestedObject's loop, from just after the tag byte tag. */
  method CoveringRound(f: RandomAccess, ghost d: seq<byte>, tag: byte, target: int) returns (r: Result<Option<Entry>>)
    requires f.data == d && 1 <= f.pos <= |d| && d[f.pos - 1] == tag && tag != HAS_NOT_TAIL
    modifies f
    ensures f.data == d
    ensures var goal := CoveringFrom(d, old(f.pos) - 1, target);
      if r == Ok(None) then old(f.pos) <= f.pos && goal == CoveringFrom(d, f.pos, target) else goal == r
  {
    var at := f.pos - 1;
    if tag == NOT_DELETED || tag == DELETED {
      var length := f.ReadLong();
      if length.Err? {
        WalkAtShortSlot(d, at, true);
        return Err(Access);
      }
      CoveringAtSlot(d, at, target);
      if tag == NOT_DELETED && f.pos + length.value > target {
        return Ok(Some(Entry(at, true, length.value)));
      }
      if length.value < 0 {
        return Err(BackwardLink);
      }
      var _ := f.Seek(f.pos + length.value);
      return Ok(None);
    } else if tag == HAS_TAIL {
      var step := FollowTail(f, d);
      if step.Err? {
        return Err(step.error);
      }
      return Ok(None);
    } else {
      WalkAtStop(d, at, true);
      return Err(IllegalState);
    }
  }
}
