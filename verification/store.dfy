/**
 * The YashoDB view (YashoDB.java): a node of the shared file -- the root
 * collection, a nested collection or object, or the collection seen
 * through the positions of a query -- and the operations that read and
 * update it through the shared file pointer.  Every update is proved to
 * leave exactly the contents Layout describes; the lemmas of Layout and
 * those beside each update say what those contents mean for the next walk.
 */
module Store {
  import opened Bytes
  import opened Text
  import opened Results
  import opened Values
  import opened Chains
  import opened Sequences
  import opened FileAccess
  import opened Encoding
  import opened Walker
  import opened Reader
  import opened Filters
  import opened Queries
  import opened Layout
  import opened Documents
  import opened Compaction

  // ---------------------------------------------------------------- iterate over a query

  /**
   * iterate over a query-backed view: each recorded position in turn, seek
   * there and read its byte; a position still holding `r` is a member with
   * the length that follows it.  A position outside the file ends the
   * scan with an access error.
   */
  function QueryScan(d: seq<byte>, ps: seq<int>): Scan
    decreases |ps|
  {
    if ps == [] then Scan([], None)
    else if ps[0] < 0 || ps[0] >= |d| then Scan([], Some(Access))
    else if d[ps[0]] != NOT_DELETED then QueryScan(d, ps[1..])
    else if ps[0] + 9 > |d| then Scan([], Some(Access))
    else Then([Entry(ps[0], true, DecodeLong(d[ps[0] + 1..ps[0] + 9]))], QueryScan(d, ps[1..]))
  }

  /** Each of ms is a live slot of d at one of the offsets ps. */
  predicate LiveSlotsAmong(d: seq<byte>, ps: seq<int>, ms: seq<Entry>)
  {
    forall k :: 0 <= k < |ms| ==> ms[k].live && ms[k].at in ps && SlotIn(d, ms[k])
  }

  /** Every member a query scan yields is a live slot of the file at one of the recorded positions. */
  lemma {:induction false} QueryScanSlots(d: seq<byte>, ps: seq<int>)
    ensures LiveSlotsAmong(d, ps, QueryScan(d, ps).members)
    decreases |ps|
  {
    if ps != [] && 0 <= ps[0] < |d| {
      QueryScanSlots(d, ps[1..]);
      var rest := QueryScan(d, ps[1..]).members;
      assert forall x :: x in ps[1..] ==> x in ps;
      assert LiveSlotsAmong(d, ps, rest);
      if d[ps[0]] == NOT_DELETED && ps[0] + 9 <= |d| {
        var e := Entry(ps[0], true, DecodeLong(d[ps[0] + 1..ps[0] + 9]));
        var ms := QueryScan(d, ps).members;
        assert ms == [e] + rest;
        assert forall k :: 1 <= k < |ms| ==> ms[k] == rest[k - 1];
      }
    }
  }

  /**
   * When every recorded position is still a live slot inside the file, the
   * query scan yields exactly those slots, in recording order, and ends
   * cleanly.
   */
  lemma {:induction false} QueryScanLive(d: seq<byte>, ps: seq<int>)
    requires forall i :: 0 <= i < |ps| ==> 0 <= ps[i] && ps[i] + 9 <= |d| && d[ps[i]] == NOT_DELETED
    ensures var s := QueryScan(d, ps);
      s.fault.None? && |s.members| == |ps|
      && forall i :: 0 <= i < |ps| ==> s.members[i].at == ps[i] && s.members[i].live && SlotIn(d, s.members[i])
    decreases |ps|
  {
    if ps != [] {
      assert forall i :: 0 <= i < |ps[1..]| ==> ps[1..][i] == ps[i + 1];
      QueryScanLive(d, ps[1..]);
      var rest := QueryScan(d, ps[1..]);
      var s := QueryScan(d, ps);
      assert s.members == [Entry(ps[0], true, DecodeLong(d[ps[0] + 1..ps[0] + 9]))] + rest.members;
      assert forall i :: 1 <= i < |ps| ==> s.members[i] == rest.members[i - 1];
    }
  }

  // ---------------------------------------------------------------- what the updates leave behind

  /** The bodies insertAll writes, one object node per list element. */
  function Bodies(objects: seq<seq<Field>>): (r: seq<seq<byte>>)
  {
    seq(|objects|, i requires 0 <= i < |objects| => EncodeValue(Obj(objects[i])))
  }

  /** Every object of the list can be written (no string in it is too long for writeUTF). */
  predicate AllWritable(objects: seq<seq<Field>>)
  {
    forall i :: 0 <= i < |objects| ==> Writable(Obj(objects[i]))
  }

  /**
   * What insert / insertAll leave in the file for the collection whose
   * count is at start: the chain's end as seekToEnd finds it, then the
   * objects appended and counted as Inserted says; a string too long for
   * writeUTF fails the call.
   */
  function Insertion(d: seq<byte>, start: nat, objects: seq<seq<Field>>): Result<seq<byte>>
  {
    var stop := Walk(d, start + 8, true).stop;
    if !stop.End? then Err(StopError(stop, Format))
    else if !AllWritable(objects) then Err(Access)
    else
      WalkEnd(d, start + 8, true);
      Ok(Inserted(d, start, stop.at, Bodies(objects)))
  }

  /** Insertion and seekToEnd, case by case on how the collection's walk stopped. */
  lemma InsertionCases(d: seq<byte>, start: nat, objects: seq<seq<Field>>)
    ensures var stop := Walk(d, start + 8, true).stop;
      !stop.End? ==> EndFrom(d, start + 8) == Err(StopError(stop, Format)) && Insertion(d, start, objects) == Err(StopError(stop, Format))
    ensures var stop := Walk(d, start + 8, true).stop;
      stop.End? ==> (start + 8 <= stop.at < |d| && EndFrom(d, start + 8) == Ok(stop.at + 1)
        && Insertion(d, start, objects) == if AllWritable(objects) then Ok(Inserted(d, start, stop.at, Bodies(objects))) else Err(Access))
  {
    WalkEnd(d, start + 8, true);
  }

  /**
   * goToKey and, on a hit, `R` over the liveness byte of the slot found:
   * whether a slot was tombstoned, and the file after.
   */
  function KeyDropped(d: seq<byte>, at: nat, key: JString): Result<(bool, seq<byte>)>
  {
    match FindKey(d, Walk(d, at, true), key, 0)
    case Err(e) => Err(e)
    case Ok(found) =>
      if found.None? || found.value.valueLen == -1 then Ok((false, d))
      else
        var p := found.value.valueAt - |key| - 13;
        if p < 0 then Err(Access) else Ok((true, Patch(d, p, [DELETED])))
  }

  /**
   * remove(key) that answers true tombstones the slot goToKey finds, the
   * first live slot holding key, and nothing else: the object's walk
   * visits the same slots, that one now dead and every other as it was.
   */
  lemma KeyDroppedSlot(d: seq<byte>, at: nat, key: JString)
    requires KeyDropped(d, at, key).Ok? && KeyDropped(d, at, key).value.0
    ensures var w := Walk(d, at, true);
      var r := FindKey(d, w, key, 0);
      r.Ok? && r.value.Some? && r.value.value.valueLen != -1
      && var h := r.value.value.index;
      var g := KeyDropped(d, at, key).value.1;
      h < |w.entries| && w.entries[h].live && SlotKey(d, w.entries[h]) == Ok(key)
      && (forall j :: 0 <= j < h ==> OtherKey(d, w.entries[j], key))
      && g == Patch(d, w.entries[h].at, [DELETED])
      && Walk(g, at, true) == Chain(w.entries[h := w.entries[h].(live := false)], w.stop)
  {
    var w := Walk(d, at, true);
    FindKeySpec(d, w, key, 0);
    KilledWalk(d, at, true, FindKey(d, w, key, 0).value.value.index);
  }

  /** The second half of setObjectKeyValue: a slot for key and x appended behind a new tail link. */
  function KeyAppended(d: seq<byte>, at: nat, key: JString, x: JavaObject): Result<seq<byte>>
  {
    var stop := Walk(d, at, true).stop;
    if !stop.End? then Err(StopError(stop, Format))
    else if !ObjectWritable(x) then Err(Access)
    else Ok(Appended(d, stop.at, KeyValueSlot(key, EncodeObject(x)) + Terminator()))
  }

  /**
   * setObjectKeyValue on the object whose chain starts at at: the old
   * slot of key (if any) tombstoned, then a slot holding key and x
   * appended.
   */
  function KeySet(d: seq<byte>, at: nat, key: JString, x: JavaObject): Result<seq<byte>>
  {
    match KeyDropped(d, at, key)
    case Err(e) => Err(e)
    case Ok((_, d1)) => KeyAppended(d1, at, key, x)
  }

  /**
   * set's processor at one member: an object payload gets key set to x;
   * any other payload is left alone.
   */
  function SetMember(d: seq<byte>, e: Entry, key: JString, x: JavaObject): Result<seq<byte>>
  {
    var q := e.at + 9;
    if q >= |d| then Err(Access)
    else if d[q] != OBJECT then Ok(d)
    else KeySet(d, q + 1, key, x)
  }

  /** set on a collection: SetMember for each visited member in turn, each on the file the previous one left. */
  function SetMembers(d: seq<byte>, ms: seq<Entry>, key: JString, x: JavaObject): Result<seq<byte>>
    decreases |ms|
  {
    if ms == [] then Ok(d)
    else
      match SetMember(d, ms[0], key, x)
      case Err(e) => Err(e)
      case Ok(g) => SetMembers(g, ms[1..], key, x)
  }

  /**
   * What a failed append of key's slot leaves in d: nothing written when
   * the chain has no terminator (seekToEnd throws first), otherwise the
   * tail link of Linked.
   */
  ghost predicate KeyAppendLeft(g: seq<byte>, d: seq<byte>, at: nat)
  {
    var stop := Walk(d, at, true).stop;
    if stop.End? then Linked(g, d, stop.at) else g == d
  }

  /** What a failed setObjectKeyValue leaves: the old slot of key tombstoned first, then KeyAppendLeft. */
  ghost predicate KeySetLeft(g: seq<byte>, d: seq<byte>, at: nat, key: JString)
  {
    match KeyDropped(d, at, key)
    case Err(_) => g == d
    case Ok((_, d1)) => KeyAppendLeft(g, d1, at)
  }

  /**
   * A set on an object that fails after goToKey has found key still
   * leaves the key's old slot tombstoned, so the old value is lost, and
   * the file no shorter than before.
   */
  lemma FailedSetDropped(g: seq<byte>, d: seq<byte>, at: nat, key: JString)
    requires KeySetLeft(g, d, at, key) && KeyDropped(d, at, key).Ok?
    ensures |d| <= |g|
    ensures KeyDropped(d, at, key).value.0 ==>
      var w := Walk(d, at, true);
      var r := FindKey(d, w, key, 0);
      r.Ok? && r.value.Some? && r.value.value.index < |w.entries|
      && w.entries[r.value.value.index].at < |g| && g[w.entries[r.value.value.index].at] == DELETED
  {
    var d1 := KeyDropped(d, at, key).value.1;
    var w1 := Walk(d1, at, true);
    if !KeyDropped(d, at, key).value.0 {
      assert d1 == d;
      return;
    }
    KeyDroppedSlot(d, at, key);
    var w := Walk(d, at, true);
    var h := FindKey(d, w, key, 0).value.value.index;
    var p := w.entries[h].at;
    WalkSlots(d, at, true);
    assert SlotIn(d, w.entries[h]);
    PatchIndex(d, p, [DELETED]);
    assert d1[p] == DELETED;
    if w1.stop.End? {
      WalkBefore(d1, at, true);
      assert w1.entries[h].at == p;
      var link := [HAS_TAIL] + EncodeLong(|d1|);
      PatchIndex(d1, w1.stop.at, link);
      assert g[..|d1|][p] == Patch(d1, w1.stop.at, link)[..|d1|][p];
    }
  }

  /** What a failed SetMember leaves: KeySetLeft on an object payload, the file untouched otherwise. */
  ghost predicate MemberSetLeft(g: seq<byte>, d: seq<byte>, e: Entry, key: JString)
  {
    var q := e.at + 9;
    if q < |d| && d[q] == OBJECT then KeySetLeft(g, d, q + 1, key) else g == d
  }

  /**
   * What a failed set on a collection leaves: the members before the
   * failing one already set, as SetMembers does them, then MemberSetLeft
   * at the failing one.
   */
  ghost predicate MembersSetLeft(g: seq<byte>, d: seq<byte>, ms: seq<Entry>, key: JString, x: JavaObject)
    decreases |ms|
  {
    ms != [] &&
    match SetMember(d, ms[0], key, x)
    case Err(_) => MemberSetLeft(g, d, ms[0], key)
    case Ok(d1) => MembersSetLeft(g, d1, ms[1..], key, x)
  }

  /** asYashAN's loop: readValue at each member's payload, put in order after acc. */
  function MemberValues(d: seq<byte>, ms: seq<Entry>, acc: seq<Value>): Result<seq<Value>>
    decreases |ms|
  {
    if ms == [] then Ok(acc)
    else
      var q := ms[0].at + 9;
      if q > |d| then Err(Access)
      else
        match ValueAt(d, q)
        case Err(e) => Err(e)
        case Ok(v) => MemberValues(d, ms[1..], acc + [v])
  }

  /** insertAll's loop: one live slot per object, in list order. */
  method WriteObjects(f: RandomAccess, objects: seq<seq<Field>>) returns (r: Result<()>)
    modifies f
    ensures r.Ok? <==> AllWritable(objects)
    ensures r.Ok? ==> Wrote(f, old(f.data), old(f.pos), Slots(Bodies(objects)))
    ensures r.Err? ==> r.error == Access && KeptBelow(f.data, old(f.data), old(f.pos))
  {
    ghost var d0, p0 := f.data, f.pos;
    ghost var bodies := Bodies(objects);
    PatchNothing(d0, p0);
    var i := 0;
    while i < |objects|
      invariant 0 <= i <= |objects|
      invariant forall j :: 0 <= j < i ==> Writable(Obj(objects[j]))
      invariant Wrote(f, d0, p0, Slots(bodies[..i]))
    {
      ghost var d1, p1 := f.data, f.pos;
      var w := WriteObject(f, objects[i]);
      if w.Err? {
        PatchKeeps(d0, p0, Slots(bodies[..i]));
        KeptThen(d0, d1, f.data, p0, p1);
        return Err(Access);
      }
      assert bodies[..i + 1] == bodies[..i] + [bodies[i]];
      SlotsSnoc(bodies[..i], bodies[i]);
      WroteNext(f, d0, p0, Slots(bodies[..i]), Slot(bodies[i]), Slots(bodies[..i + 1]), d1, p1);
      i := i + 1;
    }
    assert bodies[..i] == bodies;
    return Ok(());
  }

  /**
   * What a failed append leaves behind: up to the old end, the old file
   * with the terminator at t turned into a tail link to that end; past it,
   * whatever the writer got out before it failed (a segment with no
   * terminator).  The count is not raised.
   */
  ghost predicate Linked(g: seq<byte>, d: seq<byte>, t: nat)
  {
    |d| <= |g| && g[..|d|] == Patch(d, t, [HAS_TAIL] + EncodeLong(|d|))[..|d|]
  }

  lemma LinkedOfKept(g: seq<byte>, d: seq<byte>, t: nat, d1: seq<byte>)
    requires d1 == Patch(d, t, [HAS_TAIL] + EncodeLong(|d|)) && KeptBelow(g, d1, |d|)
    ensures Linked(g, d, t)
  {
    assert g[..|d|] == d1[..|d|];
  }

  /**
   * The old terminator at t becomes a tail link to the current end of the
   * file, and the pointer moves there, ready for the new segment.
   */
  method LinkTail(f: RandomAccess, t: nat)
    requires t < |f.data|
    modifies f
    ensures f.data == Patch(old(f.data), t, [HAS_TAIL] + EncodeLong(|old(f.data)|))
    ensures f.pos == |old(f.data)|
  {
    ghost var d := f.data;
    var _ := f.Seek(t);
    f.WriteByte(HAS_TAIL);
    var fileEnd := |f.data|;
    f.WriteLong(fileEnd);
    PatchThen(d, t, [HAS_TAIL], EncodeLong(|d|));
    var _ := f.Seek(fileEnd);
  }

  /**
   * The writing half of insertAll, once seekToEnd has found the terminator
   * at t: link, one slot per object, terminator.
   */
  method WriteSegment(f: RandomAccess, t: nat, objects: seq<seq<Field>>) returns (r: Result<()>)
    requires t < |f.data|
    modifies f
    ensures AllWritable(objects) ==> r == Ok(()) && f.data == Appended(old(f.data), t, Slots(Bodies(objects)) + Terminator())
    ensures !AllWritable(objects) ==> r == Err(Access) && Linked(f.data, old(f.data), t)
  {
    ghost var d := f.data;
    LinkTail(f, t);
    ghost var d1 := f.data;
    ghost var slots := Slots(Bodies(objects));
    var w := WriteObjects(f, objects);
    if w.Err? {
      LinkedOfKept(f.data, d, t, d1);
      return Err(Access);
    }
    ghost var d2, p2 := f.data, f.pos;
    WriteByteLong(f, HAS_NOT_TAIL, 0);
    WroteMore(f, d1, |d|, slots, Terminator(), d2, p2);
    return Ok(());
  }

  /** goToKey from at, then `R` over the slot found; the answer says whether there was one. */
  method DropKey(f: RandomAccess, at: nat, key: JString) returns (r: Result<bool>)
    modifies f
    ensures match KeyDropped(old(f.data), at, key)
      case Err(x) => r == Err(x) && f.data == old(f.data)
      case Ok((b, g)) => r == Ok(b) && f.data == g
  {
    var _ := f.Seek(at);
    var length :- GoToKey(f, key);
    if length == -1 {
      return Ok(false);
    }
    var moved := f.Seek(f.pos - |key| - 4 - 8 - 1);
    if moved.Err? {
      return Err(Access);
    }
    f.WriteByte(DELETED);
    return Ok(true);
  }

  /** The second half of setObjectKeyValue, on the object whose chain starts at at. */
  method AppendKeyValue(f: RandomAccess, at: nat, key: JString, x: JavaObject) returns (r: Result<()>)
    modifies f
    ensures match KeyAppended(old(f.data), at, key, x)
      case Ok(g) => r.Ok? && f.data == g
      case Err(e) => r == Err(e) && KeyAppendLeft(f.data, old(f.data), at)
    ensures var stop := Walk(old(f.data), at, true).stop;
      stop.End? && !ObjectWritable(x) ==> Linked(f.data, old(f.data), stop.at)
  {
    ghost var d := f.data;
    var ended := SeekToEnd(f, at, false);
    if ended.Err? {
      return Err(ended.error);
    }
    WalkEnd(d, at, true);
    assert f.pos - 1 == Walk(d, at, true).stop.at;
    r := WriteKeyValueSegment(f, f.pos - 1, key, x);
  }

  /**
   * The writing half of setObjectKeyValue, once seekToEnd has found the
   * terminator at t: link, slot, terminator.
   */
  method WriteKeyValueSegment(f: RandomAccess, t: nat, key: JString, x: JavaObject) returns (r: Result<()>)
    requires t < |f.data|
    modifies f
    ensures ObjectWritable(x) ==> r == Ok(()) && f.data == Appended(old(f.data), t, KeyValueSlot(key, EncodeObject(x)) + Terminator())
    ensures !ObjectWritable(x) ==> r == Err(Access) && Linked(f.data, old(f.data), t)
  {
    ghost var d := f.data;
    LinkTail(f, t);
    ghost var d1 := f.data;
    ghost var slot := KeyValueSlot(key, EncodeObject(x));
    var w := WriteKeyValue(f, key, x);
    if w.Err? {
      LinkedOfKept(f.data, d, t, d1);
      return Err(Access);
    }
    ghost var d2, p2 := f.data, f.pos;
    WriteByteLong(f, HAS_NOT_TAIL, 0);
    WroteMore(f, d1, |d|, slot, Terminator(), d2, p2);
    return Ok(());
  }

  /** One round of iterate over a query: the member at the first recorded position, if it is still live. */
  method ReadQueryMember(f: RandomAccess, position: int, ghost d: seq<byte>, ghost ps: seq<int>)
    returns (ok: bool, member: seq<Entry>)
    requires f.data == d && ps != [] && ps[0] == position
    modifies f
    ensures f.data == d
    ensures ok ==> QueryScan(d, ps) == Then(member, QueryScan(d, ps[1..]))
    ensures !ok ==> QueryScan(d, ps) == Scan([], Some(Access))
  {
    var moved := f.Seek(position);
    if moved.Err? {
      return false, [];
    }
    var c := f.ReadByte();
    if c.Err? {
      return false, [];
    }
    if c.value != NOT_DELETED {
      assert Then([], QueryScan(d, ps[1..])) == QueryScan(d, ps[1..]);
      return true, [];
    }
    var len := f.ReadLong();
    if len.Err? {
      return false, [];
    }
    return true, [Entry(position, true, len.value)];
  }

  /** What asYashAN's processor puts, member by member, or what stops it. */
  function MembersRead(d: seq<byte>, s: Scan): Result<seq<Value>>
  {
    match MemberValues(d, s.members, [])
    case Err(e) => Err(e)
    case Ok(items) => if s.fault.Some? then Err(s.fault.value) else Ok(items)
  }

  /** asYashAN's processor over the visited members: readValue at each payload, put into a. */
  method FillArray(f: RandomAccess, ghost d: seq<byte>, s: Scan, a: YashAN) returns (r: Result<()>)
    requires f.data == d && a.items == []
    modifies f, a
    ensures f.data == d
    ensures match MembersRead(d, s)
      case Err(e) => r == Err(e)
      case Ok(items) => r.Ok? && a.items == items
  {
    var i := 0;
    while i < |s.members|
      invariant 0 <= i <= |s.members|
      invariant f.data == d
      invariant MemberValues(d, s.members, []) == MemberValues(d, s.members[i..], a.items)
    {
      assert s.members[i..][0] == s.members[i] && s.members[i..][1..] == s.members[i + 1..];
      var q := s.members[i].at + 9;
      if q > |f.data| {
        return Err(Access);
      }
      var _ := f.Seek(q);
      var v := ReadValue(f, d);
      if v.Err? {
        return Err(v.error);
      }
      var _ := a.Put(Storable(v.value));
      i := i + 1;
    }
    assert s.members[i..] == [];
    if s.fault.Some? {
      return Err(s.fault.value);
    }
    return Ok(());
  }

  /** applyFilter's processor over the visited members: review each, collect the accepted offsets. */
  method FilterMembers(d: seq<byte>, s: Scan, flt: Filter) returns (r: Result<(seq<int>, Filter)>)
    ensures r == Run(d, s, flt, [])
  {
    var accepted: seq<int> := [];
    var g := flt;
    var i := 0;
    while i < |s.members|
      invariant 0 <= i <= |s.members|
      invariant Run(d, s, flt, []) == Run(d, Scan(s.members[i..], s.fault), g, accepted)
    {
      assert s.members[i..][0] == s.members[i] && s.members[i..][1..] == s.members[i + 1..];
      var e := s.members[i];
      var review := Review(d, e.at + 9, g);
      if review.Err? {
        return Err(review.error);
      }
      var (go, yes, h) := review.value;
      if !go {
        return Ok((accepted, h));
      }
      accepted := accepted + (if yes then [e.at] else []);
      g := h;
      i := i + 1;
    }
    if s.fault.Some? {
      return Err(s.fault.value);
    }
    return Ok((accepted, g));
  }

  /** remove()'s processor over the visited members: `R` over each liveness byte, in turn. */
  method TombstoneAll(f: RandomAccess, ms: seq<Entry>) returns (n: int)
    modifies f
    ensures f.data == Tombstoned(old(f.data), ms) && n == |ms|
  {
    ghost var d := f.data;
    n := 0;
    while n < |ms|
      invariant 0 <= n <= |ms|
      invariant Tombstoned(f.data, ms[n..]) == Tombstoned(d, ms)
    {
      assert ms[n..][0] == ms[n] && ms[n..][1..] == ms[n + 1..];
      var _ := f.Seek(ms[n].at);
      f.WriteByte(DELETED);
      n := n + 1;
    }
    assert ms[n..] == [];
  }

  /**
   * remove() on a collection whose count is at start, having visited s:
   * every visited member tombstoned, then the count lowered by their number.
   */
  function Cleared(d: seq<byte>, start: nat, s: Scan): (Result<int>, seq<byte>)
  {
    var g := Tombstoned(d, s.members);
    if s.fault.Some? then (Err(s.fault.value), g)
    else if start + 8 > |g| then (Err(Access), g)
    else (Ok(|s.members|), Recounted(g, start, -|s.members|))
  }

  /**
   * remove() on a collection whose chain ends on its terminator: every
   * member is removed and counted, and the count has dropped by the number
   * removed.
   */
  lemma RemovedCounted(d: seq<byte>, start: nat)
    requires start + 8 <= |d| && Walk(d, start + 8, true).stop.End?
    ensures var s := ScanFrom(d, start + 8);
      && Cleared(d, start, s).0 == Ok(|s.members|) && |s.members| == LiveCount(Walk(d, start + 8, true).entries)
      && StoredCount(Cleared(d, start, s).1, start) == Ok(WrapLong(DecodeLong(d[start..start + 8]) - |s.members|))
  {
    var ms := RemovedMembers(d, start);
    var g := ClearedBytes(d, start, ms);
  }

  /**
   * After remove() on a collection whose chain ends on its terminator the
   * walk still visits the same slots with the same lengths, all of them
   * dead, so the next iterate finds no member.
   */
  lemma RemovedAll(d: seq<byte>, start: nat)
    requires start + 8 <= |d| && Walk(d, start + 8, true).stop.End?
    ensures var w := Walk(d, start + 8, true);
      var g := Cleared(d, start, ScanFrom(d, start + 8)).1;
      && |Walk(g, start + 8, true).entries| == |w.entries| && Walk(g, start + 8, true).stop == w.stop
      && (forall k :: 0 <= k < |w.entries| ==> Walk(g, start + 8, true).entries[k] == w.entries[k].(live := false))
      && ScanFrom(g, start + 8) == Scan([], None)
  {
    var ms := RemovedMembers(d, start);
    var g := ClearedBytes(d, start, ms);
    TombstonedWalk(d, g, start + 8, true);
  }

  /** The members remove() tombstones: the live slots of the walk, each inside the file past the count. */
  lemma RemovedMembers(d: seq<byte>, start: nat) returns (ms: seq<Entry>)
    requires start + 8 <= |d| && Walk(d, start + 8, true).stop.End?
    ensures ms == LiveEntries(Walk(d, start + 8, true).entries) && ScanFrom(d, start + 8) == Scan(ms, None)
    ensures |ms| == LiveCount(Walk(d, start + 8, true).entries)
    ensures forall k :: 0 <= k < |ms| ==> start + 8 <= ms[k].at < |d|
  {
    var w := Walk(d, start + 8, true);
    ms := LiveEntries(w.entries);
    WalkSlots(d, start + 8, true);
    LiveEntriesLive(w.entries);
    assert forall k :: 0 <= k < |ms| ==> ms[k] in w.entries;
  }

  /** The bytes remove() leaves once the walk found the members ms: the new count, and `R` over each member's liveness byte. */
  lemma ClearedBytes(d: seq<byte>, start: nat, ms: seq<Entry>) returns (g: seq<byte>)
    requires start + 8 <= |d| && forall k :: 0 <= k < |ms| ==> start + 8 <= ms[k].at < |d|
    ensures Cleared(d, start, Scan(ms, None)) == (Ok(|ms|), g)
    ensures StoredCount(g, start) == Ok(WrapLong(DecodeLong(d[start..start + 8]) - |ms|))
    ensures |g| == |d| && forall i :: start + 8 <= i < |d| ==> g[i] == if AtSome(ms, i) then DELETED else d[i]
  {
    TombstonedBytes(d, ms);
    var t := Tombstoned(d, ms);
    assert d[start..start + 8] == t[start..start + 8] by {
      forall i | start <= i < start + 8
        ensures t[i] == d[i]
      {
        assert !AtSome(ms, i);
      }
    }
    RecountedCount(t, start, -|ms|);
    g := Recounted(t, start, -|ms|);
  }

  // ---------------------------------------------------------------- the view

  class YashoDB {
    /** mFileAccess: one file, shared by a view and every view taken from it. */
    const file: RandomAccess
    /** mParent */
    const parent: YashoDB?
    /** mQueryResult: the positions a committed selection accepted, or null. */
    const query: QueryResult?
    /** mType: the tag byte of the node. */
    const kind: byte
    /** mStartOffset: the offset just past the tag byte. */
    const start: nat
    /** mLength */
    var length: int

    /** The query's side file, which reading the query moves. */
    ghost function Side(): set<object>
      reads query
    {
      if query == null || query.side == null then {} else {query.side}
    }

    ghost predicate Valid()
      reads query, Side()
    {
      1 <= start && (query != null ==> query.Valid() && query.side != file)
    }

    /** new YashoDB(file): the root collection of a file, whose count sits at offset 1. */
    constructor (contents: seq<byte>)
      ensures fresh(file) && file.data == contents && file.pos == 0
      ensures parent == null && query == null && kind == COLLECTION && start == 1 && length == 0
      ensures Valid()
    {
      file := new RandomAccess(contents);
      parent := null;
      query := null;
      kind := COLLECTION;
      start := 1;
      length := 0;
    }

    /** The private YashoDB(parent, startOffset, length), given the tag byte it read at startOffset. */
    constructor Child(parent: YashoDB, kind: byte, startOffset: nat, length: int)
      ensures file == parent.file && this.parent == parent && query == null
      ensures this.kind == kind && start == startOffset + 1 && this.length == length - 1
      ensures Valid()
    {
      file := parent.file;
      this.parent := parent;
      query := null;
      this.kind := kind;
      start := startOffset + 1;
      this.length := length - 1;
    }

    /** YashoDB(parent, queryResult): the parent's node seen through the positions of a query. */
    constructor Selected(parent: YashoDB, query: QueryResult)
      requires query.Valid() && query.side != parent.file && 1 <= parent.start
      ensures file == parent.file && this.parent == parent && this.query == query
      ensures kind == parent.kind && start == parent.start && length == parent.length
      ensures Valid()
    {
      file := parent.file;
      this.parent := parent;
      this.query := query;
      kind := parent.kind;
      start := parent.start;
      length := parent.length;
    }

    /** This view is the node whose tag byte is at `at` of d, of the given length, taken from p. */
    ghost predicate IsNode(p: YashoDB, d: seq<byte>, at: int, len: int)
      reads this
    {
      0 <= at < |d| && file == p.file && parent == p && query == null
      && kind == d[at] && start == at + 1 && length == len - 1
    }

    /** new YashoDB(this, at, len): seek to at and read the node's tag byte. */
    method NodeAt(at: int, len: int) returns (r: Result<YashoDB>)
      modifies file
      ensures file.data == old(file.data)
      ensures r.Ok? <==> 0 <= at < |file.data|
      ensures r.Err? ==> r.error == Access
      ensures r.Ok? ==> fresh(r.value) && r.value.IsNode(this, file.data, at, len)
    {
      var moved := file.Seek(at);
      if moved.Err? {
        return Err(Access);
      }
      var c := file.ReadByte();
      if c.Err? {
        return Err(Access);
      }
      var node := new YashoDB.Child(this, c.value, at, len);
      return Ok(node);
    }

    // -------------------------------------------------------------- open

    /**
     * open: a file with no bytes gets the header of an empty root
     * collection (see HeaderIsEmptyRoot); a file with contents is left as
     * it is.  The new file handle starts at offset 0.
     */
    method Open()
      modifies this, file
      ensures file.data == if old(file.data) == [] then Header() else old(file.data)
      ensures file.pos == if old(file.data) == [] then start else 0
      ensures length == |file.data| - 1
    {
      var _ := file.Seek(0);
      if |file.data| == 0 {
        file.WriteByte(COLLECTION);
        PatchAtEnd([], [COLLECTION]);
        PatchAtEnd([COLLECTION], EncodeLong(0));
        file.WriteLong(0);
        PatchAtEnd([COLLECTION] + EncodeLong(0), [HAS_NOT_TAIL]);
        file.WriteByte(HAS_NOT_TAIL);
        PatchAtEnd([COLLECTION] + EncodeLong(0) + [HAS_NOT_TAIL], EncodeLong(0));
        file.WriteLong(0);
        assert file.data == Header();
        var _ := file.Seek(start);
      }
      length := |file.data| - 1;
    }

    // -------------------------------------------------------------- counting

    /** What getCount answers: a query's own count, or the long stored at the collection's start. */
    ghost function CountOf(d: seq<byte>): Result<int>
      reads query
    {
      if kind != COLLECTION then Err(Usage)
      else if query != null then Ok(|query.added|)
      else StoredCount(d, start)
    }

    /** getCount */
    method GetCount() returns (r: Result<int>)
      requires Valid()
      modifies file
      ensures Valid() && file.data == old(file.data)
      ensures r == CountOf(file.data)
    {
      if kind != COLLECTION {
        return Err(Usage);
      }
      if query != null {
        return Ok(query.Count());
      }
      var _ := file.Seek(start);
      r := file.ReadLong();
    }

    /** incrementCount: the stored count raised by size, as a Java long. */
    method IncrementCount(size: int) returns (r: Result<()>)
      modifies file
      ensures r.Ok? <==> start + 8 <= |old(file.data)|
      ensures r.Ok? ==> file.data == Recounted(old(file.data), start, size)
      ensures r.Err? ==> r.error == Access && file.data == old(file.data)
    {
      var _ := file.Seek(start);
      var count :- file.ReadLong();
      var _ := file.Seek(start);
      file.WriteLong(WrapLong(count + size));
      return Ok(());
    }

    /** decrementCount: the stored count lowered by size, as a Java long. */
    method DecrementCount(size: int) returns (r: Result<()>)
      modifies file
      ensures r.Ok? <==> start + 8 <= |old(file.data)|
      ensures r.Ok? ==> file.data == Recounted(old(file.data), start, -size)
      ensures r.Err? ==> r.error == Access && file.data == old(file.data)
    {
      var _ := file.Seek(start);
      var count :- file.ReadLong();
      var _ := file.Seek(start);
      file.WriteLong(WrapLong(count - size));
      return Ok(());
    }

    // -------------------------------------------------------------- iterate

    /** The members iterate hands to its processor, and the fault that ends it. */
    ghost function Visited(d: seq<byte>): Scan
      reads query
    {
      if query != null then QueryScan(d, query.added) else ScanFrom(d, start + 8)
    }

    /** iterate, with the processor's work left to the caller's loop over what it returns. */
    method Iterate() returns (s: Scan)
      requires Valid()
      modifies file, Side()
      ensures Valid() && file.data == old(file.data)
      ensures s == Visited(file.data)
    {
      if query == null {
        s := ChainMembers(file, start);
      } else {
        s := QueryMembers();
      }
    }

    /** iterate's loop over the positions of the query. */
    method QueryMembers() returns (s: Scan)
      requires Valid() && query != null
      modifies file, Side()
      ensures Valid() && file.data == old(file.data)
      ensures s == QueryScan(file.data, query.added)
    {
      ghost var d := file.data;
      ghost var side := query.side;
      ghost var ps := query.added;
      var n := query.RecordCount();
      var members: seq<Entry> := [];
      var i := 0;
      while i < n
        invariant 0 <= i <= n == |ps|
        invariant Valid() && file.data == d && query.side == side && query.added == ps
        invariant QueryScan(d, ps) == Then(members, QueryScan(d, ps[i..]))
      {
        var p := query.Get(i);
        var ok, member := ReadQueryMember(file, p.value, d, ps[i..]);
        if !ok {
          AppendNothing(members);
          return Scan(members, Some(Access));
        }
        assert ps[i..][1..] == ps[i + 1..];
        Assoc(members, member, QueryScan(d, ps[i + 1..]).members);
        members := members + member;
        i := i + 1;
      }
      assert ps[i..] == [];
      AppendNothing(members);
      return Scan(members, None);
    }

    // -------------------------------------------------------------- applyFilter

    /**
     * applyFilter: each member in turn is reviewed by the filter, and the
     * offset of its liveness byte accepted when the review says so, until
     * onNewMember says stop; the walk's fault comes last.
     */
    method ApplyFilter(flt: Filter) returns (r: Result<(seq<int>, Filter)>)
      requires Valid()
      modifies file, Side()
      ensures Valid() && file.data == old(file.data)
      ensures r == if kind != COLLECTION then Err(Usage) else Run(file.data, Visited(file.data), flt, [])
    {
      if kind != COLLECTION {
        return Err(Usage);
      }
      var s := Iterate();
      r := FilterMembers(file.data, s, flt);
    }

    // -------------------------------------------------------------- get

    /** The liveness byte's offset of member index, as get(index) finds it, or why it fails. */
    ghost function SlotOfMember(d: seq<byte>, index: int): Result<int>
      reads query
    {
      if index < 0 then Err(IllegalArgument)
      else
        match CountOf(d)
        case Err(x) => Err(x)
        case Ok(count) =>
          if index >= count then Err(IllegalArgument)
          else if query != null then Ok(query.added[index])
          else
            match NthFrom(d, start + 8, index)
            case Err(x) => Err(x)
            case Ok(e) => Ok(e.at)
    }

    /**
     * get(index): the member numbered index (the index-th live slot of the
     * chain, by NthSlotLive, or the index-th recorded position of a query)
     * as a view of its payload.
     */
    method GetAt(index: int) returns (r: Result<YashoDB>)
      requires Valid() && IsLong(index)
      modifies file, Side()
      ensures Valid() && file.data == old(file.data)
      ensures match SlotOfMember(file.data, index)
        case Err(x) => r == Err(x)
        case Ok(p) =>
          if p + 1 < 0 || p + 10 > |file.data| then r == Err(Access)
          else r.Ok? && fresh(r.value) && r.value.IsNode(this, file.data, p + 9, DecodeLong(file.data[p + 1..p + 9]))
    {
      var _ :- SeekToMember(index);
      var len := file.ReadLong();
      if len.Err? {
        return Err(Access);
      }
      r := NodeAt(file.pos, len.value);
    }

    /** get(index) up to seekToPosition: the pointer left on the member's length field. */
    method SeekToMember(index: int) returns (r: Result<()>)
      requires Valid() && IsLong(index)
      modifies file, Side()
      ensures Valid() && file.data == old(file.data)
      ensures match SlotOfMember(file.data, index)
        case Err(x) => r == Err(x) || (x == Access && r.Ok? && file.pos + 8 > |file.data|)
        case Ok(p) => if p + 1 < 0 then r == Err(Access) else r.Ok? && file.pos == p + 1
    {
      if index < 0 {
        return Err(IllegalArgument);
      }
      var count :- GetCount();
      if index >= count {
        return Err(IllegalArgument);
      }
      if query != null {
        var offset := query.Get(index);
        var moved := file.Seek(offset.value + 1);
        if moved.Err? {
          return Err(Access);
        }
      } else {
        var found := SeekToRawPosition(file, start, index);
        if found.Err? {
          return Err(found.error);
        }
      }
      return Ok(());
    }

    /**
     * get(key): the value of the first live slot with that key (FindKeySpec
     * says which) as a view, or None when the key is absent.
     */
    method GetKey(key: JString) returns (r: Result<Option<YashoDB>>)
      modifies file
      ensures file.data == old(file.data)
      ensures kind != OBJECT ==> r == Err(Usage)
      ensures kind == OBJECT ==> match FindKey(file.data, Walk(file.data, start, true), key, 0)
        case Err(x) => r == Err(x)
        case Ok(None) => r == Ok(None)
        case Ok(Some(h)) =>
          if h.valueLen == -1 then r == Ok(None)
          else if h.valueAt >= |file.data| then r == Err(Access)
          else r.Ok? && r.value.Some? && fresh(r.value.value) && r.value.value.IsNode(this, file.data, h.valueAt, h.valueLen)
    {
      if kind != OBJECT {
        return Err(Usage);
      }
      var _ := file.Seek(start);
      var length :- GoToKey(file, key);
      if length == -1 {
        return Ok(None);
      }
      var node :- NodeAt(file.pos, length);
      return Ok(Some(node));
    }

    // -------------------------------------------------------------- insert

    /** The shared body of insert and insertAll: link a new segment holding the objects, then count them. */
    method AppendMembers(objects: seq<seq<Field>>) returns (r: Result<()>)
      modifies file
      ensures match Insertion(old(file.data), start, objects)
        case Ok(g) => r.Ok? && file.data == g
        case Err(e) => r == Err(e)
      ensures !Walk(old(file.data), start + 8, true).stop.End? ==> file.data == old(file.data)
      ensures var stop := Walk(old(file.data), start + 8, true).stop;
        stop.End? && !AllWritable(objects) ==> Linked(file.data, old(file.data), stop.at)
    {
      ghost var d := file.data;
      ghost var stop := Walk(d, start + 8, true).stop;
      InsertionCases(d, start, objects);
      var ended := SeekToEnd(file, start, true);
      if ended.Err? {
        assert !stop.End?;
        return Err(ended.error);
      }
      assert stop.End? && file.pos == stop.at + 1;
      var t := file.pos - 1;
      r := AppendAt(t, objects);
      assert t == stop.at;
      assert Insertion(d, start, objects) == if AllWritable(objects) then Ok(file.data) else Err(Access);
      assert !AllWritable(objects) ==> Linked(file.data, d, stop.at);
    }

    /** AppendMembers once seekToEnd has found the terminator at t: the segment written, then the count raised. */
    method AppendAt(t: nat, objects: seq<seq<Field>>) returns (r: Result<()>)
      requires start + 8 <= t < |file.data|
      modifies file
      ensures AllWritable(objects) ==> r == Ok(()) && file.data == Inserted(old(file.data), start, t, Bodies(objects))
      ensures !AllWritable(objects) ==> r == Err(Access) && Linked(file.data, old(file.data), t)
    {
      var _ :- WriteSegment(file, t, objects);
      var counted := IncrementCount(|objects|);
      return Ok(());
    }

    /** insertAll: the objects appended in list order as one new segment (see InsertedMembers). */
    method InsertAll(objects: seq<seq<Field>>) returns (r: Result<()>)
      modifies file
      ensures query != null ==> r == Err(Usage) && file.data == old(file.data)
      ensures query == null && kind != COLLECTION ==> r == Err(Runtime) && file.data == old(file.data)
      ensures query == null && kind == COLLECTION ==> match Insertion(old(file.data), start, objects)
        case Ok(g) => r.Ok? && file.data == g
        case Err(e) => r == Err(e)
      ensures var stop := Walk(old(file.data), start + 8, true).stop;
        query == null && kind == COLLECTION && !stop.End? ==> file.data == old(file.data)
      ensures var stop := Walk(old(file.data), start + 8, true).stop;
        query == null && kind == COLLECTION && stop.End? && !AllWritable(objects) ==> Linked(file.data, old(file.data), stop.at)
    {
      if query != null {
        return Err(Usage);
      }
      if kind != COLLECTION {
        return Err(Runtime);
      }
      r := AppendMembers(objects);
    }

    /** insert: one object appended as a new segment (see InsertedMembers). */
    method Insert(fields: seq<Field>) returns (r: Result<()>)
      modifies file
      ensures query != null ==> r == Err(Usage) && file.data == old(file.data)
      ensures query == null && kind != COLLECTION ==> r == Err(Usage) && file.data == old(file.data)
      ensures query == null && kind == COLLECTION ==> match Insertion(old(file.data), start, [fields])
        case Ok(g) => r.Ok? && file.data == g
        case Err(e) => r == Err(e)
      ensures var stop := Walk(old(file.data), start + 8, true).stop;
        query == null && kind == COLLECTION && !stop.End? ==> file.data == old(file.data)
      ensures var stop := Walk(old(file.data), start + 8, true).stop;
        query == null && kind == COLLECTION && stop.End? && !AllWritable([fields]) ==> Linked(file.data, old(file.data), stop.at)
    {
      if query != null {
        return Err(Usage);
      }
      if kind != COLLECTION {
        return Err(Usage);
      }
      r := AppendMembers([fields]);
    }

    // -------------------------------------------------------------- remove

    /** removeNestedObject's outcome on this view, for the nested object whose start is startOffset. */
    ghost predicate RemovedNested(d: seq<byte>, startOffset: int, r: Result<int>, g: seq<byte>)
      reads this
    {
      if kind == COLLECTION then
        var at := startOffset - 10;
        if at < 0 then r == Err(Access) && g == d
        else
          var d1 := Patch(d, at, [DELETED]);
          if query != null then r == Ok(1) && g == d1
          else if start + 8 > |d1| then r == Err(Access) && g == d1
          else r == Ok(1) && g == Recounted(d1, start, -1)
      else
        match CoveringFrom(d, start, startOffset)
        case Err(x) => r == Err(x) && g == d
        case Ok(None) => r == Ok(0) && g == d
        case Ok(Some(e)) => r == Ok(1) && g == Patch(d, e.at, [DELETED])
    }

    /**
     * removeNestedObject: in a collection, the member slot just before the
     * nested object is tombstoned (and counted off unless this view is
     * query-backed); in an object, the live slot whose payload holds the
     * nested object (CoveringSpec) is tombstoned.
     */
    method RemoveNestedObject(startOffset: int) returns (r: Result<int>)
      modifies file
      ensures RemovedNested(old(file.data), startOffset, r, file.data)
    {
      if kind == COLLECTION {
        var moved := file.Seek(startOffset - 1 - 8 - 1);
        if moved.Err? {
          return Err(Access);
        }
        file.WriteByte(DELETED);
        if query == null {
          var counted := DecrementCount(1);
          if counted.Err? {
            return Err(Access);
          }
        }
        return Ok(1);
      }
      var found := FindCovering(file, start, startOffset);
      if found.Err? {
        return Err(found.error);
      }
      if found.value.None? {
        return Ok(0);
      }
      var _ := file.Seek(found.value.value.at);
      file.WriteByte(DELETED);
      return Ok(1);
    }

    /**
     * remove(): an object asks its parent to remove it; a collection
     * tombstones every member iterate visits and lowers its count by their
     * number (RemovedCounted and RemovedAll say what the next walk finds).
     */
    method Remove() returns (r: Result<int>)
      requires Valid()
      requires parent != null ==> parent.file == file
      modifies file, Side()
      ensures Valid()
      ensures kind == OBJECT && parent == null ==> r == Err(NullPointer) && file.data == old(file.data)
      ensures kind == OBJECT && parent != null ==> parent.RemovedNested(old(file.data), start, r, file.data)
      ensures kind != OBJECT && kind != COLLECTION ==> r == Err(Runtime) && file.data == old(file.data)
      ensures kind == COLLECTION ==> (r, file.data) == Cleared(old(file.data), start, Visited(old(file.data)))
    {
      if kind == OBJECT {
        if parent == null {
          return Err(NullPointer);
        }
        r := parent.RemoveNestedObject(start);
        return;
      }
      if kind != COLLECTION {
        return Err(Runtime);
      }
      var s := Iterate();
      var n := TombstoneAll(file, s.members);
      if s.fault.Some? {
        return Err(s.fault.value);
      }
      var counted := DecrementCount(n);
      if counted.Err? {
        return Err(Access);
      }
      return Ok(n);
    }

    /**
     * remove(key): the slot of the first live entry with that key is
     * tombstoned (KeyDroppedSlot says which slot); an absent key writes
     * nothing and answers false.
     */
    method RemoveKey(key: JString) returns (r: Result<bool>)
      modifies file
      ensures kind != OBJECT ==> r == Err(Usage) && file.data == old(file.data)
      ensures kind == OBJECT ==> match KeyDropped(old(file.data), start, key)
        case Err(x) => r == Err(x) && file.data == old(file.data)
        case Ok((b, g)) => r == Ok(b) && file.data == g
    {
      if kind != OBJECT {
        return Err(Usage);
      }
      r := DropKey(file, start, key);
    }

    // -------------------------------------------------------------- set

    /** setObjectKeyValue, on an object view. */
    method SetObjectKeyValue(key: JString, x: JavaObject) returns (r: Result<int>)
      requires kind == OBJECT
      modifies file
      ensures match KeySet(old(file.data), start, key, x)
        case Ok(g) => r == Ok(1) && file.data == g
        case Err(e) => r == Err(e) && KeySetLeft(file.data, old(file.data), start, key)
      ensures match KeyDropped(old(file.data), start, key)
        case Err(_) => file.data == old(file.data)
        case Ok((_, d1)) =>
          var stop := Walk(d1, start, true).stop;
          stop.End? && !ObjectWritable(x) ==> Linked(file.data, d1, stop.at)
    {
      var _ :- DropKey(file, start, key);
      var _ :- AppendKeyValue(file, start, key, x);
      return Ok(1);
    }

    /**
     * set: on an object, set key to x; on a collection, set it in every
     * object member iterate visits, and answer how many members it visited.
     */
    method Set(key: JString, x: JavaObject) returns (r: Result<int>)
      requires Valid()
      modifies file, Side()
      ensures Valid()
      ensures kind == OBJECT ==> match KeySet(old(file.data), start, key, x)
        case Ok(g) => r == Ok(1) && file.data == g
        case Err(e) => r == Err(e) && KeySetLeft(file.data, old(file.data), start, key)
      ensures kind != OBJECT ==>
        var s := Visited(old(file.data));
        match SetMembers(old(file.data), s.members, key, x)
        case Err(e) => r == Err(e) && MembersSetLeft(file.data, old(file.data), s.members, key, x)
        case Ok(g) => file.data == g && r == if s.fault.Some? then Err(s.fault.value) else Ok(|s.members|)
    {
      if kind == OBJECT {
        r := SetObjectKeyValue(key, x);
        return;
      }
      var s := Iterate();
      var _ :- SetEach(s.members, key, x);
      if s.fault.Some? {
        return Err(s.fault.value);
      }
      return Ok(|s.members|);
    }

    /** set's processor over the visited members of this collection. */
    method SetEach(ms: seq<Entry>, key: JString, x: JavaObject) returns (r: Result<()>)
      modifies file
      ensures match SetMembers(old(file.data), ms, key, x)
        case Err(e) => r == Err(e) && MembersSetLeft(file.data, old(file.data), ms, key, x)
        case Ok(g) => r.Ok? && file.data == g
    {
      ghost var d := file.data;
      var i := 0;
      while i < |ms|
        invariant 0 <= i <= |ms|
        invariant SetMembers(file.data, ms[i..], key, x) == SetMembers(d, ms, key, x)
        invariant forall g :: MembersSetLeft(g, file.data, ms[i..], key, x) ==> MembersSetLeft(g, d, ms, key, x)
      {
        assert ms[i..][0] == ms[i] && ms[i..][1..] == ms[i + 1..];
        ghost var d1 := file.data;
        var one := SetOne(ms[i], key, x);
        if one.Err? {
          assert MembersSetLeft(file.data, d1, ms[i..], key, x);
          return Err(one.error);
        }
        forall g | MembersSetLeft(g, file.data, ms[i + 1..], key, x)
          ensures MembersSetLeft(g, d, ms, key, x)
        {
          assert MembersSetLeft(g, d1, ms[i..], key, x);
        }
        i := i + 1;
      }
      assert ms[i..] == [];
      return Ok(());
    }

    /** set's processor at one member: a nested object view at its payload, told to set key. */
    method SetOne(e: Entry, key: JString, x: JavaObject) returns (r: Result<()>)
      modifies file
      ensures match SetMember(old(file.data), e, key, x)
        case Err(err) => r == Err(err) && MemberSetLeft(file.data, old(file.data), e, key)
        case Ok(g) => r.Ok? && file.data == g
    {
      var q := e.at + 9;
      var _ := file.Seek(q);
      var c := file.ReadByte();
      if c.Err? {
        return Err(Access);
      }
      if c.value == OBJECT {
        var node := NodeAt(q, e.len);
        var child := node.value;
        var _ :- child.SetObjectKeyValue(key, x);
      }
      return Ok(());
    }

    // -------------------------------------------------------------- reading whole documents

    /** asYashON: the object read back (FieldsFrom). */
    method AsYashON() returns (r: Result<Value>)
      requires Valid()
      modifies file
      ensures file.data == old(file.data)
      ensures r == if kind != OBJECT then Err(Usage) else FieldsFrom(file.data, start, start, [])
    {
      if kind != OBJECT {
        return Err(Usage);
      }
      var _ := file.Seek(start);
      if start > |file.data| {
        FoldAtStop(file.data, start, start, [], []);
        return Err(Access);
      }
      r := ReadObject(file, file.data);
    }

    /** What asYashAN answers: the count checks, then the value of every member iterate visits. */
    ghost function ArrayOf(d: seq<byte>): Result<seq<Value>>
      reads query
    {
      if kind != COLLECTION then Err(Usage)
      else
        match CountOf(d)
        case Err(e) => Err(e)
        case Ok(count) =>
          if count > INT_MAX then Err(Runtime)
          else if WrapInt(count) < 0 then Err(IllegalArgument)
          else
            MembersRead(d, Visited(d))
    }

    /** asYashAN: a new YashAN holding the value of each member, in visiting order. */
    method AsYashAN() returns (r: Result<YashAN>)
      requires Valid()
      modifies file, Side()
      ensures Valid() && file.data == old(file.data)
      ensures var a := ArrayOf(file.data);
        (a.Err? ==> r == Err(a.error)) && (a.Ok? ==> r.Ok? && fresh(r.value) && r.value.items == a.value)
    {
      if kind != COLLECTION {
        return Err(Usage);
      }
      var count :- GetCount();
      if count > INT_MAX {
        return Err(Runtime);
      }
      if WrapInt(count) < 0 {
        return Err(IllegalArgument);
      }
      var yashAN := new YashAN();
      var s := Iterate();
      var filled := FillArray(file, file.data, s, yashAN);
      if filled.Err? {
        return Err(filled.error);
      }
      return Ok(yashAN);
    }

    /**
     * writeToFile: a collection compacted into the file whose contents were
     * existing, which is overwritten from its start (and not truncated).
     */
    method WriteToFile(existing: seq<byte>) returns (r: Result<seq<byte>>)
      requires Valid()
      modifies file, Side()
      ensures Valid() && file.data == old(file.data)
      ensures kind != COLLECTION ==> r == Err(IllegalState)
      ensures kind == COLLECTION ==> r == Exported(existing, file.data, CountOf(file.data), Visited(file.data))
    {
      if kind != COLLECTION {
        return Err(IllegalState);
      }
      var out := new RandomAccess(existing);
      out.WriteByte(COLLECTION);
      var count := GetCount();
      if count.Err? {
        return Err(count.error);
      }
      var s := Iterate();
      r := WriteCompacted(file, out, existing, count.value, s);
    }
  }
}
