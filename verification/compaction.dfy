/**
 * writeToFile of YashoDB.java and the four copy helpers behind it
 * (writeValueToFile, writeCollectionToFile, writeObjectToFile,
 * writeStringValueToFile): compaction of a collection into a fresh file
 * that holds only its live members, each copied without tombstones.
 *
 * The copy functions follow the source one tag at a time: a nested
 * collection steps over a `T` by one byte, without reading its offset,
 * exactly as the source's HAS_TAIL branch does, while a nested object
 * follows its tails.  Each copy yields the bytes written and the length
 * the helper returns; the two agree on every file of fewer than 2^31
 * bytes (CopyValueExact), and the compacted file then holds one live slot
 * per member and nothing else (CompactedLayout).
 */
module Compaction {
  import opened Bytes
  import opened Text
  import opened Results
  import opened Sequences
  import opened FileAccess
  import opened Chains
  import opened Encoding
  import opened Walker
  import opened Layout

  /** What a copy helper leaves behind: the bytes it wrote and the length it returns. */
  datatype Copied = Copied(bytes: seq<byte>, reported: int)

  function Nothing(): Copied { Copied([], 0) }

  /** One copy written right after another. */
  function Join(a: Copied, b: Copied): Copied
  {
    Copied(a.bytes + b.bytes, a.reported + b.reported)
  }

  /** a, then whatever the rest of the copy gives (or the error that stopped it). */
  function After(a: Copied, r: Result<Copied>): Result<Copied>
  {
    match r
    case Err(e) => Err(e)
    case Ok(b) => Ok(Join(a, b))
  }

  /** `t` and a zero offset closing a copied chain. */
  function Closing(): Copied { Copied(Terminator(), 9) }

  /** A copied member of a collection: `r`, the reported length as a long, then the copy. */
  function SlotCopy(v: Copied): Copied
  {
    Copied([NOT_DELETED] + EncodeLong(v.reported) + v.bytes, 9 + v.reported)
  }

  /** A copied field of an object: `r`, the key-value length, the key length and key bytes, then the copied value. */
  function FieldCopy(key: JString, v: Copied): Copied
  {
    Copied([NOT_DELETED] + EncodeLong(4 + |key| + v.reported) + (EncodeInt(|key|) + KeyBytes(key)) + v.bytes,
           13 + |key| + v.reported)
  }

  /** The reported length is the number of bytes written. */
  predicate Exact(c: Copied)
  {
    c.reported == |c.bytes|
  }

  // ---------------------------------------------------------------- the copy, as the source reads it

  /** writeValueToFile with the source at q: the node whose tag is there, copied. */
  function CopyValue(d: seq<byte>, q: nat, length: int): Result<Copied>
    decreases |d| - q, 3, 0
  {
    if q >= |d| then Err(Access)
    else if d[q] == COLLECTION then CopyCollection(d, q)
    else if d[q] == OBJECT then CopyObject(d, q)
    else if d[q] == VALUE then CopyText(d, q, length)
    else if d[q] == NULL then Ok(Copied([NULL], 1))
    else Err(Runtime)
  }

  /**
   * writeStringValueToFile: `V`, then the length - 1 bytes after the tag
   * (the size cast to a Java int first); the length it was given is what
   * it reports.
   */
  function CopyText(d: seq<byte>, q: nat, length: int): Result<Copied>
  {
    var n := WrapInt(length - 1);
    if n < 0 then Err(NegativeSize)
    else if q + 1 + n > |d| then Err(Access)
    else Ok(Copied([VALUE] + d[q + 1..q + 1 + n], length))
  }

  /** writeCollectionToFile: `C`, the stored count copied, then the chain from q + 9. */
  function CopyCollection(d: seq<byte>, q: nat): Result<Copied>
    decreases |d| - q, 2, 0
  {
    if q + 9 > |d| then Err(Access)
    else After(Copied([COLLECTION] + EncodeLong(DecodeLong(d[q + 1..q + 9])), 9), CollectionRest(d, q, q + 9))
  }

  /**
   * The loop of writeCollectionToFile from the tag at p: live members are
   * copied, tombstones skipped, and a `T` is stepped over by one byte.
   */
  function CollectionRest(d: seq<byte>, q: nat, p: nat): Result<Copied>
    requires q < p
    decreases |d| - q, 1, |d| - p
  {
    if p >= |d| then Err(Access)
    else if d[p] == HAS_NOT_TAIL then Ok(Closing())
    else if d[p] == HAS_TAIL then CollectionRest(d, q, p + 1)
    else if d[p] == DELETED || d[p] == NOT_DELETED then
      if p + 9 > |d| then Err(Access)
      else
        var n := DecodeLong(d[p + 1..p + 9]);
        if d[p] == DELETED then
          if n < 0 then Err(BackwardLink) else CollectionRest(d, q, p + 9 + n)
        else
          match CopyValue(d, p + 9, n)
          case Err(e) => Err(e)
          case Ok(v) => if n < 0 then Err(BackwardLink) else After(SlotCopy(v), CollectionRest(d, q, p + 9 + n))
    else Err(Runtime)
  }

  /** writeObjectToFile: `O`, then the chain from q + 1. */
  function CopyObject(d: seq<byte>, q: nat): Result<Copied>
    decreases |d| - q, 2, 0
  {
    After(Copied([OBJECT], 1), ObjectRest(d, q, q + 1))
  }

  /**
   * The loop of writeObjectToFile from the tag at p: each live field's key
   * is read and rewritten, its value copied; tombstones are skipped and
   * tails followed.
   */
  function ObjectRest(d: seq<byte>, q: nat, p: nat): Result<Copied>
    requires q < p
    decreases |d| - q, 1, |d| - p
  {
    if p >= |d| then Err(Access)
    else if d[p] == HAS_NOT_TAIL then Ok(Closing())
    else if d[p] == HAS_TAIL || d[p] == DELETED || d[p] == NOT_DELETED then
      if p + 9 > |d| then Err(Access)
      else
        var n := DecodeLong(d[p + 1..p + 9]);
        if d[p] == HAS_TAIL then
          if n < p + 9 then Err(BackwardLink) else ObjectRest(d, q, n)
        else if d[p] == DELETED then
          if n < 0 then Err(BackwardLink) else ObjectRest(d, q, p + 9 + n)
        else
          match FieldAt(d, q, p, n)
          case Err(e) => Err(e)
          case Ok(c) => if n < 0 then Err(BackwardLink) else After(c, ObjectRest(d, q, p + 9 + n))
    else Err(Runtime)
  }

  /** The `r` branch of that loop for the slot at p whose length field is n: the key read, then the value copied. */
  function FieldAt(d: seq<byte>, q: nat, p: nat, n: int): Result<Copied>
    requires q < p
    decreases |d| - q, 0, 0
  {
    match SlotKey(d, Entry(p, true, n))
    case Err(e) => Err(e)
    case Ok(key) =>
      match CopyValue(d, p + 13 + |key|, n - 4 - |key|)
      case Err(e) => Err(e)
      case Ok(v) => Ok(FieldCopy(key, v))
  }

  /** The members of the collection being compacted, each copied from its payload. */
  function CopyMembers(d: seq<byte>, ms: seq<Entry>): Result<seq<Copied>>
  {
    if ms == [] then Ok([])
    else
      match CopyValue(d, ms[0].at + 9, ms[0].len)
      case Err(e) => Err(e)
      case Ok(v) =>
        match CopyMembers(d, ms[1..])
        case Err(e) => Err(e)
        case Ok(vs) => Ok([v] + vs)
  }

  /** The member slots writeToFile writes, one per copy. */
  function MemberSlots(vs: seq<Copied>): seq<byte>
  {
    if vs == [] then [] else SlotCopy(vs[0]).bytes + MemberSlots(vs[1..])
  }

  /** What the copies wrote. */
  function CopiedBytes(vs: seq<Copied>): (r: seq<seq<byte>>)
    ensures |r| == |vs|
  {
    seq(|vs|, i requires 0 <= i < |vs| => vs[i].bytes)
  }

  /**
   * writeToFile once the count is read and the members are visited: `C`,
   * the count, one slot per member, the terminator; or the first error.
   */
  function Compacted(d: seq<byte>, count: int, s: Scan): Result<seq<byte>>
  {
    match CopyMembers(d, s.members)
    case Err(e) => Err(e)
    case Ok(vs) =>
      if s.fault.Some? then Err(s.fault.value)
      else Ok([COLLECTION] + EncodeLong(count) + MemberSlots(vs) + Terminator())
  }

  // ---------------------------------------------------------------- small facts about copies

  lemma AfterNothing(r: Result<Copied>)
    ensures After(Nothing(), r) == r
  {
    if r.Ok? {
      assert [] + r.value.bytes == r.value.bytes;
    }
  }

  lemma AfterJoin(a: Copied, b: Copied, r: Result<Copied>)
    ensures After(a, After(b, r)) == After(Join(a, b), r)
  {
    if r.Ok? {
      Assoc(a.bytes, b.bytes, r.value.bytes);
    }
  }

  /** A nested member's head (`r`, zero length) and copy, once the reported length is patched in. */
  lemma SlotCopyPatched(d0: seq<byte>, p0: nat, dh: seq<byte>, ph: nat, v: Copied, d1: seq<byte>, at: nat)
    requires dh == Patch(d0, p0, [NOT_DELETED] + EncodeLong(0)) && ph == p0 + 9
    requires d1 == Patch(dh, ph, v.bytes) && at == p0 + 1
    ensures Patch(d1, at, EncodeLong(v.reported)) == Patch(d0, p0, SlotCopy(v).bytes)
  {
    PatchThen(d0, p0, [NOT_DELETED] + EncodeLong(0), v.bytes);
    PatchOver(d0, p0, [NOT_DELETED], EncodeLong(0), v.bytes, EncodeLong(v.reported));
  }

  /** A field's head (key written, zero length) and copied value, once the key-value length is patched in. */
  lemma FieldCopyPatched(d0: seq<byte>, p0: nat, key: JString, dh: seq<byte>, ph: nat, v: Copied, d1: seq<byte>, at: nat)
    requires dh == Patch(d0, p0, KeyHead(key)) && ph == p0 + |KeyHead(key)|
    requires d1 == Patch(dh, ph, v.bytes) && at == p0 + 1
    ensures Patch(d1, at, EncodeLong(4 + |key| + v.reported)) == Patch(d0, p0, FieldCopy(key, v).bytes)
    ensures |FieldCopy(key, v).bytes| == |KeyHead(key)| + |v.bytes|
  {
    var mid := EncodeInt(|key|) + KeyBytes(key);
    var z, w := EncodeLong(0), EncodeLong(4 + |key| + v.reported);
    PatchThen(d0, p0, KeyHead(key), v.bytes);
    SeqAssoc([NOT_DELETED] + z, mid, v.bytes);
    assert d1 == Patch(d0, p0, [NOT_DELETED] + z + (mid + v.bytes));
    PatchOver(d0, p0, [NOT_DELETED], z, mid + v.bytes, w);
    SeqAssoc([NOT_DELETED] + w, mid, v.bytes);
    assert FieldCopy(key, v).bytes == [NOT_DELETED] + w + (mid + v.bytes);
  }

  /** The `r` branch of the collection loop at p, one case at a time. */
  lemma CollectionRestAtSlot(d: seq<byte>, q: nat, p: nat)
    requires q < p && p + 9 <= |d| && d[p] == NOT_DELETED
    ensures var n := DecodeLong(d[p + 1..p + 9]);
      var c := CopyValue(d, p + 9, n);
      && (c.Err? ==> CollectionRest(d, q, p) == Err(c.error))
      && (c.Ok? && n < 0 ==> CollectionRest(d, q, p) == Err(BackwardLink))
      && (c.Ok? && n >= 0 ==> CollectionRest(d, q, p) == After(SlotCopy(c.value), CollectionRest(d, q, p + 9 + n)))
  {
  }

  // ---------------------------------------------------------------- the copy, through the file pointers

  /** writeValueToFile: reads the tag at the source pointer and copies that node into dst. */
  method CopyValueTo(src: RandomAccess, dst: RandomAccess, ghost d: seq<byte>, ghost q: nat, length: int)
    returns (r: Result<int>)
    requires src != dst && src.data == d && src.pos == q
    modifies src, dst
    ensures src.data == d
    ensures match CopyValue(d, q, length)
      case Ok(c) => r == Ok(c.reported) && Wrote(dst, old(dst.data), old(dst.pos), c.bytes)
      case Err(e) => r == Err(e)
    decreases |d| - q, 3, 0
  {
    var tag := src.ReadByte();
    if tag.Err? {
      return Err(Access);
    }
    if tag.value == COLLECTION {
      r := CopyCollectionTo(src, dst, d, q);
    } else if tag.value == OBJECT {
      r := CopyObjectTo(src, dst, d, q);
    } else if tag.value == VALUE {
      r := CopyTextTo(src, dst, d, q, length);
    } else if tag.value == NULL {
      dst.WriteByte(NULL);
      r := Ok(1);
    } else {
      r := Err(Runtime);
    }
  }

  /** writeStringValueToFile */
  method CopyTextTo(src: RandomAccess, dst: RandomAccess, ghost d: seq<byte>, ghost q: nat, length: int)
    returns (r: Result<int>)
    requires src != dst && src.data == d && src.pos == q + 1 && q < |d|
    modifies src, dst
    ensures src.data == d
    ensures match CopyText(d, q, length)
      case Ok(c) => r == Ok(c.reported) && Wrote(dst, old(dst.data), old(dst.pos), c.bytes)
      case Err(e) => r == Err(e)
  {
    ghost var d0, p0 := dst.data, dst.pos;
    dst.WriteByte(VALUE);
    var size := WrapInt(length - 1);
    if size < 0 {
      return Err(NegativeSize);
    }
    var bytes := src.ReadFully(size);
    if bytes.Err? {
      return Err(Access);
    }
    dst.Write(bytes.value);
    PatchThen(d0, p0, [VALUE], bytes.value);
    r := Ok(length);
  }

  /** writeCollectionToFile: `C`, the count as read, then the loop over the chain. */
  method CopyCollectionTo(src: RandomAccess, dst: RandomAccess, ghost d: seq<byte>, ghost q: nat)
    returns (r: Result<int>)
    requires src != dst && src.data == d && src.pos == q + 1 && q < |d|
    modifies src, dst
    ensures src.data == d
    ensures match CopyCollection(d, q)
      case Ok(c) => r == Ok(c.reported) && Wrote(dst, old(dst.data), old(dst.pos), c.bytes)
      case Err(e) => r == Err(e)
    decreases |d| - q, 2, 0
  {
    ghost var d0, p0 := dst.data, dst.pos;
    dst.WriteByte(COLLECTION);
    var count := src.ReadLong();
    if count.Err? {
      return Err(Access);
    }
    ghost var head := Copied([COLLECTION] + EncodeLong(count.value), 9);
    assert CopyCollection(d, q) == After(head, CollectionRest(d, q, q + 9));
    dst.WriteLong(count.value);
    PatchThen(d0, p0, [COLLECTION], EncodeLong(count.value));
    ghost var d1, p1 := dst.data, dst.pos;
    assert d1 == Patch(d0, p0, head.bytes) && p1 == p0 + |head.bytes|;
    var rest := CollectionLoop(src, dst, d, q);
    if rest.Err? {
      return Err(rest.error);
    }
    ghost var c := CollectionRest(d, q, q + 9).value;
    assert Wrote(dst, d1, p1, c.bytes);
    WroteMore(dst, d0, p0, head.bytes, c.bytes, d1, p1);
    r := Ok(9 + rest.value);
  }

  /** The while loop of writeCollectionToFile, from the tag at the source pointer to the terminator. */
  method CollectionLoop(src: RandomAccess, dst: RandomAccess, ghost d: seq<byte>, ghost q: nat)
    returns (r: Result<int>)
    requires src != dst && src.data == d && q < src.pos
    modifies src, dst
    ensures src.data == d
    ensures match CollectionRest(d, q, old(src.pos))
      case Ok(c) => r == Ok(c.reported) && Wrote(dst, old(dst.data), old(dst.pos), c.bytes)
      case Err(e) => r == Err(e)
    decreases |d| - q, 1, 2
  {
    ghost var d0, p0 := dst.data, dst.pos;
    ghost var goal := CollectionRest(d, q, src.pos);
    ghost var sofar := Nothing();
    var length := 0;
    PatchNothing(d0, p0);
    AfterNothing(goal);
    var read := src.ReadByte();
    if read.Err? {
      return Err(Access);
    }
    var tag := read.value;
    while tag != HAS_NOT_TAIL
      invariant src.data == d && q + 1 < src.pos <= |d| && d[src.pos - 1] == tag
      invariant goal == After(sofar, CollectionRest(d, q, src.pos - 1))
      invariant Wrote(dst, d0, p0, sofar.bytes) && length == sofar.reported
      decreases |d| - src.pos
    {
      var fault;
      fault, length, sofar, tag := CollectionLoopPass(src, dst, d, q, tag, d0, p0, sofar, length);
      if fault.Some? {
        return Err(fault.value);
      }
    }
    ghost var d1, p1 := dst.data, dst.pos;
    WriteByteLong(dst, HAS_NOT_TAIL, 0);
    WroteMore(dst, d0, p0, sofar.bytes, Terminator(), d1, p1);
    r := Ok(length + 9);
  }

  /** One trip round the loop of writeCollectionToFile: the round on the tag just read, then the next tag. */
  method CollectionLoopPass(src: RandomAccess, dst: RandomAccess, ghost d: seq<byte>, ghost q: nat, tag: byte,
                    ghost d0: seq<byte>, ghost p0: nat, ghost sofar: Copied, length: int)
    returns (fault: Option<Error>, length': int, ghost sofar': Copied, tag': byte)
    requires src != dst && src.data == d && q + 1 < src.pos <= |d| && d[src.pos - 1] == tag && tag != HAS_NOT_TAIL
    requires Wrote(dst, d0, p0, sofar.bytes) && length == sofar.reported
    modifies src, dst
    ensures src.data == d
    ensures fault.Some? ==> After(sofar, CollectionRest(d, q, old(src.pos) - 1)) == Err(fault.value)
    ensures fault.None? ==> old(src.pos) < src.pos <= |d| && d[src.pos - 1] == tag'
    ensures fault.None? ==> After(sofar, CollectionRest(d, q, old(src.pos) - 1)) == After(sofar', CollectionRest(d, q, src.pos - 1))
    ensures fault.None? ==> Wrote(dst, d0, p0, sofar'.bytes) && length' == sofar'.reported
    decreases |d| - q, 1, 1
  {
    ghost var d1, p1 := dst.data, dst.pos;
    sofar', length', tag' := sofar, length, tag;
    var n; ghost var step;
    fault, n, step := CollectionRound(src, dst, d, q, tag);
    if fault.Some? {
      return;
    }
    WroteMore(dst, d0, p0, sofar.bytes, step.bytes, d1, p1);
    AfterJoin(sofar, step, CollectionRest(d, q, src.pos));
    sofar' := Join(sofar, step);
    length' := length + n;
    var read := src.ReadByte();
    if read.Err? {
      return Some(Access), length', sofar', tag';
    }
    tag' := read.value;
  }

  /** One pass of that loop on the tag just read: a live member copied, a tombstone skipped, a `T` stepped over. */
  method CollectionRound(src: RandomAccess, dst: RandomAccess, ghost d: seq<byte>, ghost q: nat, tag: byte)
    returns (fault: Option<Error>, n: int, ghost step: Copied)
    requires src != dst && src.data == d && q + 1 < src.pos <= |d| && d[src.pos - 1] == tag && tag != HAS_NOT_TAIL
    modifies src, dst
    ensures src.data == d
    ensures fault.Some? ==> CollectionRest(d, q, old(src.pos) - 1) == Err(fault.value)
    ensures fault.None? ==> old(src.pos) <= src.pos && CollectionRest(d, q, old(src.pos) - 1) == After(step, CollectionRest(d, q, src.pos))
    ensures fault.None? ==> Wrote(dst, old(dst.data), old(dst.pos), step.bytes) && n == step.reported
    decreases |d| - q, 1, 0
  {
    step, n, fault := Nothing(), 0, None;
    if tag == NOT_DELETED {
      fault, n, step := CollectionSlot(src, dst, d, q);
    } else if tag == DELETED {
      var length := src.ReadLong();
      if length.Err? {
        return Some(Access), 0, step;
      }
      if length.value < 0 {
        return Some(BackwardLink), 0, step;
      }
      var _ := src.Seek(src.pos + length.value);
      PatchNothing(dst.data, dst.pos);
      AfterNothing(CollectionRest(d, q, src.pos));
    } else if tag == HAS_TAIL {
      // the offset is not read: the pointer is sought to where it already is
      var offset := src.pos;
      var _ := src.Seek(offset);
      PatchNothing(dst.data, dst.pos);
      AfterNothing(CollectionRest(d, q, src.pos));
    } else {
      fault := Some(Runtime);
    }
  }

  /** The `r` branch of that loop: the member's value copied into a slot whose length is patched in after. */
  method CollectionSlot(src: RandomAccess, dst: RandomAccess, ghost d: seq<byte>, ghost q: nat)
    returns (fault: Option<Error>, n: int, ghost step: Copied)
    requires src != dst && src.data == d && q + 1 < src.pos <= |d| && d[src.pos - 1] == NOT_DELETED
    modifies src, dst
    ensures src.data == d
    ensures fault.Some? ==> CollectionRest(d, q, old(src.pos) - 1) == Err(fault.value)
    ensures fault.None? ==> old(src.pos) <= src.pos && CollectionRest(d, q, old(src.pos) - 1) == After(step, CollectionRest(d, q, src.pos))
    ensures fault.None? ==> Wrote(dst, old(dst.data), old(dst.pos), step.bytes) && n == step.reported
    decreases |d| - q, 0, 1
  {
    ghost var p := src.pos - 1;
    step, n := Nothing(), 0;
    var length := src.ReadLong();
    if length.Err? {
      return Some(Access), 0, step;
    }
    fault, n, step := CollectionSlotValue(src, dst, d, q, p, length.value);
  }

  /** The rest of that branch once the slot length is read: the value copied, its length patched in, the skip. */
  method CollectionSlotValue(src: RandomAccess, dst: RandomAccess, ghost d: seq<byte>, ghost q: nat, ghost p: nat,
                             length: int)
    returns (fault: Option<Error>, n: int, ghost step: Copied)
    requires src != dst && src.data == d && q < p && p + 9 <= |d| && d[p] == NOT_DELETED
    requires src.pos == p + 9 && length == DecodeLong(d[p + 1..p + 9])
    modifies src, dst
    ensures src.data == d
    ensures fault.Some? ==> CollectionRest(d, q, p) == Err(fault.value)
    ensures fault.None? ==> p + 9 <= src.pos && CollectionRest(d, q, p) == After(step, CollectionRest(d, q, src.pos))
    ensures fault.None? ==> Wrote(dst, old(dst.data), old(dst.pos), step.bytes) && n == step.reported
    decreases |d| - q, 0, 0
  {
    step, n := Nothing(), 0;
    CollectionRestAtSlot(d, q, p);
    var srcLengthOffset := src.pos;
    ghost var d0, p0 := dst.data, dst.pos;
    var lengthOffset := dst.pos + 1;
    WriteByteLong(dst, NOT_DELETED, 0);
    ghost var dh, ph := dst.data, dst.pos;
    var valueLength := CopyValueTo(src, dst, d, p + 9, length);
    if valueLength.Err? {
      return Some(valueLength.error), 0, step;
    }
    ghost var v := CopyValue(d, p + 9, length).value;
    ghost var d1 := dst.data;
    var eof := dst.pos;
    PatchLong(dst, lengthOffset, valueLength.value, eof);
    SlotCopyPatched(d0, p0, dh, ph, v, d1, lengthOffset);
    if length < 0 {
      return Some(BackwardLink), 0, step;
    }
    var _ := src.Seek(srcLengthOffset + length);
    step := SlotCopy(v);
    n := 9 + valueLength.value;
    fault := None;
  }

  /** writeObjectToFile: `O`, then the loop over the chain. */
  method CopyObjectTo(src: RandomAccess, dst: RandomAccess, ghost d: seq<byte>, ghost q: nat)
    returns (r: Result<int>)
    requires src != dst && src.data == d && src.pos == q + 1 && q < |d|
    modifies src, dst
    ensures src.data == d
    ensures match CopyObject(d, q)
      case Ok(c) => r == Ok(c.reported) && Wrote(dst, old(dst.data), old(dst.pos), c.bytes)
      case Err(e) => r == Err(e)
    decreases |d| - q, 2, 0
  {
    ghost var d0, p0 := dst.data, dst.pos;
    dst.WriteByte(OBJECT);
    ghost var d1, p1 := dst.data, dst.pos;
    assert CopyObject(d, q) == After(Copied([OBJECT], 1), ObjectRest(d, q, q + 1));
    var rest := ObjectLoop(src, dst, d, q);
    if rest.Err? {
      return Err(rest.error);
    }
    ghost var c := ObjectRest(d, q, q + 1).value;
    assert Wrote(dst, d1, p1, c.bytes);
    WroteMore(dst, d0, p0, [OBJECT], c.bytes, d1, p1);
    r := Ok(1 + rest.value);
  }

  /** The while loop of writeObjectToFile, from the tag at the source pointer to the terminator. */
  method ObjectLoop(src: RandomAccess, dst: RandomAccess, ghost d: seq<byte>, ghost q: nat)
    returns (r: Result<int>)
    requires src != dst && src.data == d && q < src.pos
    modifies src, dst
    ensures src.data == d
    ensures match ObjectRest(d, q, old(src.pos))
      case Ok(c) => r == Ok(c.reported) && Wrote(dst, old(dst.data), old(dst.pos), c.bytes)
      case Err(e) => r == Err(e)
    decreases |d| - q, 1, 2
  {
    ghost var d0, p0 := dst.data, dst.pos;
    ghost var goal := ObjectRest(d, q, src.pos);
    ghost var sofar := Nothing();
    var length := 0;
    PatchNothing(d0, p0);
    AfterNothing(goal);
    var read := src.ReadByte();
    if read.Err? {
      return Err(Access);
    }
    var tag := read.value;
    while tag != HAS_NOT_TAIL
      invariant src.data == d && q + 1 < src.pos <= |d| && d[src.pos - 1] == tag
      invariant goal == After(sofar, ObjectRest(d, q, src.pos - 1))
      invariant Wrote(dst, d0, p0, sofar.bytes) && length == sofar.reported
      decreases |d| - src.pos
    {
      var fault;
      fault, length, sofar, tag := ObjectLoopPass(src, dst, d, q, tag, d0, p0, sofar, length);
      if fault.Some? {
        return Err(fault.value);
      }
    }
    ghost var d1, p1 := dst.data, dst.pos;
    WriteByteLong(dst, HAS_NOT_TAIL, 0);
    WroteMore(dst, d0, p0, sofar.bytes, Terminator(), d1, p1);
    r := Ok(length + 9);
  }

  /** One trip round the loop of writeObjectToFile: the round on the tag just read, then the next tag. */
  method ObjectLoopPass(src: RandomAccess, dst: RandomAccess, ghost d: seq<byte>, ghost q: nat, tag: byte,
                    ghost d0: seq<byte>, ghost p0: nat, ghost sofar: Copied, length: int)
    returns (fault: Option<Error>, length': int, ghost sofar': Copied, tag': byte)
    requires src != dst && src.data == d && q + 1 < src.pos <= |d| && d[src.pos - 1] == tag && tag != HAS_NOT_TAIL
    requires Wrote(dst, d0, p0, sofar.bytes) && length == sofar.reported
    modifies src, dst
    ensures src.data == d
    ensures fault.Some? ==> After(sofar, ObjectRest(d, q, old(src.pos) - 1)) == Err(fault.value)
    ensures fault.None? ==> old(src.pos) < src.pos <= |d| && d[src.pos - 1] == tag'
    ensures fault.None? ==> After(sofar, ObjectRest(d, q, old(src.pos) - 1)) == After(sofar', ObjectRest(d, q, src.pos - 1))
    ensures fault.None? ==> Wrote(dst, d0, p0, sofar'.bytes) && length' == sofar'.reported
    decreases |d| - q, 1, 1
  {
    ghost var d1, p1 := dst.data, dst.pos;
    sofar', length', tag' := sofar, length, tag;
    var n; ghost var step;
    fault, n, step := ObjectRound(src, dst, d, q, tag);
    if fault.Some? {
      return;
    }
    WroteMore(dst, d0, p0, sofar.bytes, step.bytes, d1, p1);
    AfterJoin(sofar, step, ObjectRest(d, q, src.pos));
    sofar' := Join(sofar, step);
    length' := length + n;
    var read := src.ReadByte();
    if read.Err? {
      return Some(Access), length', sofar', tag';
    }
    tag' := read.value;
  }

  /** One pass of that loop: a live field copied, a tombstone skipped, a tail followed. */
  method ObjectRound(src: RandomAccess, dst: RandomAccess, ghost d: seq<byte>, ghost q: nat, tag: byte)
    returns (fault: Option<Error>, n: int, ghost step: Copied)
    requires src != dst && src.data == d && q + 1 < src.pos <= |d| && d[src.pos - 1] == tag && tag != HAS_NOT_TAIL
    modifies src, dst
    ensures src.data == d
    ensures fault.Some? ==> ObjectRest(d, q, old(src.pos) - 1) == Err(fault.value)
    ensures fault.None? ==> old(src.pos) <= src.pos && ObjectRest(d, q, old(src.pos) - 1) == After(step, ObjectRest(d, q, src.pos))
    ensures fault.None? ==> Wrote(dst, old(dst.data), old(dst.pos), step.bytes) && n == step.reported
    decreases |d| - q, 1, 0
  {
    step, n, fault := Nothing(), 0, None;
    if tag == NOT_DELETED {
      fault, n, step := ObjectField(src, dst, d, q);
    } else if tag == DELETED || tag == HAS_TAIL {
      fault := ObjectSkip(src, d, q, tag);
      if fault.None? {
        PatchNothing(dst.data, dst.pos);
        AfterNothing(ObjectRest(d, q, src.pos));
      }
    } else {
      fault := Some(Runtime);
    }
  }

  /** The `R` and `T` branches of that loop: a tombstone skipped, a tail followed. */
  method ObjectSkip(src: RandomAccess, ghost d: seq<byte>, ghost q: nat, tag: byte) returns (fault: Option<Error>)
    requires src.data == d && q + 1 < src.pos <= |d| && d[src.pos - 1] == tag && (tag == DELETED || tag == HAS_TAIL)
    modifies src
    ensures src.data == d
    ensures fault.Some? ==> ObjectRest(d, q, old(src.pos) - 1) == Err(fault.value)
    ensures fault.None? ==> old(src.pos) <= src.pos && ObjectRest(d, q, old(src.pos) - 1) == ObjectRest(d, q, src.pos)
  {
    var at := src.pos - 1;
    var length := src.ReadLong();
    if length.Err? {
      return Some(Access);
    }
    if tag == DELETED {
      if length.value < 0 {
        return Some(BackwardLink);
      }
      var _ := src.Seek(src.pos + length.value);
    } else {
      if length.value < at + 9 {
        return Some(BackwardLink);
      }
      var _ := src.Seek(length.value);
    }
    fault := None;
  }

  /** The `r` branch of that loop: key read and rewritten, value copied, key-value length patched in. */
  method ObjectField(src: RandomAccess, dst: RandomAccess, ghost d: seq<byte>, ghost q: nat)
    returns (fault: Option<Error>, n: int, ghost step: Copied)
    requires src != dst && src.data == d && q + 1 < src.pos <= |d| && d[src.pos - 1] == NOT_DELETED
    modifies src, dst
    ensures src.data == d
    ensures var p := old(src.pos) - 1;
      if p + 9 > |d| then fault == Some(Access)
      else
        var len := DecodeLong(d[p + 1..p + 9]);
        match FieldAt(d, q, p, len)
        case Err(e) => fault == Some(e)
        case Ok(c) =>
          && (len < 0 ==> fault == Some(BackwardLink))
          && (len >= 0 ==> (fault.None? && src.pos == p + 9 + len && step == c
                            && Wrote(dst, old(dst.data), old(dst.pos), c.bytes) && n == c.reported))
    decreases |d| - q, 0, 1
  {
    ghost var p := src.pos - 1;
    step, n := Nothing(), 0;
    var keyValueStartOffset := src.pos + 8;
    var head := ReadFieldHead(src, d, p);
    if head.Err? {
      return Some(head.error), 0, step;
    }
    var (keyValueLength, key) := head.value;
    fault, n, step := ObjectFieldValue(src, dst, d, q, p, keyValueStartOffset, keyValueLength, key);
  }

  /** The rest of that branch once the key is read: the value copied, then the skip past the field. */
  method ObjectFieldValue(src: RandomAccess, dst: RandomAccess, ghost d: seq<byte>, ghost q: nat, ghost p: nat,
                          keyValueStartOffset: int, keyValueLength: int, key: JString)
    returns (fault: Option<Error>, n: int, ghost step: Copied)
    requires src != dst && src.data == d && q < p && p + 9 <= |d|
    requires keyValueStartOffset == p + 9
    requires SlotKey(d, Entry(p, true, keyValueLength)) == Ok(key) && src.pos == p + 13 + |key|
    modifies src, dst
    ensures src.data == d
    ensures match FieldAt(d, q, p, keyValueLength)
      case Err(e) => fault == Some(e)
      case Ok(c) =>
        && (keyValueLength < 0 ==> fault == Some(BackwardLink))
        && (keyValueLength >= 0 ==> (fault.None? && src.pos == p + 9 + keyValueLength && step == c
                                     && Wrote(dst, old(dst.data), old(dst.pos), c.bytes) && n == c.reported))
    decreases |d| - q, 0, 0
  {
    step, n := Nothing(), 0;
    var valueLength := keyValueLength - 4 - |key|;
    var actual := CopyFieldTo(src, dst, d, p + 13 + |key|, key, valueLength);
    if actual.Err? {
      return Some(actual.error), 0, step;
    }
    ghost var v := CopyValue(d, p + 13 + |key|, valueLength).value;
    if keyValueLength < 0 {
      return Some(BackwardLink), 0, step;
    }
    var _ := src.Seek(keyValueStartOffset + keyValueLength);
    step := FieldCopy(key, v);
    n := 13 + |key| + actual.value;
    fault := None;
  }

  /** The reading half of that branch: readLong, readInt and readKey after the `r` at p. */
  method ReadFieldHead(src: RandomAccess, ghost d: seq<byte>, ghost p: nat) returns (r: Result<(int, JString)>)
    requires src.data == d && src.pos == p + 1
    modifies src
    ensures src.data == d
    ensures p + 9 > |d| ==> r == Err(Access)
    ensures p + 9 <= |d| ==>
      var n := DecodeLong(d[p + 1..p + 9]);
      match SlotKey(d, Entry(p, true, n))
      case Err(e) => r == Err(e)
      case Ok(key) => r == Ok((n, key)) && src.pos == p + 13 + |key|
  {
    var keyValueLength := src.ReadLong();
    if keyValueLength.Err? {
      return Err(Access);
    }
    var keyLength := src.ReadInt();
    if keyLength.Err? {
      return Err(Access);
    }
    var key := ReadKey(src, keyLength.value);
    if key.Err? {
      return Err(key.error);
    }
    r := Ok((keyValueLength.value, key.value));
  }

  /** The writing half of that branch: `r`, a zero length, the key; the value copied; the key-value length patched in. */
  method CopyFieldTo(src: RandomAccess, dst: RandomAccess, ghost d: seq<byte>, ghost at: nat, key: JString, valueLength: int)
    returns (r: Result<int>)
    requires src != dst && src.data == d && src.pos == at
    modifies src, dst
    ensures src.data == d
    ensures match CopyValue(d, at, valueLength)
      case Ok(v) => r == Ok(v.reported) && Wrote(dst, old(dst.data), old(dst.pos), FieldCopy(key, v).bytes)
      case Err(e) => r == Err(e)
    decreases |d| - at, 4, 0
  {
    ghost var d0, p0 := dst.data, dst.pos;
    var keyValueLengthOffset := dst.pos + 1;
    WriteKeyHead(dst, key);
    ghost var dh, ph := dst.data, dst.pos;
    r := CopyValueTo(src, dst, d, at, valueLength);
    if r.Err? {
      return;
    }
    ghost var v := CopyValue(d, at, valueLength).value;
    ghost var d1 := dst.data;
    var eof := dst.pos;
    PatchLong(dst, keyValueLengthOffset, 4 + |key| + r.value, eof);
    FieldCopyPatched(d0, p0, key, dh, ph, v, d1, keyValueLengthOffset);
    ghost var w := FieldCopy(key, v).bytes;
    assert dst.data == Patch(d0, p0, w) && dst.pos == p0 + |w|;
  }

  // ---------------------------------------------------------------- writeToFile's processor

  /** The copies so far, then the rest of the members' copies. */
  function Prefixed(done: seq<Copied>, r: Result<seq<Copied>>): Result<seq<Copied>>
  {
    match r
    case Err(e) => Err(e)
    case Ok(vs) => Ok(done + vs)
  }

  /** The members from i on: member i's copy first, then the others. */
  lemma CopyMembersAt(d: seq<byte>, ms: seq<Entry>, i: nat)
    requires i < |ms|
    ensures CopyMembers(d, ms[i..])
      == match CopyValue(d, ms[i].at + 9, ms[i].len)
         case Err(e) => Err(e)
         case Ok(v) => Prefixed([v], CopyMembers(d, ms[i + 1..]))
  {
    assert ms[i..][1..] == ms[i + 1..];
  }

  lemma PrefixedJoin(done: seq<Copied>, v: Copied, r: Result<seq<Copied>>)
    ensures Prefixed(done, Prefixed([v], r)) == Prefixed(done + [v], r)
  {
    if r.Ok? {
      Assoc(done, [v], r.value);
    }
  }

  lemma {:induction false} MemberSlotsSnoc(vs: seq<Copied>, v: Copied)
    ensures MemberSlots(vs + [v]) == MemberSlots(vs) + SlotCopy(v).bytes
    decreases |vs|
  {
    if vs == [] {
      assert [] + [v] == [v];
      assert MemberSlots([v]) == SlotCopy(v).bytes + MemberSlots([]);
    } else {
      assert (vs + [v])[1..] == vs[1..] + [v];
      MemberSlotsSnoc(vs[1..], v);
      Assoc(SlotCopy(vs[0]).bytes, MemberSlots(vs[1..]), SlotCopy(v).bytes);
    }
  }

  /** process() of writeToFile for the member e: `r`, a zero length, the copied value, then its length patched in. */
  method CopyMemberTo(src: RandomAccess, dst: RandomAccess, ghost d: seq<byte>, e: Entry) returns (r: Result<()>)
    requires src != dst && src.data == d
    modifies src, dst
    ensures src.data == d
    ensures match CopyValue(d, e.at + 9, e.len)
      case Ok(v) => r.Ok? && Wrote(dst, old(dst.data), old(dst.pos), SlotCopy(v).bytes)
      case Err(x) => r == Err(x)
  {
    // iterate hands the processor the source pointer at the member's payload
    var _ := src.Seek(e.at + 9);
    ghost var d0, p0 := dst.data, dst.pos;
    var lengthOffset := dst.pos + 1;
    WriteByteLong(dst, NOT_DELETED, 0);
    ghost var dh, ph := dst.data, dst.pos;
    var valueLength := CopyValueTo(src, dst, d, e.at + 9, e.len);
    if valueLength.Err? {
      return Err(valueLength.error);
    }
    ghost var v := CopyValue(d, e.at + 9, e.len).value;
    ghost var d1 := dst.data;
    var eofOffset := dst.pos;
    PatchLong(dst, lengthOffset, valueLength.value, eofOffset);
    SlotCopyPatched(d0, p0, dh, ph, v, d1, lengthOffset);
    r := Ok(());
  }

  /** The processor run over the visited members in order, up to the first failure. */
  method CopyMembersTo(src: RandomAccess, dst: RandomAccess, ghost d: seq<byte>, ms: seq<Entry>) returns (r: Result<()>)
    requires src != dst && src.data == d
    modifies src, dst
    ensures src.data == d
    ensures match CopyMembers(d, ms)
      case Ok(vs) => r.Ok? && Wrote(dst, old(dst.data), old(dst.pos), MemberSlots(vs))
      case Err(x) => r == Err(x)
  {
    ghost var d0, p0 := dst.data, dst.pos;
    ghost var done: seq<Copied> := [];
    PatchNothing(d0, p0);
    assert ms[0..] == ms;
    assert Prefixed([], CopyMembers(d, ms)) == CopyMembers(d, ms) by {
      if CopyMembers(d, ms).Ok? {
        assert [] + CopyMembers(d, ms).value == CopyMembers(d, ms).value;
      }
    }
    var i := 0;
    while i < |ms|
      invariant 0 <= i <= |ms| && src.data == d
      invariant CopyMembers(d, ms) == Prefixed(done, CopyMembers(d, ms[i..]))
      invariant Wrote(dst, d0, p0, MemberSlots(done))
    {
      ghost var d1, p1 := dst.data, dst.pos;
      CopyMembersAt(d, ms, i);
      var one := CopyMemberTo(src, dst, d, ms[i]);
      if one.Err? {
        return one;
      }
      ghost var v := CopyValue(d, ms[i].at + 9, ms[i].len).value;
      WroteMore(dst, d0, p0, MemberSlots(done), SlotCopy(v).bytes, d1, p1);
      MemberSlotsSnoc(done, v);
      PrefixedJoin(done, v, CopyMembers(d, ms[i + 1..]));
      done := done + [v];
      i := i + 1;
    }
    assert done + [] == done;
    r := Ok(());
  }

  /**
   * writeToFile after the `C` and the count lookup: the count written, every
   * visited member copied as a slot, the terminator; the new file's bytes.
   */
  method WriteCompacted(src: RandomAccess, dst: RandomAccess, ghost existing: seq<byte>, count: int, s: Scan)
    returns (r: Result<seq<byte>>)
    requires src != dst && dst.data == Patch(existing, 0, [COLLECTION]) && dst.pos == 1
    modifies src, dst
    ensures src.data == old(src.data)
    ensures match Compacted(old(src.data), count, s)
      case Err(e) => r == Err(e)
      case Ok(out) => r == Ok(Patch(existing, 0, out))
  {
    ghost var d := src.data;
    dst.WriteLong(count);
    PatchThen(existing, 0, [COLLECTION], EncodeLong(count));
    ghost var d1, p1 := dst.data, dst.pos;
    var copied := CopyMembersTo(src, dst, d, s.members);
    if copied.Err? {
      return Err(copied.error);
    }
    if s.fault.Some? {
      return Err(s.fault.value);
    }
    ghost var body := MemberSlots(CopyMembers(d, s.members).value);
    ghost var d2, p2 := dst.data, dst.pos;
    WriteByteLong(dst, HAS_NOT_TAIL, 0);
    PatchThen3(existing, 0, [COLLECTION] + EncodeLong(count), d1, p1, body, d2, p2, Terminator());
    r := Ok(dst.data);
  }

  /**
   * writeToFile as a whole, once getCount has answered: the file whose old
   * contents are existing, overwritten from offset 0 by the compacted
   * collection.
   */
  function Exported(existing: seq<byte>, d: seq<byte>, count: Result<int>, s: Scan): Result<seq<byte>>
  {
    match count
    case Err(e) => Err(e)
    case Ok(c) =>
      match Compacted(d, c, s)
      case Err(e) => Err(e)
      case Ok(out) => Ok(Patch(existing, 0, out))
  }

  // ---------------------------------------------------------------- what the copy preserves

  /** Writing each char of a key read by readKey gives back the key's bytes: keys are copied verbatim. */
  lemma KeyBytesOfText(bs: seq<byte>)
    ensures KeyBytes(KeyText(bs)) == bs
  {
    var r := KeyBytes(KeyText(bs));
    forall i | 0 <= i < |bs|
      ensures r[i] == bs[i]
    {
      var b := bs[i];
      assert r[i] as int == KeyChar(b) as int % 256;
      if b >= 128 {
        assert KeyChar(b) as int == b as int + 0xFF00;
        assert (b as int + 0xFF00) % 256 == b as int;
      }
    }
  }

  /**
   * On a file of at most Integer.MAX_VALUE bytes, a copy that succeeds
   * reports exactly the number of bytes it wrote, provided the length it
   * was handed stays inside the file (and is not below -Integer.MAX_VALUE,
   * where the int cast of a scalar's size would wrap).
   */
  lemma {:induction false} CopyValueExact(d: seq<byte>, q: nat, length: int)
    requires |d| <= INT_MAX && -INT_MAX <= length && q + length <= |d|
    ensures CopyValue(d, q, length).Ok? ==> Exact(CopyValue(d, q, length).value)
    decreases |d| - q, 3, 0
  {
    if q < |d| {
      if d[q] == COLLECTION {
        CopyCollectionExact(d, q);
      } else if d[q] == OBJECT {
        CopyObjectExact(d, q);
      } else if d[q] == VALUE {
        assert IsInt(length - 1);
      }
    }
  }

  lemma {:induction false} CopyCollectionExact(d: seq<byte>, q: nat)
    requires |d| <= INT_MAX
    ensures CopyCollection(d, q).Ok? ==> Exact(CopyCollection(d, q).value)
    decreases |d| - q, 2, 0
  {
    if q + 9 <= |d| {
      CollectionRestExact(d, q, q + 9);
    }
  }

  lemma {:induction false} CollectionRestExact(d: seq<byte>, q: nat, p: nat)
    requires |d| <= INT_MAX && q < p
    ensures CollectionRest(d, q, p).Ok? ==> Exact(CollectionRest(d, q, p).value)
    decreases |d| - q, 1, |d| - p
  {
    if p < |d| && d[p] != HAS_NOT_TAIL {
      if d[p] == HAS_TAIL {
        CollectionRestExact(d, q, p + 1);
      } else if (d[p] == DELETED || d[p] == NOT_DELETED) && p + 9 <= |d| {
        var n := DecodeLong(d[p + 1..p + 9]);
        if n >= 0 {
          CollectionRestExact(d, q, p + 9 + n);
          if d[p] == NOT_DELETED && p + 9 + n <= |d| {
            CopyValueExact(d, p + 9, n);
          }
        }
      }
    }
  }

  lemma {:induction false} CopyObjectExact(d: seq<byte>, q: nat)
    requires |d| <= INT_MAX
    ensures CopyObject(d, q).Ok? ==> Exact(CopyObject(d, q).value)
    decreases |d| - q, 2, 0
  {
    ObjectRestExact(d, q, q + 1);
  }

  lemma {:induction false} ObjectRestExact(d: seq<byte>, q: nat, p: nat)
    requires |d| <= INT_MAX && q < p
    ensures ObjectRest(d, q, p).Ok? ==> Exact(ObjectRest(d, q, p).value)
    decreases |d| - q, 1, |d| - p
  {
    if p < |d| && d[p] != HAS_NOT_TAIL && (d[p] == HAS_TAIL || d[p] == DELETED || d[p] == NOT_DELETED) && p + 9 <= |d| {
      var n := DecodeLong(d[p + 1..p + 9]);
      if d[p] == HAS_TAIL {
        if n >= p + 9 {
          ObjectRestExact(d, q, n);
        }
      } else if n >= 0 {
        ObjectRestExact(d, q, p + 9 + n);
        if d[p] == NOT_DELETED && p + 9 + n <= |d| {
          FieldAtExact(d, q, p, n);
        }
      }
    }
  }

  lemma {:induction false} FieldAtExact(d: seq<byte>, q: nat, p: nat, n: int)
    requires |d| <= INT_MAX && q < p && 0 <= n && p + 9 + n <= |d|
    ensures FieldAt(d, q, p, n).Ok? ==> Exact(FieldAt(d, q, p, n).value)
    decreases |d| - q, 0, 0
  {
    var k := SlotKey(d, Entry(p, true, n));
    if k.Ok? {
      var key := k.value;
      assert p + 13 + |key| <= |d|;
      CopyValueExact(d, p + 13 + |key|, n - 4 - |key|);
      assert |KeyBytes(key)| == |key|;
    }
  }

  // ---------------------------------------------------------------- the compacted file

  /** Members whose payloads lie inside the file. */
  predicate MembersWithin(d: seq<byte>, ms: seq<Entry>)
  {
    forall i :: 0 <= i < |ms| ==> 0 <= ms[i].len && ms[i].at + 9 + ms[i].len <= |d|
  }

  /** The copies CopyMembers returns, one per member, each that member's copy. */
  lemma {:induction false} CopyMembersEach(d: seq<byte>, ms: seq<Entry>)
    requires CopyMembers(d, ms).Ok?
    ensures |CopyMembers(d, ms).value| == |ms|
    ensures forall i :: 0 <= i < |ms| ==> CopyValue(d, ms[i].at + 9, ms[i].len) == Ok(CopyMembers(d, ms).value[i])
    decreases |ms|
  {
    if ms != [] {
      var vs := CopyMembers(d, ms).value;
      CopyMembersEach(d, ms[1..]);
      assert vs[1..] == CopyMembers(d, ms[1..]).value;
      forall i | 1 <= i < |ms|
        ensures CopyValue(d, ms[i].at + 9, ms[i].len) == Ok(vs[i])
      {
        assert ms[1..][i - 1] == ms[i];
      }
    }
  }

  /** Exact copies make the member slots the plain slots of their bytes. */
  lemma {:induction false} MemberSlotsExact(vs: seq<Copied>)
    requires forall i :: 0 <= i < |vs| ==> Exact(vs[i])
    ensures MemberSlots(vs) == Slots(CopiedBytes(vs))
    decreases |vs|
  {
    if vs != [] {
      MemberSlotsExact(vs[1..]);
      assert CopiedBytes(vs)[1..] == CopiedBytes(vs[1..]);
      assert SlotCopy(vs[0]).bytes == Slot(vs[0].bytes);
    }
  }

  /** A file as writeToFile lays it out: `C`, a count, one slot per body, the terminator. */
  function ExportLayout(count: int, bodies: seq<seq<byte>>): seq<byte>
  {
    [COLLECTION] + EncodeLong(count) + Slots(bodies) + Terminator()
  }

  /**
   * The file writeToFile produces from members lying inside a source of at
   * most Integer.MAX_VALUE bytes holds, after `C` and the count, one slot
   * per member in visiting order, each holding exactly that member's copy
   * under its true length.
   */
  lemma CompactedLayout(d: seq<byte>, count: int, s: Scan, out: seq<byte>)
    requires Compacted(d, count, s) == Ok(out)
    requires |d| <= INT_MAX && MembersWithin(d, s.members)
    ensures s.fault.None? && CopyMembers(d, s.members).Ok?
    ensures var bodies := CopiedBytes(CopyMembers(d, s.members).value);
      && |bodies| == |s.members|
      && (forall i :: 0 <= i < |bodies| ==>
            CopyValue(d, s.members[i].at + 9, s.members[i].len) == Ok(Copied(bodies[i], |bodies[i]|)))
      && out == ExportLayout(count, bodies)
  {
    var vs := CopyMembers(d, s.members).value;
    CopyMembersEach(d, s.members);
    forall i | 0 <= i < |vs|
      ensures Exact(vs[i])
    {
      CopyValueExact(d, s.members[i].at + 9, s.members[i].len);
    }
    MemberSlotsExact(vs);
  }

  /**
   * A walk of such a file from offset 9, whether or not it follows tails,
   * finds exactly those slots, all live, and ends on the terminator; the
   * count reads back.
   */
  lemma ExportLayoutWalk(count: int, bodies: seq<seq<byte>>)
    requires |ExportLayout(count, bodies)| < TWO_63
    ensures var out := ExportLayout(count, bodies);
      && Walk(out, 9, true) == Chain(SlotEntries(9, bodies), End(|out| - 9))
      && Walk(out, 9, false) == Chain(SlotEntries(9, bodies), End(|out| - 9))
      && ScanFrom(out, 9) == Scan(SlotEntries(9, bodies), None)
  {
    var out := ExportLayout(count, bodies);
    ExportLayoutParts(count, bodies);
    SlotsThenEnd(out, bodies);
  }

  /** Where the slots and the terminator of an exported file lie. */
  lemma ExportLayoutParts(count: int, bodies: seq<seq<byte>>)
    ensures var out := ExportLayout(count, bodies);
      var slots := Slots(bodies);
      && |out| == 18 + |slots|
      && out[9..9 + |slots|] == slots
      && out[9 + |slots|] == HAS_NOT_TAIL
  {
    var out := ExportLayout(count, bodies);
    var slots := Slots(bodies);
    assert out[9..9 + |slots|] == slots;
  }

  /** A file holding slots from offset 9 and a terminator after them: its walks and scan from 9. */
  lemma SlotsThenEnd(g: seq<byte>, bodies: seq<seq<byte>>)
    requires |g| < TWO_63 && |g| == 18 + |Slots(bodies)|
    requires g[9..9 + |Slots(bodies)|] == Slots(bodies) && g[9 + |Slots(bodies)|] == HAS_NOT_TAIL
    ensures && Walk(g, 9, true) == Chain(SlotEntries(9, bodies), End(|g| - 9))
            && Walk(g, 9, false) == Chain(SlotEntries(9, bodies), End(|g| - 9))
            && ScanFrom(g, 9) == Scan(SlotEntries(9, bodies), None)
  {
    WalkSegment(g, 9, bodies, true);
    WalkSegment(g, 9, bodies, false);
    SlotEntriesLive(9, bodies);
  }

  /** The exported file starts with `C` and the count it was given, which reads back. */
  lemma ExportLayoutCount(count: int, bodies: seq<seq<byte>>)
    requires IsLong(count)
    ensures var out := ExportLayout(count, bodies);
      out[0] == COLLECTION && StoredCount(out, 1) == Ok(count)
  {
    var out := ExportLayout(count, bodies);
    assert out[1..9] == EncodeLong(count);
    LongRoundTrip(count);
  }

  /** Every slot of a walk that reached its terminator lies before that terminator. */
  predicate EntriesBefore(es: seq<Entry>, bound: int)
  {
    forall k :: 0 <= k < |es| ==> 0 <= es[k].len && es[k].at + 9 + es[k].len <= bound
  }

  lemma {:induction false} WalkBefore(f: seq<byte>, p: nat, followTails: bool)
    ensures var c := Walk(f, p, followTails);
      c.stop.End? ==> EntriesBefore(c.entries, c.stop.at) && c.stop.at < |f|
    decreases |f| - p
  {
    if p < |f| && f[p] != HAS_NOT_TAIL {
      if f[p] == HAS_TAIL && !followTails {
        assert Walk(f, p, followTails) == Walk(f, p + 1, false);
        WalkBefore(f, p + 1, false);
      } else if (f[p] == HAS_TAIL || f[p] == DELETED || f[p] == NOT_DELETED) && p + 9 <= |f| {
        var n := DecodeLong(f[p + 1..p + 9]);
        if f[p] == HAS_TAIL && n >= p + 9 {
          WalkBefore(f, n, true);
        } else if f[p] != HAS_TAIL && n >= 0 {
          var e := Entry(p, f[p] == NOT_DELETED, n);
          var rest := Walk(f, p + 9 + n, followTails);
          WalkBefore(f, p + 9 + n, followTails);
          assert Walk(f, p, followTails) == Cons(e, rest);
          WalkEnd(f, p + 9 + n, followTails);
        }
      }
    }
  }

  /**
   * The members iterate visits in a chain view whose walk ended cleanly
   * lie inside the file, so CompactedLayout applies to every root or
   * nested collection.
   */
  lemma ScanWithin(d: seq<byte>, at: nat)
    requires ScanFrom(d, at).fault.None?
    ensures MembersWithin(d, ScanFrom(d, at).members)
  {
    var c := Walk(d, at, true);
    WalkBefore(d, at, true);
    LiveEntriesLive(c.entries);
    forall i | 0 <= i < |ScanFrom(d, at).members|
      ensures 0 <= ScanFrom(d, at).members[i].len && ScanFrom(d, at).members[i].at + 9 + ScanFrom(d, at).members[i].len <= |d|
    {
      var e := ScanFrom(d, at).members[i];
      assert e in c.entries;
      var k :| 0 <= k < |c.entries| && c.entries[k] == e;
    }
  }
}
