/**
 * readValue, readObject, readKeyValue and readCollection of YashoDB.java:
 * turning a stored node back into a document value.  ValueAt and the two
 * folds over a walked chain say what a node reads as; the methods read the
 * file through the pointer, one tag at a time, as the source does, and are
 * proved to return exactly that.
 *
 * A YashON being filled is its list of entries (put is PutField after
 * Validate); numbers were stored as text and read back as strings.
 */
module Reader {
  import opened Bytes
  import opened Text
  import opened Results
  import opened Values
  import opened Chains
  import opened FileAccess
  import opened Walker

  /** readValue(length, false) at q: the document value whose node starts there. */
  function ValueAt(f: seq<byte>, q: nat): Result<Value>
    requires q <= |f|
    decreases |f| - q, 2
  {
    if q == |f| then Err(Access)
    else if f[q] == OBJECT then FieldsFrom(f, q + 1, q + 1, [])
    else if f[q] == NULL then Ok(Null)
    else if f[q] == COLLECTION then
      if q + 9 > |f| then Err(Access)
      else if DecodeLong(f[q + 1..q + 9]) > INT_MAX then Err(IllegalState)
      else ItemsFrom(f, q + 9, q + 9, [])
    else if f[q] == VALUE then
      match ReadUtfAt(f, q + 1)
      case Ok(read) => Ok(Str(read.0))
      case Err(e) => Err(e)
    else Err(IllegalState)
  }

  /** readObject from the tag at at on, with acc the entries put so far; lo bounds every slot from below. */
  function FieldsFrom(f: seq<byte>, lo: nat, at: nat, acc: seq<Field>): Result<Value>
    requires lo <= at
    decreases |f| - lo, 1, 0
  {
    var w := Walk(f, at, true);
    WalkSlots(f, at, true);
    FieldsOver(f, lo, w.entries, w.stop, acc)
  }

  /** readObject over the slots of a walk: each live slot's key and value are put, in order. */
  function FieldsOver(f: seq<byte>, lo: nat, es: seq<Entry>, stop: Stop, acc: seq<Field>): Result<Value>
    requires SlotsFrom(f, lo, es)
    decreases |f| - lo, 0, |es| + 1
  {
    if es == [] then
      if stop.End? then Ok(Obj(acc)) else Err(StopError(stop, IllegalState))
    else if !es[0].live then FieldsOver(f, lo, es[1..], stop, acc)
    else
      match PutEntry(f, lo, es[0], acc)
      case Err(x) => Err(x)
      case Ok(put) => FieldsOver(f, lo, es[1..], stop, put)
  }

  /** readKeyValue on the live slot e: its key, then its value put into acc. */
  function PutEntry(f: seq<byte>, lo: nat, e: Entry, acc: seq<Field>): Result<seq<Field>>
    requires lo <= e.at
    decreases |f| - lo, 0, 1
  {
    match SlotKey(f, e)
    case Err(x) => Err(x)
    case Ok(k) => PutValue(f, lo, e.at, k, acc)
  }

  /** The rest of readKeyValue once the key k of the slot at at is read: readValue, then put. */
  function PutValue(f: seq<byte>, lo: nat, at: nat, k: JString, acc: seq<Field>): Result<seq<Field>>
    requires lo <= at && at + 13 + |k| <= |f|
    decreases |f| - lo, 0, 0
  {
    match ValueAt(f, at + 13 + |k|)
    case Err(x) => Err(x)
    case Ok(v) =>
      match Validate(k, Storable(v))
      case Err(x) => Err(x)
      case Ok(v') => Ok(PutField(acc, k, v'))
  }

  /** readCollection from the tag at at on, with acc the items put so far. */
  function ItemsFrom(f: seq<byte>, lo: nat, at: nat, acc: seq<Value>): Result<Value>
    requires lo <= at
    decreases |f| - lo, 1, 0
  {
    var w := Walk(f, at, true);
    WalkSlots(f, at, true);
    ItemsOver(f, lo, w.entries, w.stop, acc)
  }

  /** readCollection over the slots of a walk: each live slot's value is appended, in order. */
  function ItemsOver(f: seq<byte>, lo: nat, es: seq<Entry>, stop: Stop, acc: seq<Value>): Result<Value>
    requires SlotsFrom(f, lo, es)
    decreases |f| - lo, 0, |es|
  {
    if es == [] then
      if stop.End? then Ok(Arr(acc)) else Err(StopError(stop, IllegalState))
    else if !es[0].live then ItemsOver(f, lo, es[1..], stop, acc)
    else
      match ValueAt(f, es[0].at + 9)
      case Err(x) => Err(x)
      case Ok(v) => ItemsOver(f, lo, es[1..], stop, acc + [v])
  }

  // ---------------------------------------------------------------- one tag at a time

  /** Where readObject or readCollection stops without reading on. */
  lemma FoldAtStop(f: seq<byte>, lo: nat, at: nat, fields: seq<Field>, items: seq<Value>)
    requires lo <= at
    requires at >= |f| || (f[at] != HAS_TAIL && f[at] != DELETED && f[at] != NOT_DELETED)
    ensures FieldsFrom(f, lo, at, fields)
      == if at >= |f| then Err(Access) else if f[at] == HAS_NOT_TAIL then Ok(Obj(fields)) else Err(IllegalState)
    ensures ItemsFrom(f, lo, at, items)
      == if at >= |f| then Err(Access) else if f[at] == HAS_NOT_TAIL then Ok(Arr(items)) else Err(IllegalState)
  {
    WalkAtStop(f, at, true);
  }

  /** A slot cut off by the end of the file. */
  lemma FoldAtShortSlot(f: seq<byte>, lo: nat, at: nat, fields: seq<Field>, items: seq<Value>)
    requires lo <= at < |f| < at + 9 && (f[at] == DELETED || f[at] == NOT_DELETED)
    ensures FieldsFrom(f, lo, at, fields) == Err(Access)
    ensures ItemsFrom(f, lo, at, items) == Err(Access)
  {
    WalkAtShortSlot(f, at, true);
  }

  /** A tail link: the fold goes on where the link points. */
  lemma FoldAtTail(f: seq<byte>, lo: nat, at: nat, next: nat, fields: seq<Field>, items: seq<Value>)
    requires lo <= at <= next && Walk(f, at, true) == Walk(f, next, true)
    ensures FieldsFrom(f, lo, at, fields) == FieldsFrom(f, lo, next, fields)
    ensures ItemsFrom(f, lo, at, items) == ItemsFrom(f, lo, next, items)
  {
  }

  /** A removed slot is stepped over by its length. */
  lemma FoldAtRemoved(f: seq<byte>, lo: nat, at: nat, fields: seq<Field>, items: seq<Value>)
    requires lo <= at && at + 9 <= |f| && f[at] == DELETED
    ensures var n := DecodeLong(f[at + 1..at + 9]);
      FieldsFrom(f, lo, at, fields) == (if n < 0 then Err(BackwardLink) else FieldsFrom(f, lo, at + 9 + n, fields))
      && ItemsFrom(f, lo, at, items) == (if n < 0 then Err(BackwardLink) else ItemsFrom(f, lo, at + 9 + n, items))
  {
    var n := DecodeLong(f[at + 1..at + 9]);
    var e := Entry(at, false, n);
    var w := Walk(f, at, true);
    WalkAtSlotCases(f, at, true);
    WalkSlots(f, at, true);
    if n >= 0 {
      var rest := Walk(f, at + 9 + n, true);
      assert w == Cons(e, rest);
      assert w.entries[1..] == rest.entries;
    } else {
      assert w == Chain([e], Backward);
      assert FieldsOver(f, lo, w.entries, w.stop, fields) == FieldsOver(f, lo, [], Backward, fields);
      assert ItemsOver(f, lo, w.entries, w.stop, items) == ItemsOver(f, lo, [], Backward, items);
    }
  }

  /** readKeyValue at a live object slot: the key, the value, the put, then on past the slot. */
  lemma FieldsAtLive(f: seq<byte>, lo: nat, at: nat, acc: seq<Field>)
    requires lo <= at && at + 9 <= |f| && f[at] == NOT_DELETED
    ensures var n := DecodeLong(f[at + 1..at + 9]);
      FieldsFrom(f, lo, at, acc)
      == match PutEntry(f, lo, Entry(at, true, n), acc)
         case Err(x) => Err(x)
         case Ok(put) => if n < 0 then Err(BackwardLink) else FieldsFrom(f, lo, at + 9 + n, put)
  {
    var n := DecodeLong(f[at + 1..at + 9]);
    var e := Entry(at, true, n);
    var w := Walk(f, at, true);
    WalkAtSlotCases(f, at, true);
    WalkSlots(f, at, true);
    if n >= 0 {
      var rest := Walk(f, at + 9 + n, true);
      assert w == Cons(e, rest);
      assert w.entries[1..] == rest.entries;
    } else {
      assert w == Chain([e], Backward);
      match PutEntry(f, lo, e, acc)
      case Err(_) =>
      case Ok(put) =>
        assert FieldsOver(f, lo, w.entries, w.stop, acc) == FieldsOver(f, lo, [], Backward, put);
    }
  }

  /** readCollection at a live slot: its value is appended, then on past the slot. */
  lemma ItemsAtLive(f: seq<byte>, lo: nat, at: nat, acc: seq<Value>)
    requires lo <= at && at + 9 <= |f| && f[at] == NOT_DELETED
    ensures var n := DecodeLong(f[at + 1..at + 9]);
      ItemsFrom(f, lo, at, acc)
      == match ValueAt(f, at + 9)
         case Err(x) => Err(x)
         case Ok(v) => if n < 0 then Err(BackwardLink) else ItemsFrom(f, lo, at + 9 + n, acc + [v])
  {
    var n := DecodeLong(f[at + 1..at + 9]);
    var e := Entry(at, true, n);
    var w := Walk(f, at, true);
    WalkAtSlotCases(f, at, true);
    WalkSlots(f, at, true);
    if n >= 0 {
      var rest := Walk(f, at + 9 + n, true);
      assert w == Cons(e, rest);
      assert w.entries[1..] == rest.entries;
    } else {
      assert w == Chain([e], Backward);
      match ValueAt(f, at + 9)
      case Err(_) =>
      case Ok(v) =>
        assert ItemsOver(f, lo, w.entries, w.stop, acc) == ItemsOver(f, lo, [], Backward, acc + [v]);
    }
  }

  // ---------------------------------------------------------------- the readers

  /** readValue(length, false): the value whose node starts at the pointer. */
  method ReadValue(f: RandomAccess, ghost d: seq<byte>) returns (r: Result<Value>)
    requires f.data == d && f.pos <= |d|
    modifies f
    ensures f.data == d
    ensures r == ValueAt(d, old(f.pos))
    decreases |d| - f.pos, 4
  {
    var q := f.pos;
    var c := f.ReadByte();
    if c.Err? {
      return Err(Access);
    }
    var tag := c.value;
    if tag == OBJECT {
      r := ReadObject(f, d);
    } else if tag == NULL {
      r := Ok(Null);
    } else if tag == COLLECTION {
      r := ReadCollection(f, d);
    } else if tag == VALUE {
      r := ReadStringValue(f, d);
    } else {
      r := Err(IllegalState);
    }
  }

  /** readStringValue: DataInput.readUTF at the pointer. */
  method ReadStringValue(f: RandomAccess, ghost d: seq<byte>) returns (r: Result<Value>)
    requires f.data == d
    modifies f
    ensures f.data == d
    ensures r == match ReadUtfAt(d, old(f.pos)) case Ok(read) => Ok(Str(read.0)) case Err(e) => Err(e)
  {
    var read :- ReadUtfAt(f.data, f.pos);
    var _ := f.Seek(read.1);
    return Ok(Str(read.0));
  }

  /** readObject: a fresh YashON filled from the object chain at the pointer. */
  method ReadObject(f: RandomAccess, ghost d: seq<byte>) returns (r: Result<Value>)
    requires f.data == d && 1 <= f.pos <= |d|
    modifies f
    ensures f.data == d
    ensures r == FieldsFrom(d, old(f.pos), old(f.pos), [])
    decreases |d| - f.pos, 3
  {
    ghost var lo := f.pos;
    var fields: seq<Field> := [];
    var c := f.ReadByte();
    if c.Err? {
      FoldAtStop(d, lo, lo, [], []);
      return Err(Access);
    }
    var tag := c.value;
    while tag != HAS_NOT_TAIL
      invariant f.data == d && lo + 1 <= f.pos <= |d| && d[f.pos - 1] == tag
      invariant FieldsFrom(d, lo, lo, []) == FieldsFrom(d, lo, f.pos - 1, fields)
      decreases |d| - f.pos
    {
      var more;
      more, fields := ObjectRound(f, d, lo, tag, fields);
      if more.Err? {
        return Err(more.error);
      }
      var next := f.ReadByte();
      if next.Err? {
        FoldAtStop(d, lo, f.pos, fields, []);
        return Err(Access);
      }
      tag := next.value;
    }
    FoldAtStop(d, lo, f.pos - 1, fields, []);
    return Ok(Obj(fields));
  }

  /** One round of readObject's loop, from just after the tag byte tag. */
  method ObjectRound(f: RandomAccess, ghost d: seq<byte>, ghost lo: nat, tag: byte, fields: seq<Field>)
    returns (r: Result<()>, fields': seq<Field>)
    requires f.data == d && lo + 1 <= f.pos <= |d| && d[f.pos - 1] == tag && tag != HAS_NOT_TAIL
    modifies f
    ensures f.data == d
    ensures var goal := FieldsFrom(d, lo, old(f.pos) - 1, fields);
      match r
      case Ok(_) => old(f.pos) <= f.pos && goal == FieldsFrom(d, lo, f.pos, fields')
      case Err(x) => goal == Err(x)
    decreases |d| - lo, 2
  {
    var at := f.pos - 1;
    fields' := fields;
    if tag == NOT_DELETED {
      r, fields' := ReadKeyValue(f, d, lo, fields);
    } else if tag == DELETED {
      if at + 9 > |d| {
        FoldAtShortSlot(d, lo, at, fields, []);
      } else {
        FoldAtRemoved(d, lo, at, fields, []);
      }
      var length :- f.ReadLong();
      if length < 0 {
        return Err(BackwardLink), fields;
      }
      var _ := f.Seek(f.pos + length);
      return Ok(()), fields;
    } else if tag == HAS_TAIL {
      r := FollowTail(f, d);
      if r.Ok? {
        FoldAtTail(d, lo, at, f.pos, fields, []);
      }
    } else {
      FoldAtStop(d, lo, at, fields, []);
      return Err(IllegalState), fields;
    }
  }

  /** readKeyValue: the slot's key and value, put into the entries; the pointer is left past the slot. */
  method ReadKeyValue(f: RandomAccess, ghost d: seq<byte>, ghost lo: nat, fields: seq<Field>)
    returns (r: Result<()>, fields': seq<Field>)
    requires f.data == d && lo + 1 <= f.pos <= |d| && d[f.pos - 1] == NOT_DELETED
    modifies f
    ensures f.data == d
    ensures var goal := FieldsFrom(d, lo, old(f.pos) - 1, fields);
      match r
      case Ok(_) => old(f.pos) <= f.pos && goal == FieldsFrom(d, lo, f.pos, fields')
      case Err(x) => goal == Err(x)
    decreases |d| - lo, 1
  {
    var at := f.pos - 1;
    fields' := fields;
    if at + 9 > |d| {
      FoldAtShortSlot(d, lo, at, fields, []);
    } else {
      FieldsAtLive(d, lo, at, fields);
    }
    var keyValueLength :- f.ReadLong();
    var keyLength :- f.ReadInt();
    var key :- ReadKey(f, keyLength);
    var put;
    put, fields' := PutKeyValue(f, d, lo, at, key, fields);
    if put.Err? {
      return Err(put.error), fields';
    }
    if keyValueLength < 0 {
      return Err(BackwardLink), fields';
    }
    KeyValueStep(d, lo, at, keyValueLength, key, fields, fields');
    var valueLength := keyValueLength - keyLength - 4;
    var valuePosition := at + 13 + keyLength;
    var _ := f.Seek(valuePosition + valueLength);
    return Ok(()), fields';
  }

  /** readKeyValue past a live slot whose key and value were put: readObject goes on after the slot. */
  lemma KeyValueStep(d: seq<byte>, lo: nat, at: nat, n: int, key: JString, fields: seq<Field>, put: seq<Field>)
    requires lo <= at && at + 9 <= |d| && d[at] == NOT_DELETED && n == DecodeLong(d[at + 1..at + 9]) && n >= 0
    requires SlotKey(d, Entry(at, true, n)) == Ok(key) && at + 13 + |key| <= |d|
    requires PutValue(d, lo, at, key, fields) == Ok(put)
    ensures FieldsFrom(d, lo, at, fields) == FieldsFrom(d, lo, at + 9 + n, put)
  {
    FieldsAtLive(d, lo, at, fields);
  }

  /** readValue at the pointer and put under key: the part of readKeyValue after the key. */
  method PutKeyValue(f: RandomAccess, ghost d: seq<byte>, ghost lo: nat, ghost at: nat, key: JString, fields: seq<Field>)
    returns (r: Result<()>, fields': seq<Field>)
    requires f.data == d && lo <= at && f.pos == at + 13 + |key| <= |d|
    modifies f
    ensures f.data == d
    ensures match PutValue(d, lo, at, key, fields)
            case Err(x) => r == Err(x)
            case Ok(put) => r.Ok? && fields' == put
    decreases |d| - lo, 0
  {
    fields' := fields;
    var value :- ReadValue(f, d);
    var stored :- Validate(key, Storable(value));
    fields' := PutField(fields, key, stored);
    return Ok(()), fields';
  }

  /** readCollection: the count (at most Integer.MAX_VALUE), then a fresh YashAN filled from the chain. */
  method ReadCollection(f: RandomAccess, ghost d: seq<byte>) returns (r: Result<Value>)
    requires f.data == d && 1 <= f.pos <= |d|
    modifies f
    ensures f.data == d
    ensures r == if old(f.pos) + 8 > |d| then Err(Access)
                 else if DecodeLong(d[old(f.pos)..old(f.pos) + 8]) > INT_MAX then Err(IllegalState)
                 else ItemsFrom(d, old(f.pos) + 8, old(f.pos) + 8, [])
    decreases |d| - f.pos, 3
  {
    var count :- f.ReadLong();
    if count > INT_MAX {
      return Err(IllegalState);
    }
    ghost var lo := f.pos;
    var items: seq<Value> := [];
    var c := f.ReadByte();
    if c.Err? {
      FoldAtStop(d, lo, lo, [], []);
      return Err(Access);
    }
    var tag := c.value;
    while tag != HAS_NOT_TAIL
      invariant f.data == d && lo + 1 <= f.pos <= |d| && d[f.pos - 1] == tag
      invariant ItemsFrom(d, lo, lo, []) == ItemsFrom(d, lo, f.pos - 1, items)
      decreases |d| - f.pos
    {
      var more;
      more, items := CollectionRound(f, d, lo, tag, items);
      if more.Err? {
        return Err(more.error);
      }
      var next := f.ReadByte();
      if next.Err? {
        FoldAtStop(d, lo, f.pos, [], items);
        return Err(Access);
      }
      tag := next.value;
    }
    FoldAtStop(d, lo, f.pos - 1, [], items);
    return Ok(Arr(items));
  }

  /** One round of readCollection's loop, from just after the tag byte tag. */
  method CollectionRound(f: RandomAccess, ghost d: seq<byte>, ghost lo: nat, tag: byte, items: seq<Value>)
    returns (r: Result<()>, items': seq<Value>)
    requires f.data == d && lo + 1 <= f.pos <= |d| && d[f.pos - 1] == tag && tag != HAS_NOT_TAIL
    modifies f
    ensures f.data == d
    ensures var goal := ItemsFrom(d, lo, old(f.pos) - 1, items);
      match r
      case Ok(_) => old(f.pos) <= f.pos && goal == ItemsFrom(d, lo, f.pos, items')
      case Err(x) => goal == Err(x)
    decreases |d| - lo, 1
  {
    var at := f.pos - 1;
    items' := items;
    if tag == NOT_DELETED || tag == DELETED {
      if at + 9 > |d| {
        FoldAtShortSlot(d, lo, at, [], items);
      } else if tag == DELETED {
        FoldAtRemoved(d, lo, at, [], items);
      } else {
        ItemsAtLive(d, lo, at, items);
      }
      var objectLength :- f.ReadLong();
      var objectPosition := f.pos;
      if tag == NOT_DELETED {
        var value :- ReadValue(f, d);
        items' := items + [value];
      }
      if objectLength < 0 {
        return Err(BackwardLink), items';
      }
      var _ := f.Seek(objectPosition + objectLength);
      return Ok(()), items';
    } else if tag == HAS_TAIL {
      r := FollowTail(f, d);
      if r.Ok? {
        FoldAtTail(d, lo, at, f.pos, [], items);
      }
    } else {
      FoldAtStop(d, lo, at, [], items);
      return Err(IllegalState), items;
    }
  }
}
