/**
 * What the engine writes for a document (YashoDB.java, writeValue and the
 * methods it calls).  The encoders are stated as functions of the value;
 * the writers move the file pointer byte group by byte group, back-patch
 * every length field once its payload is written, and are proved to leave
 * exactly the encoding behind them and to return its length.
 */
module Encoding {
  import opened Bytes
  import opened Text
  import opened Values
  import opened Results
  import opened Chains
  import opened FileAccess

  /** `t` and a zero offset: the end of a chain that has no continuation. */
  function Terminator(): (r: seq<byte>)
    ensures |r| == 9 && r[0] == HAS_NOT_TAIL
  {
    [HAS_NOT_TAIL] + EncodeLong(0)
  }

  /** writeByte(kc) for each char of a key keeps its low 8 bits. */
  function KeyBytes(key: JString): (r: seq<byte>)
    ensures |r| == |key|
    ensures forall i :: 0 <= i < |key| ==> r[i] as int == key[i] as int % 256
  {
    seq(|key|, i requires 0 <= i < |key| => (key[i] as int % 256) as byte)
  }

  /** A scalar writeUTF accepts: its modified UTF-8 body fits the 2-byte length. */
  predicate TextFits(s: JString)
  {
    EncodedLength(s) < TWO_16
  }

  /** Every string inside v can be written (writeUTF throws for the others). */
  predicate Writable(v: Value)
    decreases v, 1
  {
    match v
    case Str(s) => TextFits(s)
    case Num(n) => TextFits(DecimalText(n))
    case Obj(fields) => forall i :: 0 <= i < |fields| ==> Writable(fields[i].value)
    case Arr(items) => forall i :: 0 <= i < |items| ==> Writable(items[i])
    case Null => true
  }

  /** `V` and what writeUTF emits. */
  function TextNode(s: JString): (r: seq<byte>)
    ensures TextFits(s) ==> |r| == 3 + EncodedLength(s)
  {
    [VALUE] + (match WriteUtf(s) case Some(w) => w case None => [])
  }

  /** A live slot holding body: `r`, the body's length, the body. */
  function Slot(body: seq<byte>): (r: seq<byte>)
    ensures |r| == 9 + |body|
  {
    [NOT_DELETED] + EncodeLong(|body|) + body
  }

  /** A live object slot: `r`, the length of what follows it, the key's length, the key, the value. */
  function KeyValueSlot(key: JString, body: seq<byte>): (r: seq<byte>)
    ensures |r| == 13 + |key| + |body|
  {
    [NOT_DELETED] + EncodeLong(4 + |key| + |body|) + EncodeInt(|key|) + KeyBytes(key) + body
  }

  /** The node writeValue emits for a document value. */
  function EncodeValue(v: Value): seq<byte>
    decreases v, 1
  {
    match v
    case Null => [NULL]
    case Str(s) => TextNode(s)
    case Num(n) => TextNode(DecimalText(n))
    case Obj(fields) => [OBJECT] + EncodeEntries(fields) + Terminator()
    case Arr(items) => [COLLECTION] + EncodeLong(|items|) + EncodeItems(items) + Terminator()
  }

  function EncodeEntries(fields: seq<Field>): seq<byte>
    decreases fields, 0
  {
    if fields == [] then []
    else
      var last := fields[|fields| - 1];
      EncodeEntries(fields[..|fields| - 1]) + KeyValueSlot(last.key, EncodeValue(last.value))
  }

  function EncodeItems(items: seq<Value>): seq<byte>
    decreases items, 0
  {
    if items == [] then []
    else EncodeItems(items[..|items| - 1]) + Slot(EncodeValue(items[|items| - 1]))
  }

  /** writeValue(Object): a document as above, null as `N`, anything else as the V node of its toString(). */
  function EncodeObject(x: JavaObject): seq<byte>
  {
    match x
    case Storable(v) => EncodeValue(v)
    case BooleanObject(b) => TextNode(if b then TRUE_TEXT else FALSE_TEXT)
    case OtherObject(t) => TextNode(t)
  }

  predicate ObjectWritable(x: JavaObject)
  {
    match x
    case Storable(v) => Writable(v)
    case BooleanObject(b) => true
    case OtherObject(t) => TextFits(t)
  }

  /** The value whose size bounds the writers' recursion. */
  function Payload(x: JavaObject): Value
  {
    if x.Storable? then x.v else Null
  }

  // ---------------------------------------------------------------- writers

  /** The file is the old one with `written` put at p0, and the pointer is just past it. */
  ghost predicate Wrote(f: RandomAccess, d0: seq<byte>, p0: nat, written: seq<byte>)
    reads f
  {
    f.data == Patch(d0, p0, written) && f.pos == p0 + |written|
  }

  lemma WroteMore(f: RandomAccess, d0: seq<byte>, p0: nat, a: seq<byte>, b: seq<byte>, d1: seq<byte>, p1: nat)
    requires d1 == Patch(d0, p0, a) && p1 == p0 + |a|
    requires f.data == Patch(d1, p1, b) && f.pos == p1 + |b|
    ensures Wrote(f, d0, p0, a + b)
  {
    PatchThen(d0, p0, a, b);
  }

  /** WroteMore for a loop: what was written so far, then one more piece, is the next prefix `ab`. */
  lemma WroteNext(f: RandomAccess, d0: seq<byte>, p0: nat, a: seq<byte>, b: seq<byte>, ab: seq<byte>, d1: seq<byte>, p1: nat)
    requires ab == a + b
    requires d1 == Patch(d0, p0, a) && p1 == p0 + |a|
    requires f.data == Patch(d1, p1, b) && f.pos == p1 + |b|
    ensures Wrote(f, d0, p0, ab)
  {
    PatchThen(d0, p0, a, b);
  }

  lemma EntriesSnoc(fields: seq<Field>, i: nat)
    requires i < |fields|
    ensures EncodeEntries(fields[..i + 1]) == EncodeEntries(fields[..i]) + KeyValueSlot(fields[i].key, EncodeValue(fields[i].value))
  {
    assert fields[..i + 1][..i] == fields[..i];
  }

  lemma FieldsWritableNext(fields: seq<Field>, i: nat)
    requires i < |fields| && Writable(fields[i].value)
    requires forall j :: 0 <= j < i ==> Writable(fields[j].value)
    ensures forall j :: 0 <= j < i + 1 ==> Writable(fields[j].value)
  {
  }

  lemma ItemsWritableNext(items: seq<Value>, i: nat)
    requires i < |items| && Writable(items[i])
    requires forall j :: 0 <= j < i ==> Writable(items[j])
    ensures forall j :: 0 <= j < i + 1 ==> Writable(items[j])
  {
  }

  lemma ItemsSnoc(items: seq<Value>, i: nat)
    requires i < |items|
    ensures EncodeItems(items[..i + 1]) == EncodeItems(items[..i]) + Slot(EncodeValue(items[i]))
  {
    assert items[..i + 1][..i] == items[..i];
  }

  /** Three writes back to back are one write of all three. */
  lemma PatchThen3(d0: seq<byte>, p0: nat, a: seq<byte>, d1: seq<byte>, p1: nat, b: seq<byte>, d2: seq<byte>, p2: nat, c: seq<byte>)
    requires d1 == Patch(d0, p0, a) && p1 == p0 + |a|
    requires d2 == Patch(d1, p1, b) && p2 == p1 + |b|
    ensures Patch(d2, p2, c) == Patch(d0, p0, a + b + c)
  {
    PatchThen(d0, p0, a, b);
    PatchThen(d0, p0, a + b, c);
  }

  /** A tag byte and a long, as writeByte then writeLong put them. */
  method WriteByteLong(f: RandomAccess, b: byte, x: int)
    modifies f
    ensures Wrote(f, old(f.data), old(f.pos), [b] + EncodeLong(x))
  {
    var d0, p0 := f.data, f.pos;
    f.WriteByte(b);
    f.WriteLong(x);
    PatchThen(d0, p0, [b], EncodeLong(x));
  }

  /** The back-patch idiom: seek to `at`, writeLong(x), seek to `back`. */
  method PatchLong(f: RandomAccess, at: nat, x: int, back: nat)
    modifies f
    ensures f.data == Patch(old(f.data), at, EncodeLong(x)) && f.pos == back
  {
    var _ := f.Seek(at);
    f.WriteLong(x);
    var _ := f.Seek(back);
  }

  /** A slot written with a zero placeholder, then its length back-patched, is the slot. */
  lemma SlotWritten(d0: seq<byte>, p0: nat, dh: seq<byte>, ph: nat, body: seq<byte>, d1: seq<byte>, at: nat, n: int)
    requires dh == Patch(d0, p0, [NOT_DELETED] + EncodeLong(0)) && ph == p0 + |[NOT_DELETED] + EncodeLong(0)|
    requires d1 == Patch(dh, ph, body) && at == p0 + 1 && n == |body|
    ensures Patch(d1, at, EncodeLong(n)) == Patch(d0, p0, Slot(body))
  {
    PatchThen(d0, p0, [NOT_DELETED] + EncodeLong(0), body);
    BackPatchSlot(d0, p0, body);
  }

  /**
   * writeValue: writes the node for x at the pointer and returns how many
   * bytes that is; fails (with the file partly written) exactly when a
   * string inside x is too long for writeUTF.
   */
  method WriteValue(f: RandomAccess, x: JavaObject) returns (r: Result<int>)
    modifies f
    ensures r.Ok? <==> ObjectWritable(x)
    ensures r.Ok? ==> Wrote(f, old(f.data), old(f.pos), EncodeObject(x)) && r.value == |EncodeObject(x)|
    ensures r.Err? ==> r.error == Access && KeptBelow(f.data, old(f.data), old(f.pos))
    decreases Payload(x), 3
  {
    if x.Storable? && x.v.Obj? {
      r := WriteObjectValue(f, x.v.fields);
    } else if x.Storable? && x.v.Arr? {
      r := WriteArrayValue(f, x.v.items);
    } else if x == Storable(Null) {
      f.WriteByte(NULL);
      r := Ok(1);
    } else {
      var value := ToText(x).value;
      assert EncodeObject(x) == TextNode(value);
      assert ObjectWritable(x) <==> TextFits(value);
      var d0, p0 := f.data, f.pos;
      f.WriteByte(VALUE);
      var w := WriteUtf(value);
      if w.None? {
        PatchKeeps(d0, p0, [VALUE]);
        return Err(Access);
      }
      var d1, p1 := f.data, f.pos;
      f.Write(w.value);
      WroteMore(f, d0, p0, [VALUE], w.value, d1, p1);
      var n := MeasureUtf8Length(value);
      r := Ok(1 + n);
    }
  }

  /** writeObjectValue: `O`, one object slot per entry, and a terminator. */
  method WriteObjectValue(f: RandomAccess, fields: seq<Field>) returns (r: Result<int>)
    modifies f
    ensures r.Ok? <==> Writable(Obj(fields))
    ensures r.Ok? ==> Wrote(f, old(f.data), old(f.pos), EncodeValue(Obj(fields))) && r.value == |EncodeValue(Obj(fields))|
    ensures r.Err? ==> r.error == Access && KeptBelow(f.data, old(f.data), old(f.pos))
    decreases Obj(fields), 2
  {
    ghost var d0, p0 := f.data, f.pos;
    f.WriteByte(OBJECT);
    ghost var d1, p1 := f.data, f.pos;
    var written := WriteEntries(f, fields);
    if written.Err? {
      PatchKeeps(d0, p0, [OBJECT]);
      KeptThen(d0, d1, f.data, p0, p1);
      return Err(Access);
    }
    var length := written.value;
    ghost var d2, p2 := f.data, f.pos;
    WriteByteLong(f, HAS_NOT_TAIL, 0);
    PatchThen3(d0, p0, [OBJECT], d1, p1, EncodeEntries(fields), d2, p2, Terminator());
    assert [OBJECT] + EncodeEntries(fields) + Terminator() == EncodeValue(Obj(fields));
    r := Ok(1 + length + 1 + 8);
  }

  /** The entry loop of writeObjectValue. */
  method WriteEntries(f: RandomAccess, fields: seq<Field>) returns (r: Result<int>)
    modifies f
    ensures r.Ok? <==> forall j :: 0 <= j < |fields| ==> Writable(fields[j].value)
    ensures r.Ok? ==> Wrote(f, old(f.data), old(f.pos), EncodeEntries(fields)) && r.value == |EncodeEntries(fields)|
    ensures r.Err? ==> r.error == Access && KeptBelow(f.data, old(f.data), old(f.pos))
    decreases Obj(fields), 1
  {
    var d0, p0 := f.data, f.pos;
    PatchNothing(d0, p0);
    var length := 0;
    var i := 0;
    while i < |fields|
      invariant 0 <= i <= |fields|
      invariant forall j :: 0 <= j < i ==> Writable(fields[j].value)
      invariant Wrote(f, d0, p0, EncodeEntries(fields[..i])) && length == |EncodeEntries(fields[..i])|
    {
      var entry := fields[i];
      ghost var d1, p1 := f.data, f.pos;
      var n := WriteField(f, entry);
      if n.Err? {
        PatchKeeps(d0, p0, EncodeEntries(fields[..i]));
        KeptThen(d0, d1, f.data, p0, p1);
        return Err(Access);
      }
      FieldsWritableNext(fields, i);
      EntriesSnoc(fields, i);
      WroteNext(f, d0, p0, EncodeEntries(fields[..i]), KeyValueSlot(entry.key, EncodeValue(entry.value)),
                EncodeEntries(fields[..i + 1]), d1, p1);
      length := length + n.value;
      i := i + 1;
    }
    assert fields[..i] == fields;
    r := Ok(length);
  }

  /** One entry of writeObjectValue. */
  method WriteField(f: RandomAccess, entry: Field) returns (r: Result<int>)
    modifies f
    ensures r.Ok? <==> Writable(entry.value)
    ensures r.Ok? ==> Wrote(f, old(f.data), old(f.pos), KeyValueSlot(entry.key, EncodeValue(entry.value)))
                      && r.value == |KeyValueSlot(entry.key, EncodeValue(entry.value))|
    ensures r.Err? ==> r.error == Access && KeptBelow(f.data, old(f.data), old(f.pos))
    decreases entry, 5
  {
    r := WriteKeyValue(f, entry.key, Storable(entry.value));
    assert ObjectWritable(Storable(entry.value)) == Writable(entry.value);
    assert EncodeObject(Storable(entry.value)) == EncodeValue(entry.value);
  }

  /** writeKeyValue: `r`, a placeholder length, the key, the value, then the length back-patched. */
  method WriteKeyValue(f: RandomAccess, key: JString, x: JavaObject) returns (r: Result<int>)
    modifies f
    ensures r.Ok? <==> ObjectWritable(x)
    ensures r.Ok? ==> Wrote(f, old(f.data), old(f.pos), KeyValueSlot(key, EncodeObject(x)))
                      && r.value == |KeyValueSlot(key, EncodeObject(x))|
    ensures r.Err? ==> r.error == Access && KeptBelow(f.data, old(f.data), old(f.pos))
    decreases Payload(x), 4
  {
    ghost var d0, p0 := f.data, f.pos;
    var keyValueLengthOffset := f.pos + 1;
    WriteKeyHead(f, key);
    ghost var dh, ph := f.data, f.pos;
    var keyValueLength := 4 + |key|;
    var n := WriteValue(f, x);
    if n.Err? {
      PatchKeeps(d0, p0, KeyHead(key));
      KeptThen(d0, dh, f.data, p0, ph);
      return Err(Access);
    }
    ghost var d1 := f.data;
    keyValueLength := keyValueLength + n.value;
    var objectEndOffset := f.pos;
    PatchLong(f, keyValueLengthOffset, keyValueLength, objectEndOffset);
    KeyValueWritten(d0, p0, key, dh, ph, EncodeObject(x), d1, keyValueLengthOffset, keyValueLength);
    r := Ok(1 + 8 + keyValueLength);
  }

  /** What writeKeyValue emits before the value: `r`, the zero placeholder, the key's length, the key. */
  function KeyHead(key: JString): (r: seq<byte>)
    ensures |r| == 13 + |key|
  {
    [NOT_DELETED] + EncodeLong(0) + (EncodeInt(|key|) + KeyBytes(key))
  }

  method WriteKeyHead(f: RandomAccess, key: JString)
    modifies f
    ensures Wrote(f, old(f.data), old(f.pos), KeyHead(key))
  {
    var d0, p0 := f.data, f.pos;
    f.WriteByte(NOT_DELETED);
    var d1, p1 := f.data, f.pos;
    f.WriteLong(0);
    WroteMore(f, d0, p0, [NOT_DELETED], EncodeLong(0), d1, p1);
    var d2, p2 := f.data, f.pos;
    f.WriteInt(|key|);
    WriteKeyChars(f, key);
    WroteMore(f, d0, p0, [NOT_DELETED] + EncodeLong(0), EncodeInt(|key|) + KeyBytes(key), d2, p2) by {
      PatchThen(d2, p2, EncodeInt(|key|), KeyBytes(key));
    }
  }

  /** A key-value slot written with a zero placeholder, then its length back-patched, is the slot. */
  lemma KeyValueWritten(d0: seq<byte>, p0: nat, key: JString, dh: seq<byte>, ph: nat, body: seq<byte>, d1: seq<byte>, at: nat, n: int)
    requires dh == Patch(d0, p0, KeyHead(key)) && ph == p0 + |KeyHead(key)|
    requires d1 == Patch(dh, ph, body) && at == p0 + 1 && n == 4 + |key| + |body|
    ensures Patch(d1, at, EncodeLong(n)) == Patch(d0, p0, KeyValueSlot(key, body))
  {
    PatchThen(d0, p0, KeyHead(key), body);
    BackPatchKeyValue(d0, p0, key, body);
  }

  lemma SeqAssoc(a: seq<byte>, b: seq<byte>, c: seq<byte>)
    ensures a + b + c == a + (b + c)
  {
  }

  /** Back-patching the length of a key-value slot written with a zero placeholder. */
  lemma BackPatchKeyValue(d0: seq<byte>, p0: nat, key: JString, body: seq<byte>)
    ensures Patch(Patch(d0, p0, KeyHead(key) + body),
                  p0 + 1, EncodeLong(4 + |key| + |body|))
         == Patch(d0, p0, KeyValueSlot(key, body))
  {
    var mid := EncodeInt(|key|) + KeyBytes(key);
    var n := EncodeLong(4 + |key| + |body|);
    assert KeyHead(key) + body == [NOT_DELETED] + EncodeLong(0) + (mid + body) by {
      SeqAssoc([NOT_DELETED] + EncodeLong(0), mid, body);
    }
    assert KeyValueSlot(key, body) == [NOT_DELETED] + n + (mid + body) by {
      SeqAssoc([NOT_DELETED] + n + EncodeInt(|key|), KeyBytes(key), body);
      SeqAssoc([NOT_DELETED] + n, EncodeInt(|key|), KeyBytes(key) + body);
      SeqAssoc(EncodeInt(|key|), KeyBytes(key), body);
    }
    PatchOver(d0, p0, [NOT_DELETED], EncodeLong(0), mid + body, n);
  }

  /** Back-patching the length of a slot written with a zero placeholder. */
  lemma BackPatchSlot(d0: seq<byte>, p0: nat, body: seq<byte>)
    ensures Patch(Patch(d0, p0, [NOT_DELETED] + EncodeLong(0) + body), p0 + 1, EncodeLong(|body|))
         == Patch(d0, p0, Slot(body))
  {
    PatchOver(d0, p0, [NOT_DELETED], EncodeLong(0), body, EncodeLong(|body|));
  }

  /** The key loop of writeKeyValue: one byte per char. */
  method WriteKeyChars(f: RandomAccess, key: JString)
    modifies f
    ensures Wrote(f, old(f.data), old(f.pos), KeyBytes(key))
  {
    var d0, p0 := f.data, f.pos;
    PatchNothing(d0, p0);
    var i := 0;
    while i < |key|
      invariant 0 <= i <= |key|
      invariant Wrote(f, d0, p0, KeyBytes(key)[..i])
    {
      var d1, p1 := f.data, f.pos;
      f.WriteByte((key[i] as int % 256) as byte);
      WroteMore(f, d0, p0, KeyBytes(key)[..i], [(key[i] as int % 256) as byte], d1, p1);
      assert KeyBytes(key)[..i + 1] == KeyBytes(key)[..i] + [(key[i] as int % 256) as byte];
      i := i + 1;
    }
    assert KeyBytes(key)[..i] == KeyBytes(key);
  }

  /** writeArrayValue: `C`, the item count, one slot per item with its length back-patched, a terminator. */
  method WriteArrayValue(f: RandomAccess, items: seq<Value>) returns (r: Result<int>)
    modifies f
    ensures r.Ok? <==> Writable(Arr(items))
    ensures r.Ok? ==> Wrote(f, old(f.data), old(f.pos), EncodeValue(Arr(items))) && r.value == |EncodeValue(Arr(items))|
    ensures r.Err? ==> r.error == Access && KeptBelow(f.data, old(f.data), old(f.pos))
    decreases Arr(items), 2
  {
    ghost var d0, p0 := f.data, f.pos;
    WriteByteLong(f, COLLECTION, |items|);
    ghost var d1, p1 := f.data, f.pos;
    var written := WriteItems(f, items);
    if written.Err? {
      PatchKeeps(d0, p0, [COLLECTION] + EncodeLong(|items|));
      KeptThen(d0, d1, f.data, p0, p1);
      return Err(Access);
    }
    var length := written.value;
    ghost var d2, p2 := f.data, f.pos;
    WriteByteLong(f, HAS_NOT_TAIL, 0);
    PatchThen3(d0, p0, [COLLECTION] + EncodeLong(|items|), d1, p1, EncodeItems(items), d2, p2, Terminator());
    assert [COLLECTION] + EncodeLong(|items|) + EncodeItems(items) + Terminator() == EncodeValue(Arr(items));
    r := Ok(1 + 8 + length + 1 + 8);
  }

  /** The item loop of writeArrayValue. */
  method WriteItems(f: RandomAccess, items: seq<Value>) returns (r: Result<int>)
    modifies f
    ensures r.Ok? <==> forall j :: 0 <= j < |items| ==> Writable(items[j])
    ensures r.Ok? ==> Wrote(f, old(f.data), old(f.pos), EncodeItems(items)) && r.value == |EncodeItems(items)|
    ensures r.Err? ==> r.error == Access && KeptBelow(f.data, old(f.data), old(f.pos))
    decreases Arr(items), 1
  {
    var d0, p0 := f.data, f.pos;
    PatchNothing(d0, p0);
    var length := 0;
    var i := 0;
    while i < |items|
      invariant 0 <= i <= |items|
      invariant forall j :: 0 <= j < i ==> Writable(items[j])
      invariant Wrote(f, d0, p0, EncodeItems(items[..i])) && length == |EncodeItems(items[..i])|
    {
      var item := items[i];
      ghost var d1, p1 := f.data, f.pos;
      var n := WriteSlot(f, item);
      if n.Err? {
        PatchKeeps(d0, p0, EncodeItems(items[..i]));
        KeptThen(d0, d1, f.data, p0, p1);
        return Err(Access);
      }
      ItemsWritableNext(items, i);
      ItemsSnoc(items, i);
      WroteNext(f, d0, p0, EncodeItems(items[..i]), Slot(EncodeValue(item)), EncodeItems(items[..i + 1]), d1, p1);
      length := length + n.value;
      i := i + 1;
    }
    assert items[..i] == items;
    r := Ok(length);
  }

  /** One item of writeArrayValue: `r`, a placeholder length, the value, then the length back-patched. */
  method WriteSlot(f: RandomAccess, item: Value) returns (r: Result<int>)
    modifies f
    ensures r.Ok? <==> Writable(item)
    ensures r.Ok? ==> Wrote(f, old(f.data), old(f.pos), Slot(EncodeValue(item))) && r.value == |Slot(EncodeValue(item))|
    ensures r.Err? ==> r.error == Access && KeptBelow(f.data, old(f.data), old(f.pos))
    decreases item, 4
  {
    ghost var d0, p0 := f.data, f.pos;
    var objectLengthOffset := f.pos + 1;
    WriteByteLong(f, NOT_DELETED, 0);
    ghost var dh, ph := f.data, f.pos;
    var n := WriteValue(f, Storable(item));
    assert ObjectWritable(Storable(item)) == Writable(item);
    assert EncodeObject(Storable(item)) == EncodeValue(item);
    if n.Err? {
      PatchKeeps(d0, p0, [NOT_DELETED] + EncodeLong(0));
      KeptThen(d0, dh, f.data, p0, ph);
      return Err(Access);
    }
    ghost var d1 := f.data;
    var arrayEndOffset := f.pos;
    PatchLong(f, objectLengthOffset, n.value, arrayEndOffset);
    SlotWritten(d0, p0, dh, ph, EncodeObject(Storable(item)), d1, objectLengthOffset, n.value);
    r := Ok(9 + n.value);
  }

  /** writeObject: a YashON as a live collection member, its length back-patched. */
  method WriteObject(f: RandomAccess, fields: seq<Field>) returns (r: Result<()>)
    modifies f
    ensures r.Ok? <==> Writable(Obj(fields))
    ensures r.Ok? ==> Wrote(f, old(f.data), old(f.pos), Slot(EncodeValue(Obj(fields))))
    ensures r.Err? ==> r.error == Access && KeptBelow(f.data, old(f.data), old(f.pos))
  {
    ghost var d0, p0 := f.data, f.pos;
    var lengthOffset := f.pos + 1;
    WriteByteLong(f, NOT_DELETED, 0);
    ghost var dh, ph := f.data, f.pos;
    var written := WriteObjectValue(f, fields);
    if written.Err? {
      PatchKeeps(d0, p0, [NOT_DELETED] + EncodeLong(0));
      KeptThen(d0, dh, f.data, p0, ph);
      return Err(Access);
    }
    var length := written.value;
    ghost var d1 := f.data;
    PatchLong(f, lengthOffset, length, lengthOffset + 8 + length);
    SlotWritten(d0, p0, dh, ph, EncodeValue(Obj(fields)), d1, lengthOffset, length);
    r := Ok(());
  }
}
