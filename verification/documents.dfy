/**
 * YashON (a JSON object) and YashAN (a JSON array), the in-memory documents
 * callers insert and the engine materialises.  A YashON keeps its entries as
 * an association list with distinct keys: `put` replaces an existing entry
 * where it stands and appends a new one, which fixes one iteration order
 * where the source's HashMap leaves it unspecified.
 */
module Documents {
  import opened Text
  import opened Values
  import opened Results

  /** The branch both toString methods run for one value. */
  method AppendValue(sb: JString, value: Value) returns (r: JString)
    ensures r == sb + RenderValue(value)
  {
    if value.Null? {
      r := sb + NULL_TEXT;
    } else if value.Obj? {
      r := sb + RenderObject(value.fields);
    } else if value.Arr? {
      r := sb + RenderArray(value.items);
    } else {
      r := sb + [QUOTE];
      r := AppendString(r, if value.Str? then value.s else DecimalText(value.n));
      r := r + [QUOTE];
    }
  }

  /** One "key":value entry of YashON.toString, after a comma unless it is the first. */
  method AppendEntry(sb: JString, isFirst: bool, entry: Field) returns (r: JString)
    ensures r == sb + (if isFirst then [] else [COMMA]) + RenderEntry(entry)
  {
    r := sb;
    if !isFirst {
      r := r + [COMMA];
    }
    r := r + [QUOTE] + entry.key + [QUOTE, COLON];
    r := AppendValue(r, entry.value);
  }

  /** One value of YashAN.toString, after a comma unless it is the first. */
  method AppendItem(sb: JString, isFirst: bool, value: Value) returns (r: JString)
    ensures r == sb + (if isFirst then [] else [COMMA]) + RenderValue(value)
  {
    r := sb;
    if !isFirst {
      r := r + [COMMA];
    }
    r := AppendValue(r, value);
  }

  class YashON {
    var fields: seq<Field>

    /** Every key passed validateKey and no key appears twice. */
    ghost predicate Valid()
      reads this
    {
      DistinctKeys(fields) && forall i :: 0 <= i < |fields| ==> ValidKey(fields[i].key)
    }

    constructor ()
      ensures Valid() && fields == []
    {
      fields := [];
    }

    /**
     * put: the key must match [a-zA-Z0-9_]+ and the value must be null, a
     * String, a Number, a YashON or a YashAN; otherwise IllegalArgument and
     * nothing changes.  Afterwards get(key) gives the value and every other
     * key keeps its value.
     */
    method Put(key: JString, value: JavaObject) returns (r: Result<()>)
      requires Valid()
      modifies this
      ensures Valid()
      ensures r.Ok? <==> ValidKey(key) && value.Storable?
      ensures r.Err? ==> r.error == IllegalArgument && fields == old(fields)
      ensures r.Ok? ==> fields == PutField(old(fields), key, value.v)
      ensures r.Ok? ==> Lookup(fields, key) == Some(value.v)
      ensures forall k :: k != key ==> Lookup(fields, k) == Lookup(old(fields), k)
    {
      var v :- Validate(key, value);
      PutFieldLookup(fields, key, v);
      PutFieldEntries(fields, key, v);
      PutFieldDistinct(fields, key, v);
      fields := PutField(fields, key, v);
      return Ok(());
    }

    /** get: the stored value, null (Null) when the key is absent. */
    function Get(key: JString): (r: Value)
      reads this
      ensures Lookup(fields, key).Some? ==> r == Lookup(fields, key).value
      ensures Lookup(fields, key).None? ==> r == Null
    {
      match Lookup(fields, key)
      case Some(v) => v
      case None => Null
    }

    /** contains: whether the key has an entry (even one holding null). */
    function Contains(key: JString): (r: bool)
      reads this
      ensures r <==> exists i :: 0 <= i < |fields| && fields[i].key == key
    {
      Lookup(fields, key).Some?
    }

    function GetString(key: JString): Result<Option<JString>>
      reads this
    {
      Values.GetString(Get(key))
    }

    function GetBoolean(key: JString): Result<Option<bool>>
      reads this
    {
      Values.GetBoolean(Get(key))
    }

    function GetInt(key: JString): Result<Option<int>>
      reads this
    {
      Values.GetInt(Get(key))
    }

    function GetLong(key: JString): Result<Option<int>>
      reads this
    {
      Values.GetLong(Get(key))
    }

    function GetYashON(key: JString): Result<Option<seq<Field>>>
      reads this
    {
      Values.GetYashON(Get(key))
    }

    function GetYashAN(key: JString): Result<Option<seq<Value>>>
      reads this
    {
      Values.GetYashAN(Get(key))
    }

    /**
     * toString: the entries as "key":value separated by commas inside
     * braces; nested documents as their own text, null bare, anything else
     * quoted through appendString.
     */
    method ToString() returns (s: JString)
      ensures s == RenderObject(fields)
    {
      s := [OPEN_BRACE];
      var isFirst := true;
      var i := 0;
      while i < |fields|
        invariant 0 <= i <= |fields|
        invariant isFirst <==> i == 0
        invariant s == [OPEN_BRACE] + RenderFields(fields[..i])
      {
        var entry := fields[i];
        s := AppendEntry(s, isFirst, entry);
        isFirst := false;
        RenderFieldsAppend(fields[..i], entry);
        assert fields[..i + 1] == fields[..i] + [entry];
        i := i + 1;
      }
      assert fields[..i] == fields;
      s := s + [CLOSE_BRACE];
    }
  }

  class YashAN {
    var items: seq<Value>

    constructor ()
      ensures items == []
    {
      items := [];
    }

    /** put: validateValue, then append; a refused value leaves the list as it was. */
    method Put(x: JavaObject) returns (r: Result<()>)
      modifies this
      ensures r.Ok? <==> x.Storable?
      ensures r.Err? ==> r.error == IllegalArgument
      ensures items == if r.Ok? then old(items) + [x.v] else old(items)
    {
      var v :- ValidateValue(x);
      items := items + [v];
      return Ok(());
    }

    function GetCount(): (n: int)
      reads this
      ensures n == |items|
    {
      |items|
    }

    /** get: the item at index, IndexOutOfBounds outside 0 .. count-1. */
    function Get(index: int): (r: Result<Value>)
      reads this
      ensures r.Ok? <==> 0 <= index < |items|
      ensures r.Ok? ==> r.value == items[index]
      ensures r.Err? ==> r.error == IndexOutOfBounds
    {
      if 0 <= index < |items| then Ok(items[index]) else Err(IndexOutOfBounds)
    }

    function GetString(index: int): Result<Option<JString>>
      reads this
    {
      var v :- Get(index);
      Values.GetString(v)
    }

    function GetBoolean(index: int): Result<Option<bool>>
      reads this
    {
      var v :- Get(index);
      Values.GetBoolean(v)
    }

    function GetInt(index: int): Result<Option<int>>
      reads this
    {
      var v :- Get(index);
      Values.GetInt(v)
    }

    function GetLong(index: int): Result<Option<int>>
      reads this
    {
      var v :- Get(index);
      Values.GetLong(v)
    }

    function GetYashON(index: int): Result<Option<seq<Field>>>
      reads this
    {
      var v :- Get(index);
      Values.GetYashON(v)
    }

    function GetYashAN(index: int): Result<Option<seq<Value>>>
      reads this
    {
      var v :- Get(index);
      Values.GetYashAN(v)
    }

    /** toString: the items separated by commas inside brackets. */
    method ToString() returns (s: JString)
      ensures s == RenderArray(items)
    {
      s := [OPEN_BRACKET];
      var isFirst := true;
      var i := 0;
      while i < |items|
        invariant 0 <= i <= |items|
        invariant isFirst <==> i == 0
        invariant s == [OPEN_BRACKET] + RenderItems(items[..i])
      {
        var value := items[i];
        s := AppendItem(s, isFirst, value);
        isFirst := false;
        RenderItemsPrefix(items, i);
        i := i + 1;
      }
      assert items[..i] == items;
      s := s + [CLOSE_BRACKET];
    }
  }
}
