/**
 * The values a YashON document can hold (null, String, Number, YashON,
 * YashAN), the rules `put` enforces on keys and values, the text `toString`
 * produces, and the typed getters shared by YashON and YashAN.
 *
 * Nested documents are held by value: a YashON inside another one is the
 * list of its entries at the time it was stored.
 */
module Values {
  import opened Bytes
  import opened Text
  import opened Results

  datatype Value =
    | Null
    | Str(s: JString)
    | Num(n: int)               // an integral java.lang.Number
    | Obj(fields: seq<Field>)   // a YashON: its entries in iteration order
    | Arr(items: seq<Value>)    // a YashAN

  datatype Field = Field(key: JString, value: Value)

  /** Any Java object a caller can hand to put, insert, set or a filter. */
  datatype JavaObject =
    | Storable(v: Value)
    | BooleanObject(b: bool)    // a java.lang.Boolean (the parser makes these)
    | OtherObject(text: JString) // any other object, known by its toString()

  // ---------------------------------------------------------------- validation

  predicate IsKeyChar(c: Char16)
  {
    (97 <= c <= 122) || (65 <= c <= 90) || (48 <= c <= 57) || c == 95
  }

  /** key.matches("[a-zA-Z0-9_]+") */
  predicate ValidKey(key: JString)
  {
    |key| > 0 && forall i :: 0 <= i < |key| ==> IsKeyChar(key[i])
  }

  /** validateKey then validateValue, as `put` runs them. */
  function Validate(key: JString, x: JavaObject): (r: Result<Value>)
    ensures r.Ok? <==> ValidKey(key) && x.Storable?
    ensures r.Ok? ==> r.value == x.v
    ensures r.Err? ==> r.error == IllegalArgument
  {
    if !ValidKey(key) then Err(IllegalArgument)
    else if !x.Storable? then Err(IllegalArgument)
    else Ok(x.v)
  }

  /** validateValue alone, as YashAN.put runs it. */
  function ValidateValue(x: JavaObject): (r: Result<Value>)
    ensures r.Ok? <==> x.Storable?
    ensures r.Ok? ==> r.value == x.v
    ensures r.Err? ==> r.error == IllegalArgument
  {
    if x.Storable? then Ok(x.v) else Err(IllegalArgument)
  }

  // ---------------------------------------------------------------- entries as a map

  /** The value stored under key, if any (HashMap.get / containsKey). */
  function Lookup(fields: seq<Field>, key: JString): (r: Option<Value>)
    ensures r.Some? <==> exists i :: 0 <= i < |fields| && fields[i].key == key
  {
    if fields == [] then None
    else if fields[0].key == key then Some(fields[0].value)
    else
      var rest := Lookup(fields[1..], key);
      assert forall i :: 1 <= i < |fields| ==> fields[i] == fields[1..][i - 1];
      rest
  }

  predicate DistinctKeys(fields: seq<Field>)
  {
    forall i, j :: 0 <= i < j < |fields| ==> fields[i].key != fields[j].key
  }

  /** HashMap.put: replace the entry under key where it is, or add one. */
  function PutField(fields: seq<Field>, key: JString, v: Value): seq<Field>
  {
    if fields == [] then [Field(key, v)]
    else if fields[0].key == key then [Field(key, v)] + fields[1..]
    else [fields[0]] + PutField(fields[1..], key, v)
  }

  /** put maps key to v and leaves every other key as it was. */
  lemma {:induction false} PutFieldLookup(fields: seq<Field>, key: JString, v: Value)
    ensures Lookup(PutField(fields, key, v), key) == Some(v)
    ensures forall k :: k != key ==> Lookup(PutField(fields, key, v), k) == Lookup(fields, k)
  {
    var r := PutField(fields, key, v);
    if fields != [] {
      if fields[0].key == key {
        assert r[1..] == fields[1..];
      } else {
        PutFieldLookup(fields[1..], key, v);
        assert r[1..] == PutField(fields[1..], key, v);
      }
    }
  }

  /** put brings in no entry but the one under key, and grows the map only for a new key. */
  lemma {:induction false} PutFieldEntries(fields: seq<Field>, key: JString, v: Value)
    ensures var r := PutField(fields, key, v);
      |r| == (if Lookup(fields, key).Some? then |fields| else |fields| + 1)
      && forall i :: 0 <= i < |r| ==> r[i].key == key || r[i] in fields
  {
    if fields != [] && fields[0].key != key {
      var rest := PutField(fields[1..], key, v);
      PutFieldEntries(fields[1..], key, v);
      assert PutField(fields, key, v) == [fields[0]] + rest;
      assert forall x :: x in fields[1..] ==> x in fields;
    }
  }

  /** put keeps the keys distinct. */
  lemma {:induction false} PutFieldDistinct(fields: seq<Field>, key: JString, v: Value)
    requires DistinctKeys(fields)
    ensures DistinctKeys(PutField(fields, key, v))
  {
    var r := PutField(fields, key, v);
    if fields != [] {
      if fields[0].key == key {
        assert forall i :: 1 <= i < |r| ==> r[i] == fields[i];
      } else {
        var rest := PutField(fields[1..], key, v);
        PutFieldDistinct(fields[1..], key, v);
        PutFieldEntries(fields[1..], key, v);
        assert r == [fields[0]] + rest;
        forall i | 0 <= i < |rest|
          ensures rest[i].key != fields[0].key
        {
          if rest[i].key != key {
            var j :| 0 <= j < |fields[1..]| && fields[1..][j] == rest[i];
            assert fields[j + 1] == rest[i];
          }
        }
      }
    }
  }

  // ---------------------------------------------------------------- toString

  /**
   * appendString: every '"' gets a backslash in front of it; nothing else is
   * escaped.
   */
  function Escape(s: JString): (r: JString)
    ensures |r| >= |s|
  {
    if s == [] then [] else (if s[0] == QUOTE then [BACKSLASH, QUOTE] else [s[0]]) + Escape(s[1..])
  }

  lemma {:induction false} EscapeAppend(s: JString, c: Char16)
    ensures Escape(s + [c]) == Escape(s) + (if c == QUOTE then [BACKSLASH, QUOTE] else [c])
  {
    if s != [] {
      assert (s + [c])[1..] == s[1..] + [c];
      EscapeAppend(s[1..], c);
    }
  }

  /** Escape leaves a string without quotes as it is. */
  lemma {:induction false} EscapeNoQuote(s: JString)
    requires QUOTE !in s
    ensures Escape(s) == s
  {
    if s != [] {
      EscapeNoQuote(s[1..]);
    }
  }

  /** appendString(sb, str): the builder grows by the escaped string. */
  method AppendString(sb: JString, str: JString) returns (r: JString)
    ensures r == sb + Escape(str)
    ensures |r| - |sb| == |str| + multiset(str)[QUOTE]
  {
    r := sb;
    var i := 0;
    while i < |str|
      invariant 0 <= i <= |str|
      invariant r == sb + Escape(str[..i])
      invariant |r| - |sb| == i + multiset(str[..i])[QUOTE]
    {
      var c := str[i];
      assert str[..i + 1] == str[..i] + [c];
      EscapeAppend(str[..i], c);
      if c == QUOTE {
        r := r + [BACKSLASH];
      }
      r := r + [c];
      i := i + 1;
    }
    assert str[..i] == str;
  }

  /** The text of a value inside toString: null bare, documents nested, anything else quoted. */
  function RenderValue(v: Value): JString
    decreases v, 0
  {
    match v
    case Null => NULL_TEXT
    case Obj(fields) => RenderObject(fields)
    case Arr(items) => RenderArray(items)
    case Str(s) => [QUOTE] + Escape(s) + [QUOTE]
    case Num(n) => [QUOTE] + Escape(DecimalText(n)) + [QUOTE]
  }

  function RenderEntry(f: Field): JString
    decreases f, 0
  {
    [QUOTE] + f.key + [QUOTE, COLON] + RenderValue(f.value)
  }

  function RenderFields(fields: seq<Field>): JString
    decreases fields, 0
  {
    if fields == [] then []
    else if |fields| == 1 then RenderEntry(fields[0])
    else RenderEntry(fields[0]) + [COMMA] + RenderFields(fields[1..])
  }

  /** YashON.toString */
  function RenderObject(fields: seq<Field>): JString
    decreases fields, 1
  {
    [OPEN_BRACE] + RenderFields(fields) + [CLOSE_BRACE]
  }

  function RenderItems(items: seq<Value>): JString
    decreases items, 0
  {
    if items == [] then []
    else if |items| == 1 then RenderValue(items[0])
    else RenderValue(items[0]) + [COMMA] + RenderItems(items[1..])
  }

  /** YashAN.toString */
  function RenderArray(items: seq<Value>): JString
    decreases items, 1
  {
    [OPEN_BRACKET] + RenderItems(items) + [CLOSE_BRACKET]
  }

  lemma {:induction false} RenderFieldsAppend(fields: seq<Field>, f: Field)
    ensures RenderFields(fields + [f]) ==
            (if fields == [] then RenderEntry(f) else RenderFields(fields) + [COMMA] + RenderEntry(f))
  {
    var w := fields + [f];
    if |fields| > 1 {
      assert w[0] == fields[0] && w[1..] == fields[1..] + [f];
      RenderFieldsAppend(fields[1..], f);
      assert RenderFields(w) == RenderEntry(fields[0]) + [COMMA] + RenderFields(w[1..]);
    } else if |fields| == 1 {
      assert w[0] == fields[0] && w[1..] == [f];
      assert RenderFields(w) == RenderEntry(fields[0]) + [COMMA] + RenderFields([f]);
    }
  }

  lemma {:induction false} RenderItemsAppend(items: seq<Value>, v: Value)
    ensures RenderItems(items + [v]) ==
            (if items == [] then RenderValue(v) else RenderItems(items) + [COMMA] + RenderValue(v))
  {
    var w := items + [v];
    if |items| > 1 {
      assert w[0] == items[0] && w[1..] == items[1..] + [v];
      RenderItemsAppend(items[1..], v);
      assert RenderItems(w) == RenderValue(items[0]) + [COMMA] + RenderItems(w[1..]);
    } else if |items| == 1 {
      assert w[0] == items[0] && w[1..] == [v];
      assert RenderItems(w) == RenderValue(items[0]) + [COMMA] + RenderItems([v]);
    }
  }

  /** The text of the first i + 1 items, from the text of the first i. */
  lemma RenderItemsPrefix(items: seq<Value>, i: nat)
    requires i < |items|
    ensures RenderItems(items[..i + 1]) == RenderItems(items[..i]) + (if i == 0 then [] else [COMMA]) + RenderValue(items[i])
  {
    assert items[..i + 1] == items[..i] + [items[i]];
    RenderItemsAppend(items[..i], items[i]);
  }

  /**
   * value.toString() of a Java object; None for null, whose toString()
   * throws a NullPointerException.
   */
  function ToText(x: JavaObject): (r: Option<JString>)
    ensures r.None? <==> x == Storable(Null)
  {
    match x
    case Storable(Null) => None
    case Storable(Str(s)) => Some(s)
    case Storable(Num(n)) => Some(DecimalText(n))
    case Storable(Obj(fields)) => Some(RenderObject(fields))
    case Storable(Arr(items)) => Some(RenderArray(items))
    case BooleanObject(b) => Some(if b then TRUE_TEXT else FALSE_TEXT)
    case OtherObject(t) => Some(t)
  }

  // ---------------------------------------------------------------- typed getters

  /** YashON.getString(Object): null stays null, a Number gives its text. */
  function GetString(v: Value): (r: Result<Option<JString>>)
    ensures r.Ok? <==> v.Null? || v.Str? || v.Num?
    ensures v.Num? ==> r.Ok? && r.value.Some? && ParseDecimal(r.value.value) == Some(v.n as real)
    ensures v.Str? ==> r == Ok(Some(v.s))
    ensures r.Err? ==> r.error == ValueType
  {
    match v
    case Null => Ok(None)
    case Str(s) => Ok(Some(s))
    case Num(n) => ParseDecimalOfDecimalText(n); Ok(Some(DecimalText(n)))
    case _ => Err(ValueType)
  }

  /** "true".equalsIgnoreCase(s), i.e. Boolean.parseBoolean */
  predicate IsTrueText(s: JString)
  {
    LowerAll(s) == TRUE_TEXT
  }

  /** YashON.getBoolean(Object): a String is parsed, anything else stored is refused. */
  function GetBoolean(v: Value): (r: Result<Option<bool>>)
    ensures r.Ok? <==> v.Null? || v.Str?
    ensures v.Str? ==> r.Ok? && r.value.Some? && (r.value.value <==> IsTrueText(v.s))
    ensures r.Err? ==> r.error == ValueType
  {
    match v
    case Null => Ok(None)
    case Str(s) => Ok(Some(IsTrueText(s)))
    case _ => Err(ValueType)
  }

  /** The integral part of x, rounded toward zero (a double-to-integer cast). */
  function Truncate(x: real): (r: int)
    ensures x >= 0.0 ==> 0.0 <= r as real <= x < r as real + 1.0
    ensures x < 0.0 ==> r as real - 1.0 < x <= r as real <= 0.0
  {
    if x >= 0.0 then x.Floor else -((-x).Floor)
  }

  function Clamp(x: int, lo: int, hi: int): int
    requires lo <= hi
  {
    if x < lo then lo else if x > hi then hi else x
  }

  /**
   * YashON.getInt(Object): Number.intValue() of a stored number (which wraps
   * a long to 32 bits), or of Double.parseDouble of a stored string (which
   * truncates and saturates).
   */
  function GetInt(v: Value): (r: Result<Option<int>>)
    ensures r.Ok? && r.value.Some? ==> IsInt(r.value.value)
    ensures v.Num? ==> r.Ok? && r.value.Some? && (IsInt(v.n) ==> r.value.value == v.n)
    ensures v.Obj? || v.Arr? ==> r == Err(ValueType)
  {
    match v
    case Null => Ok(None)
    case Num(n) => Ok(Some(WrapInt(WrapLong(n))))
    case Str(s) =>
      (match ParseDecimal(s)
       case None => Err(ValueType)
       case Some(x) => Ok(Some(Clamp(Truncate(x), -TWO_31, TWO_31 - 1))))
    case _ => Err(ValueType)
  }

  /** YashON.getLong(Object), as GetInt with 64 bits. */
  function GetLong(v: Value): (r: Result<Option<int>>)
    ensures r.Ok? && r.value.Some? ==> IsLong(r.value.value)
    ensures v.Num? ==> r.Ok? && r.value.Some? && (IsLong(v.n) ==> r.value.value == v.n)
    ensures v.Obj? || v.Arr? ==> r == Err(ValueType)
  {
    match v
    case Null => Ok(None)
    case Num(n) => Ok(Some(WrapLong(n)))
    case Str(s) =>
      (match ParseDecimal(s)
       case None => Err(ValueType)
       case Some(x) => Ok(Some(Clamp(Truncate(x), -TWO_63, TWO_63 - 1))))
    case _ => Err(ValueType)
  }

  /** YashON.getYashON(Object): null or a nested object, nothing else. */
  function GetYashON(v: Value): (r: Result<Option<seq<Field>>>)
    ensures r.Ok? <==> v.Null? || v.Obj?
    ensures r.Ok? ==> (r.value.Some? <==> v.Obj?) && (v.Obj? ==> r.value.value == v.fields)
    ensures r.Err? ==> r.error == ValueType
  {
    match v
    case Null => Ok(None)
    case Obj(fields) => Ok(Some(fields))
    case _ => Err(ValueType)
  }

  /** YashON.getYashAN(Object): null or a nested array, nothing else. */
  function GetYashAN(v: Value): (r: Result<Option<seq<Value>>>)
    ensures r.Ok? <==> v.Null? || v.Arr?
    ensures r.Ok? ==> (r.value.Some? <==> v.Arr?) && (v.Arr? ==> r.value.value == v.items)
    ensures r.Err? ==> r.error == ValueType
  {
    match v
    case Null => Ok(None)
    case Arr(items) => Ok(Some(items))
    case _ => Err(ValueType)
  }
}
