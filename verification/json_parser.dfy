/**
 * JSONParser: a hand-written recursive-descent reader of JSON text into
 * YashON / YashAN documents.  Each reader takes the text and a position and
 * returns the value read and the position after it.
 *
 * The functions (ParseObject, ParseArray, ParseValue, ...) say what the
 * readers compute; the methods (ReadObject, ReadArray, ReadValue, ...) are
 * the readers themselves, loops over an index that build the documents
 * through `put`, and each is proved to agree with its function.
 */
module JsonParser {
  import opened Bytes
  import opened Text
  import opened Values
  import opened Results
  import opened Documents

  predicate IsWhiteSpace(c: Char16) { c == SPACE || c == LINE_FEED || c == TAB }

  predicate IsNumeric(c: Char16) { c == MINUS || c == DOT || c == PLUS || IsDigit(c) }

  predicate IsAlphabetic(c: Char16) { (97 <= c <= 122) || (65 <= c <= 90) }

  // ---------------------------------------------------------------- what the readers compute

  /** The first position at or after i that is not a blank (space, line feed, tab). */
  function SkipWs(cs: JString, i: nat): (j: nat)
    requires i <= |cs|
    ensures i <= j <= |cs|
    ensures j == |cs| || !IsWhiteSpace(cs[j])
    decreases |cs| - i
  {
    if i < |cs| && IsWhiteSpace(cs[i]) then SkipWs(cs, i + 1) else i
  }

  function AlphaEnd(cs: JString, i: nat): (j: nat)
    requires i <= |cs|
    ensures i <= j <= |cs|
    ensures j == |cs| || !IsAlphabetic(cs[j])
    decreases |cs| - i
  {
    if i < |cs| && IsAlphabetic(cs[i]) then AlphaEnd(cs, i + 1) else i
  }

  function NumericEnd(cs: JString, i: nat): (j: nat)
    requires i <= |cs|
    ensures i <= j <= |cs|
    ensures j == |cs| || !IsNumeric(cs[j])
    decreases |cs| - i
  {
    if i < |cs| && IsNumeric(cs[i]) then NumericEnd(cs, i + 1) else i
  }

  // The run functions keep only their bounds and stop condition in their
  // contracts; what they step over is stated here, so that the quantifier
  // is present only where a proof asks for it.

  /** Every char SkipWs steps over is blank. */
  lemma {:induction false} SkipWsBlanks(cs: JString, i: nat)
    requires i <= |cs|
    ensures forall k :: i <= k < SkipWs(cs, i) ==> IsWhiteSpace(cs[k])
    decreases |cs| - i
  {
    if i < |cs| && IsWhiteSpace(cs[i]) {
      SkipWsBlanks(cs, i + 1);
    }
  }

  /** Every char AlphaEnd steps over is a letter. */
  lemma {:induction false} AlphaEndLetters(cs: JString, i: nat)
    requires i <= |cs|
    ensures forall k :: i <= k < AlphaEnd(cs, i) ==> IsAlphabetic(cs[k])
    decreases |cs| - i
  {
    if i < |cs| && IsAlphabetic(cs[i]) {
      AlphaEndLetters(cs, i + 1);
    }
  }

  /** Every char NumericEnd steps over may belong to a number. */
  lemma {:induction false} NumericEndDigits(cs: JString, i: nat)
    requires i <= |cs|
    ensures forall k :: i <= k < NumericEnd(cs, i) ==> IsNumeric(cs[k])
    decreases |cs| - i
  {
    if i < |cs| && IsNumeric(cs[i]) {
      NumericEndDigits(cs, i + 1);
    }
  }

  /**
   * The body of a string whose last consumed char is at idx: a backslash
   * takes the next char literally; the closing quote ends it.
   */
  function StringBody(cs: JString, idx: nat, acc: JString): (r: Result<(JString, nat)>)
    requires idx < |cs|
    ensures r.Ok? ==> idx + 2 <= r.value.1 <= |cs| && cs[r.value.1 - 1] == QUOTE
    ensures r.Err? ==> r.error == Json || r.error == IndexOutOfBounds
    decreases |cs| - idx
  {
    if idx + 1 < |cs| && cs[idx + 1] != QUOTE then
      if cs[idx + 1] == BACKSLASH then
        if idx + 2 < |cs| then StringBody(cs, idx + 2, acc + [cs[idx + 2]])
        else Err(IndexOutOfBounds)
      else StringBody(cs, idx + 1, acc + [cs[idx + 1]])
    else if idx + 1 == |cs| then Err(Json)
    else Ok((acc, idx + 2))
  }

  /** readString */
  function ParseString(cs: JString, i: nat): (r: Result<(JString, nat)>)
    requires i < |cs|
    ensures r.Ok? ==> cs[i] == QUOTE && i + 2 <= r.value.1 <= |cs| && cs[r.value.1 - 1] == QUOTE
  {
    if cs[i] != QUOTE then Err(Json) else StringBody(cs, i, [])
  }

  /** readBooleanOrNull: the run of letters, lower-cased, must be true, false or null. */
  function ParseWord(cs: JString, i: nat): (r: Result<(JavaObject, nat)>)
    requires i <= |cs|
    ensures r.Ok? ==> i < r.value.1 <= |cs|
    ensures r.Ok? ==> r.value.0 in {BooleanObject(true), BooleanObject(false), Storable(Null)}
  {
    var j := AlphaEnd(cs, i);
    var word := LowerAll(cs[i..j]);
    if word == TRUE_TEXT then Ok((BooleanObject(true), j))
    else if word == FALSE_TEXT then Ok((BooleanObject(false), j))
    else if word == NULL_TEXT then Ok((Storable(Null), j))
    else Err(Json)
  }

  /** readNumber: the run of numeric chars through Double.parseDouble; a value with a fraction is refused. */
  function ParseNumber(cs: JString, i: nat): (r: Result<(JavaObject, nat)>)
    requires i < |cs| && IsNumeric(cs[i])
    ensures r.Ok? ==> i < r.value.1 <= |cs| && r.value.0.Storable? && r.value.0.v.Num?
  {
    var j := NumericEnd(cs, i);
    match ParseDecimal(cs[i..j])
    case None => Err(Json)
    case Some(x) => if x == x.Floor as real then Ok((Storable(Num(x.Floor)), j)) else Err(Json)
  }

  /** readValue: dispatch on the first char. */
  function ParseValue(cs: JString, i: nat): (r: Result<(JavaObject, nat)>)
    requires i <= |cs|
    ensures r.Ok? ==> i < r.value.1 <= |cs|
    decreases |cs| - i, 2
  {
    if i == |cs| then Err(Json)
    else if cs[i] == QUOTE then
      var s :- ParseString(cs, i);
      Ok((Storable(Str(s.0)), s.1))
    else if cs[i] == OPEN_BRACE then
      var o :- ParseObject(cs, i);
      Ok((Storable(Obj(o.0)), o.1))
    else if cs[i] == OPEN_BRACKET then
      var a :- ParseArray(cs, i);
      Ok((Storable(Arr(a.0)), a.1))
    else if IsNumeric(cs[i]) then ParseNumber(cs, i)
    else ParseWord(cs, i)
  }

  predicate KeysValid(fields: seq<Field>)
  {
    DistinctKeys(fields) && forall k :: 0 <= k < |fields| ==> ValidKey(fields[k].key)
  }

  /** readObject: '{', then "key": value pairs separated by commas (a trailing one allowed), then '}'. */
  function ParseObject(cs: JString, i: nat): (r: Result<(seq<Field>, nat)>)
    requires i <= |cs|
    ensures r.Ok? ==> i < r.value.1 <= |cs|
    decreases |cs| - i, 1
  {
    var j := SkipWs(cs, i);
    if j == |cs| || cs[j] != OPEN_BRACE then Err(Json)
    else Members(cs, SkipWs(cs, j + 1), [])
  }

  /** The loop of readObject from idx, with the entries put so far. */
  function Members(cs: JString, idx: nat, fields: seq<Field>): (r: Result<(seq<Field>, nat)>)
    requires idx <= |cs|
    ensures r.Ok? ==> idx < r.value.1 <= |cs|
    decreases |cs| - idx, 4
  {
    if idx < |cs| && cs[idx] != CLOSE_BRACE then
      var step :- MemberStep(cs, idx, fields);
      Members(cs, step.1, step.0)
    else if idx == |cs| then Err(Json)
    else Ok((fields, idx + 1))
  }

  /** One pass of readObject's loop: an entry, put, then a ',' or the '}' that ends the loop. */
  function MemberStep(cs: JString, idx: nat, fields: seq<Field>): (r: Result<(seq<Field>, nat)>)
    requires idx < |cs|
    ensures r.Ok? ==> idx < r.value.1 <= |cs|
    decreases |cs| - idx, 3
  {
    var key :- EntryKey(cs, idx);
    var value :- ParseValue(cs, key.1);
    var v :- Validate(key.0, value.0);
    var e :- Separator(cs, value.1, CLOSE_BRACE);
    Ok((PutField(fields, key.0, v), SkipWs(cs, if cs[e] == COMMA then e + 1 else e)))
  }

  /** The quoted key of an entry, then blanks, ':' and blanks: the key and where its value starts. */
  function EntryKey(cs: JString, idx: nat): (r: Result<(JString, nat)>)
    requires idx < |cs|
    ensures r.Ok? ==> idx < r.value.1 <= |cs|
  {
    var key :- ParseString(cs, idx);
    var b := SkipWs(cs, key.1);
    if b == |cs| || cs[b] != COLON then Err(Json) else Ok((key.0, SkipWs(cs, b + 1)))
  }

  /** What may follow a value in a list: blanks, then a ',' or the closing char; gives where that char is. */
  function Separator(cs: JString, i: nat, closer: Char16): (r: Result<nat>)
    requires i <= |cs|
    ensures r.Ok? <==> SkipWs(cs, i) < |cs| && cs[SkipWs(cs, i)] in {closer, COMMA}
    ensures r.Ok? ==> r.value == SkipWs(cs, i)
    ensures r.Err? ==> r.error == Json
  {
    var e := SkipWs(cs, i);
    if e == |cs| || (cs[e] != closer && cs[e] != COMMA) then Err(Json) else Ok(e)
  }

  lemma MemberStepKeysValid(cs: JString, idx: nat, fields: seq<Field>)
    requires idx < |cs| && KeysValid(fields) && MemberStep(cs, idx, fields).Ok?
    ensures KeysValid(MemberStep(cs, idx, fields).value.0)
  {
    var key := EntryKey(cs, idx).value;
    var value := ParseValue(cs, key.1).value;
    var v := Validate(key.0, value.0).value;
    var r := PutField(fields, key.0, v);
    assert MemberStep(cs, idx, fields).value.0 == r;
    PutFieldEntries(fields, key.0, v);
    PutFieldDistinct(fields, key.0, v);
    forall k | 0 <= k < |r|
      ensures ValidKey(r[k].key)
    {
      if r[k].key != key.0 {
        var j :| 0 <= j < |fields| && fields[j] == r[k];
      }
    }
  }

  lemma {:induction false} MembersKeysValid(cs: JString, idx: nat, fields: seq<Field>)
    requires idx <= |cs| && KeysValid(fields) && Members(cs, idx, fields).Ok?
    ensures KeysValid(Members(cs, idx, fields).value.0)
    decreases |cs| - idx
  {
    if idx < |cs| && cs[idx] != CLOSE_BRACE {
      var step := MemberStep(cs, idx, fields).value;
      MemberStepKeysValid(cs, idx, fields);
      MembersKeysValid(cs, step.1, step.0);
    }
  }

  /** Every object readObject builds has valid, distinct keys. */
  lemma ParseObjectKeysValid(cs: JString, i: nat)
    requires i <= |cs| && ParseObject(cs, i).Ok?
    ensures KeysValid(ParseObject(cs, i).value.0)
  {
    var j := SkipWs(cs, i);
    MembersKeysValid(cs, SkipWs(cs, j + 1), []);
  }

  /** readArray: '[', then values separated by commas (a trailing one allowed), then ']'. */
  function ParseArray(cs: JString, i: nat): (r: Result<(seq<Value>, nat)>)
    requires i <= |cs|
    ensures r.Ok? ==> i < r.value.1 <= |cs|
    decreases |cs| - i, 1
  {
    var j := SkipWs(cs, i);
    if j == |cs| || cs[j] != OPEN_BRACKET then Err(Json)
    else Items(cs, SkipWs(cs, j + 1), [])
  }

  /** The loop of readArray from idx, with the items put so far. */
  function Items(cs: JString, idx: nat, items: seq<Value>): (r: Result<(seq<Value>, nat)>)
    requires idx <= |cs|
    ensures r.Ok? ==> idx < r.value.1 <= |cs|
    decreases |cs| - idx, 4
  {
    if idx < |cs| && cs[idx] != CLOSE_BRACKET then
      var step :- ItemStep(cs, idx, items);
      Items(cs, step.1, step.0)
    else if idx == |cs| then Err(Json)
    else Ok((items, idx + 1))
  }

  /** One pass of readArray's loop: a value, put, then a ',' or the ']' that ends the loop. */
  function ItemStep(cs: JString, idx: nat, items: seq<Value>): (r: Result<(seq<Value>, nat)>)
    requires idx < |cs|
    ensures r.Ok? ==> idx < r.value.1 <= |cs|
    decreases |cs| - idx, 3
  {
    var value :- ParseValue(cs, idx);
    var v :- ValidateValue(value.0);
    var e :- Separator(cs, value.1, CLOSE_BRACKET);
    Ok((items + [v], if cs[e] == COMMA then SkipWs(cs, e + 1) else e))
  }

  // ---------------------------------------------------------------- the readers

  /** skipWhiteSpaces */
  method SkipWhiteSpaces(chars: JString, index: nat) returns (r: nat)
    requires index <= |chars|
    ensures r == SkipWs(chars, index)
  {
    r := index;
    while r < |chars| && IsWhiteSpace(chars[r])
      invariant index <= r <= |chars|
      invariant SkipWs(chars, r) == SkipWs(chars, index)
    {
      r := r + 1;
    }
  }

  /** readString */
  method ReadString(chars: JString, index: nat) returns (r: Result<(JString, nat)>)
    requires index < |chars|
    ensures r == ParseString(chars, index)
  {
    if chars[index] != QUOTE {
      return Err(Json);
    }
    var sb: JString := [];
    var i := index;
    while i + 1 < |chars| && chars[i + 1] != QUOTE
      invariant index <= i < |chars|
      invariant StringBody(chars, i, sb) == StringBody(chars, index, [])
      decreases |chars| - i
    {
      i := i + 1;
      var c := chars[i];
      if c == BACKSLASH {
        if i + 1 >= |chars| {
          return Err(IndexOutOfBounds);
        }
        i := i + 1;
        c := chars[i];
      }
      sb := sb + [c];
    }
    if i + 1 == |chars| {
      return Err(Json);
    }
    return Ok((sb, i + 2));
  }

  /** readBooleanOrNull */
  method ReadBooleanOrNull(chars: JString, index: nat) returns (r: Result<(JavaObject, nat)>)
    requires index <= |chars|
    ensures r == ParseWord(chars, index)
  {
    var sb: JString := [];
    var i := index;
    while i < |chars| && IsAlphabetic(chars[i])
      invariant index <= i <= |chars|
      invariant sb == chars[index..i]
      invariant AlphaEnd(chars, i) == AlphaEnd(chars, index)
    {
      sb := sb + [chars[i]];
      i := i + 1;
    }
    var rawValue := LowerAll(sb);
    if rawValue == TRUE_TEXT {
      return Ok((BooleanObject(true), i));
    } else if rawValue == FALSE_TEXT {
      return Ok((BooleanObject(false), i));
    } else if rawValue == NULL_TEXT {
      return Ok((Storable(Null), i));
    }
    return Err(Json);
  }

  /** readNumber */
  method ReadNumber(chars: JString, index: nat) returns (r: Result<(JavaObject, nat)>)
    requires index < |chars| && IsNumeric(chars[index])
    ensures r == ParseNumber(chars, index)
  {
    var sb: JString := [];
    var i := index;
    while i < |chars| && IsNumeric(chars[i])
      invariant index <= i <= |chars|
      invariant sb == chars[index..i]
      invariant NumericEnd(chars, i) == NumericEnd(chars, index)
    {
      sb := sb + [chars[i]];
      i := i + 1;
    }
    match ParseDecimal(sb)
    case None =>
      return Err(Json);
    case Some(x) =>
      if x == x.Floor as real {
        return Ok((Storable(Num(x.Floor)), i));
      }
      return Err(Json);
  }

  /** readValue */
  method ReadValue(chars: JString, index: nat) returns (r: Result<(JavaObject, nat)>)
    requires index <= |chars|
    ensures r == ParseValue(chars, index)
    decreases |chars| - index, 2
  {
    if index == |chars| {
      return Err(Json);
    }
    var firstChar := chars[index];
    if firstChar == QUOTE {
      var s :- ReadString(chars, index);
      return Ok((Storable(Str(s.0)), s.1));
    } else if firstChar == OPEN_BRACE {
      var o :- ReadObject(chars, index);
      return Ok((Storable(Obj(o.0.fields)), o.1));
    } else if firstChar == OPEN_BRACKET {
      var a :- ReadArray(chars, index);
      return Ok((Storable(Arr(a.0.items)), a.1));
    } else if IsNumeric(firstChar) {
      r := ReadNumber(chars, index);
    } else {
      r := ReadBooleanOrNull(chars, index);
    }
  }

  /** readObject: builds a fresh YashON through put. */
  method ReadObject(chars: JString, index0: nat) returns (r: Result<(YashON, nat)>)
    requires index0 <= |chars|
    ensures ParseObject(chars, index0).Err? ==> r == Err(ParseObject(chars, index0).error)
    ensures ParseObject(chars, index0).Ok? ==>
              r.Ok? && fresh(r.value.0) && r.value.0.Valid() &&
              r.value.0.fields == ParseObject(chars, index0).value.0 && r.value.1 == ParseObject(chars, index0).value.1
    decreases |chars| - index0, 1
  {
    var index := SkipWhiteSpaces(chars, index0);
    if index == |chars| || chars[index] != OPEN_BRACE {
      return Err(Json);
    }
    var yashON := new YashON();
    index := SkipWhiteSpaces(chars, index + 1);
    var end :- ReadMembers(chars, index, yashON);
    return Ok((yashON, end));
  }

  /** The loop of readObject, filling yashON from index0 on. */
  method ReadMembers(chars: JString, index0: nat, yashON: YashON) returns (r: Result<nat>)
    requires index0 <= |chars| && yashON.Valid() && yashON.fields == []
    modifies yashON
    ensures yashON.Valid()
    ensures match Members(chars, index0, [])
      case Err(e) => r == Err(e)
      case Ok(read) => r == Ok(read.1) && yashON.fields == read.0
    decreases |chars| - index0, 4
  {
    var index := index0;
    while index < |chars| && chars[index] != CLOSE_BRACE
      invariant index0 <= index <= |chars|
      invariant yashON.Valid()
      invariant Members(chars, index, yashON.fields) == Members(chars, index0, [])
      decreases |chars| - index
    {
      index :- ReadMember(chars, index, yashON);
    }
    if index == |chars| {
      return Err(Json);
    }
    return Ok(index + 1);
  }

  /** readArray: builds a fresh YashAN through put. */
  method ReadArray(chars: JString, index0: nat) returns (r: Result<(YashAN, nat)>)
    requires index0 <= |chars|
    ensures ParseArray(chars, index0).Err? ==> r == Err(ParseArray(chars, index0).error)
    ensures ParseArray(chars, index0).Ok? ==>
              r.Ok? && fresh(r.value.0) &&
              r.value.0.items == ParseArray(chars, index0).value.0 && r.value.1 == ParseArray(chars, index0).value.1
    decreases |chars| - index0, 1
  {
    var index := SkipWhiteSpaces(chars, index0);
    if index == |chars| || chars[index] != OPEN_BRACKET {
      return Err(Json);
    }
    var yashAN := new YashAN();
    index := SkipWhiteSpaces(chars, index + 1);
    var end :- ReadItems(chars, index, yashAN);
    return Ok((yashAN, end));
  }

  /** The loop of readArray, filling yashAN from index0 on. */
  method ReadItems(chars: JString, index0: nat, yashAN: YashAN) returns (r: Result<nat>)
    requires index0 <= |chars| && yashAN.items == []
    modifies yashAN
    ensures match Items(chars, index0, [])
      case Err(e) => r == Err(e)
      case Ok(read) => r == Ok(read.1) && yashAN.items == read.0
    decreases |chars| - index0, 4
  {
    var index := index0;
    while index < |chars| && chars[index] != CLOSE_BRACKET
      invariant index0 <= index <= |chars|
      invariant Items(chars, index, yashAN.items) == Items(chars, index0, [])
      decreases |chars| - index
    {
      index :- ReadItem(chars, index, yashAN);
    }
    if index == |chars| {
      return Err(Json);
    }
    return Ok(index + 1);
  }

  /** The key-and-colon part of readObject's loop. */
  method ReadEntryKey(chars: JString, index0: nat) returns (r: Result<(JString, nat)>)
    requires index0 < |chars|
    ensures r == EntryKey(chars, index0)
  {
    var readString :- ReadString(chars, index0);
    var index := SkipWhiteSpaces(chars, readString.1);
    if index == |chars| || chars[index] != COLON {
      return Err(Json);
    }
    index := SkipWhiteSpaces(chars, index + 1);
    return Ok((readString.0, index));
  }

  /** The check after a value in readObject's and readArray's loops. */
  method ReadSeparator(chars: JString, index0: nat, closer: Char16) returns (r: Result<nat>)
    requires index0 <= |chars|
    ensures r == Separator(chars, index0, closer)
  {
    var index := SkipWhiteSpaces(chars, index0);
    if index == |chars| || (chars[index] != closer && chars[index] != COMMA) {
      return Err(Json);
    }
    return Ok(index);
  }

  /** The body of readObject's loop, putting one entry into yashON. */
  method ReadMember(chars: JString, index0: nat, yashON: YashON) returns (r: Result<nat>)
    requires index0 < |chars| && yashON.Valid()
    modifies yashON
    ensures yashON.Valid()
    ensures MemberStep(chars, index0, old(yashON.fields)).Err? ==> r == Err(MemberStep(chars, index0, old(yashON.fields)).error)
    ensures MemberStep(chars, index0, old(yashON.fields)).Ok? ==>
              r == Ok(MemberStep(chars, index0, old(yashON.fields)).value.1) &&
              yashON.fields == MemberStep(chars, index0, old(yashON.fields)).value.0
    decreases |chars| - index0, 3
  {
    var entry :- ReadEntryKey(chars, index0);
    var readValue :- ReadValue(chars, entry.1);
    var put :- yashON.Put(entry.0, readValue.0);
    var index :- ReadSeparator(chars, readValue.1, CLOSE_BRACE);
    if chars[index] == COMMA {
      index := index + 1;
    }
    index := SkipWhiteSpaces(chars, index);
    return Ok(index);
  }

  /** The body of readArray's loop, putting one item into yashAN. */
  method ReadItem(chars: JString, index0: nat, yashAN: YashAN) returns (r: Result<nat>)
    requires index0 < |chars|
    modifies yashAN
    ensures ItemStep(chars, index0, old(yashAN.items)).Err? ==> r == Err(ItemStep(chars, index0, old(yashAN.items)).error)
    ensures ItemStep(chars, index0, old(yashAN.items)).Ok? ==>
              r == Ok(ItemStep(chars, index0, old(yashAN.items)).value.1) &&
              yashAN.items == ItemStep(chars, index0, old(yashAN.items)).value.0
    decreases |chars| - index0, 3
  {
    var readValue :- ReadValue(chars, index0);
    var put :- yashAN.Put(readValue.0);
    var index :- ReadSeparator(chars, readValue.1, CLOSE_BRACKET);
    if chars[index] == COMMA {
      index := SkipWhiteSpaces(chars, index + 1);
    }
    return Ok(index);
  }

  /** YashON.parse: read an object from the start of the text; what follows it is ignored. */
  method ParseYashON(str: JString) returns (r: Result<YashON>)
    ensures ParseObject(str, 0).Ok? ==> r.Ok? && r.value.Valid() && r.value.fields == ParseObject(str, 0).value.0
    ensures ParseObject(str, 0).Err? ==> r == Err(ParseObject(str, 0).error)
  {
    var read :- ReadObject(str, 0);
    return Ok(read.0);
  }

  /** YashAN.parse */
  method ParseYashAN(str: JString) returns (r: Result<YashAN>)
    ensures ParseArray(str, 0).Ok? ==> r.Ok? && r.value.items == ParseArray(str, 0).value.0
    ensures ParseArray(str, 0).Err? ==> r == Err(ParseArray(str, 0).error)
  {
    var read :- ReadArray(str, 0);
    return Ok(read.0);
  }
}
