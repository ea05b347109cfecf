/**
 * What the JSON reader does with the text toString writes.
 *
 * toString quotes every scalar and escapes only '"', while the reader takes
 * the char after any backslash literally.  So a document whose strings hold
 * no backslash reads back as itself, except that its numbers come back as
 * their decimal text (they were written quoted).
 */
module JsonLaws {
  import opened Text
  import opened Values
  import opened Results
  import opened JsonParser
  import opened Sequences

  // ---------------------------------------------------------------- what comes back

  /** The value the reader gives for the text toString wrote for v. */
  function Reread(v: Value): (r: Value)
    decreases v, 0
  {
    match v
    case Null => Null
    case Str(s) => Str(s)
    case Num(n) => Str(DecimalText(n))
    case Obj(fields) => Obj(RereadFields(fields))
    case Arr(items) => Arr(RereadItems(items))
  }

  function RereadFields(fields: seq<Field>): (r: seq<Field>)
    ensures |r| == |fields|
    decreases fields, 0
  {
    if fields == [] then [] else [Field(fields[0].key, Reread(fields[0].value))] + RereadFields(fields[1..])
  }

  function RereadItems(items: seq<Value>): (r: seq<Value>)
    ensures |r| == |items|
    decreases items, 0
  {
    if items == [] then [] else [Reread(items[0])] + RereadItems(items[1..])
  }

  /** Documents the reader accepts back: valid distinct keys, and no backslash in any string. */
  predicate Reparsable(v: Value)
    decreases v, 1
  {
    match v
    case Str(s) => BACKSLASH !in s
    case Obj(fields) => KeysValid(fields) && ReparsableFields(fields)
    case Arr(items) => ReparsableItems(items)
    case _ => true
  }

  predicate ReparsableFields(fields: seq<Field>)
    decreases fields, 0
  {
    forall i :: 0 <= i < |fields| ==> Reparsable(fields[i].value)
  }

  predicate ReparsableItems(items: seq<Value>)
    decreases items, 0
  {
    forall i :: 0 <= i < |items| ==> Reparsable(items[i])
  }

  // ---------------------------------------------------------------- text at a position

  /** The text p stands in cs from position i. */
  predicate At(cs: JString, i: nat, p: JString)
  {
    i + |p| <= |cs| && forall k :: 0 <= k < |p| ==> cs[i + k] == p[k]
  }

  /** A text stands at the start of anything it begins. */
  lemma AtPrefix(p: JString, rest: JString)
    ensures At(p + rest, 0, p)
  {
    forall k | 0 <= k < |p|
      ensures (p + rest)[0 + k] == p[k]
    {
    }
  }

  lemma AtConcat(cs: JString, i: nat, a: JString, b: JString)
    requires At(cs, i, a + b)
    ensures At(cs, i, a) && At(cs, i + |a|, b)
  {
    forall k | 0 <= k < |a|
      ensures cs[i + k] == a[k]
    {
      assert (a + b)[k] == a[k];
    }
    forall k | 0 <= k < |b|
      ensures cs[i + |a| + k] == b[k]
    {
      assert (a + b)[|a| + k] == b[k];
    }
  }

  lemma AtChar(cs: JString, i: nat, p: JString, k: nat)
    requires At(cs, i, p) && k < |p|
    ensures cs[i + k] == p[k]
  {
  }

  lemma SkipWsAt(cs: JString, i: nat)
    requires i < |cs| && !IsWhiteSpace(cs[i])
    ensures SkipWs(cs, i) == i
  {
  }

  /** An alphabetic run that ends where a non-letter (or the end) follows. */
  lemma {:induction false} AlphaEndAt(cs: JString, i: nat, j: nat)
    requires i <= j <= |cs|
    requires forall k :: i <= k < j ==> IsAlphabetic(cs[k])
    requires j == |cs| || !IsAlphabetic(cs[j])
    ensures AlphaEnd(cs, i) == j
    decreases j - i
  {
    if i < j {
      AlphaEndAt(cs, i + 1, j);
    }
  }

  lemma DecimalTextPlain(n: int)
    ensures QUOTE !in DecimalText(n) && BACKSLASH !in DecimalText(n)
  {
    var d := Digits(if n < 0 then -n else n);
    assert forall i :: 0 <= i < |d| ==> IsDigit(d[i]);
    if n < 0 {
      assert DecimalText(n) == [MINUS] + d;
    }
  }

  /** toString never starts a value with a blank, a closer, a digit or a sign. */
  lemma RenderValueStart(v: Value)
    ensures |RenderValue(v)| >= 2
    ensures RenderValue(v)[0] in {NULL_TEXT[0], QUOTE, OPEN_BRACE, OPEN_BRACKET}
  {
    match v
    case Null =>
    case Str(s) =>
    case Num(n) =>
    case Obj(fields) =>
    case Arr(items) =>
  }

  // ---------------------------------------------------------------- strings

  /** The reader's string loop over an escaped string followed by the closing quote. */
  lemma {:induction false} StringBodyOfEscape(cs: JString, idx: nat, acc: JString, s: JString)
    requires idx < |cs| && BACKSLASH !in s
    requires At(cs, idx + 1, Escape(s) + [QUOTE])
    ensures StringBody(cs, idx, acc) == Ok((acc + s, idx + |Escape(s)| + 2))
    decreases |s|
  {
    if s == [] {
      AtChar(cs, idx + 1, Escape(s) + [QUOTE], 0);
      assert acc + s == acc;
    } else {
      var w := if s[0] == QUOTE then 2 else 1;
      EscapeStep(cs, idx, acc, s);
      StringBodyOfEscape(cs, idx + w, acc + [s[0]], s[1..]);
      assert acc + [s[0]] + s[1..] == acc + s;
    }
  }

  /** One pass of the reader's string loop over the first char of an escaped string. */
  lemma EscapeStep(cs: JString, idx: nat, acc: JString, s: JString)
    requires s != [] && idx < |cs| && BACKSLASH !in s
    requires At(cs, idx + 1, Escape(s) + [QUOTE])
    ensures var w := if s[0] == QUOTE then 2 else 1;
            idx + w < |cs| && BACKSLASH !in s[1..] && At(cs, idx + w + 1, Escape(s[1..]) + [QUOTE]) &&
            |Escape(s)| == w + |Escape(s[1..])| &&
            StringBody(cs, idx, acc) == StringBody(cs, idx + w, acc + [s[0]])
  {
    var head := if s[0] == QUOTE then [BACKSLASH, QUOTE] else [s[0]];
    var rest := s[1..];
    assert Escape(s) == head + Escape(rest);
    assert Escape(s) + [QUOTE] == head + (Escape(rest) + [QUOTE]);
    AtConcat(cs, idx + 1, head, Escape(rest) + [QUOTE]);
    AtChar(cs, idx + 1 + |head|, Escape(rest) + [QUOTE], 0);
    assert BACKSLASH !in rest by {
      assert forall k :: 0 <= k < |rest| ==> rest[k] == s[k + 1];
    }
    if s[0] == QUOTE {
      EscapedQuoteStep(cs, idx, acc);
    } else {
      assert s[0] != BACKSLASH by { assert s[0] in s; }
      PlainCharStep(cs, idx, acc, s[0]);
    }
  }

  lemma EscapedQuoteStep(cs: JString, idx: nat, acc: JString)
    requires idx < |cs| && At(cs, idx + 1, [BACKSLASH, QUOTE])
    ensures StringBody(cs, idx, acc) == StringBody(cs, idx + 2, acc + [QUOTE])
  {
    AtChar(cs, idx + 1, [BACKSLASH, QUOTE], 0);
    AtChar(cs, idx + 1, [BACKSLASH, QUOTE], 1);
  }

  lemma PlainCharStep(cs: JString, idx: nat, acc: JString, c: Char16)
    requires idx < |cs| && At(cs, idx + 1, [c]) && c != QUOTE && c != BACKSLASH
    ensures StringBody(cs, idx, acc) == StringBody(cs, idx + 1, acc + [c])
  {
    AtChar(cs, idx + 1, [c], 0);
  }

  /** readString reads back what appendString wrote between quotes, for a string with no backslash. */
  lemma StringRoundTrip(cs: JString, i: nat, s: JString)
    requires BACKSLASH !in s
    requires At(cs, i, [QUOTE] + Escape(s) + [QUOTE])
    ensures ParseString(cs, i) == Ok((s, i + |Escape(s)| + 2))
  {
    assert [QUOTE] + Escape(s) + [QUOTE] == [QUOTE] + (Escape(s) + [QUOTE]);
    AtConcat(cs, i, [QUOTE], Escape(s) + [QUOTE]);
    AtChar(cs, i, [QUOTE], 0);
    StringBodyOfEscape(cs, i, [], s);
    assert [] + s == s;
  }

  /** The same on a string alone. */
  lemma ReadStringOfAppendString(s: JString, rest: JString)
    requires BACKSLASH !in s
    ensures ParseString([QUOTE] + Escape(s) + [QUOTE] + rest, 0) == Ok((s, |Escape(s)| + 2))
  {
    var text := [QUOTE] + Escape(s) + [QUOTE];
    AtPrefix(text, rest);
    StringRoundTrip(text + rest, 0, s);
  }

  /** A backslash is not escaped, so the quote after it is taken as text and the string never ends. */
  lemma BackslashNotReread()
    ensures ParseString(RenderValue(Str([BACKSLASH])), 0) == Err(Json)
  {
    var cs := RenderValue(Str([BACKSLASH]));
    assert Escape([BACKSLASH]) == [BACKSLASH] + Escape([]);
    assert cs == [QUOTE, BACKSLASH, QUOTE];
    assert StringBody(cs, 0, []) == StringBody(cs, 2, [QUOTE]);
    assert StringBody(cs, 2, [QUOTE]) == Err(Json);
  }

  // ---------------------------------------------------------------- values

  lemma {:induction false} ValueRoundTrip(cs: JString, i: nat, v: Value)
    requires Reparsable(v) && At(cs, i, RenderValue(v))
    requires i + |RenderValue(v)| == |cs| || !IsAlphabetic(cs[i + |RenderValue(v)|])
    ensures ParseValue(cs, i) == Ok((Storable(Reread(v)), i + |RenderValue(v)|))
    decreases v, 2
  {
    match v
    case Null =>
      NullRoundTrip(cs, i);
    case Str(s) =>
      StringValueRoundTrip(cs, i, s);
    case Num(n) =>
      DecimalTextPlain(n);
      StringValueRoundTrip(cs, i, DecimalText(n));
    case Obj(fields) =>
      ObjectValueRoundTrip(cs, i, fields);
    case Arr(items) =>
      ArrayValueRoundTrip(cs, i, items);
  }

  /** null is written bare and read back by readBooleanOrNull. */
  lemma NullRoundTrip(cs: JString, i: nat)
    requires At(cs, i, NULL_TEXT)
    requires i + 4 == |cs| || !IsAlphabetic(cs[i + 4])
    ensures ParseValue(cs, i) == Ok((Storable(Null), i + 4))
  {
    forall k | i <= k < i + 4
      ensures IsAlphabetic(cs[k])
    {
      AtChar(cs, i, NULL_TEXT, k - i);
    }
    AlphaEndAt(cs, i, i + 4);
    assert cs[i..i + 4] == NULL_TEXT;
  }

  /** A numeric run that ends where a non-numeric char (or the end) follows. */
  lemma {:induction false} NumericEndAt(cs: JString, i: nat, j: nat)
    requires i <= j <= |cs|
    requires forall k :: i <= k < j ==> IsNumeric(cs[k])
    requires j == |cs| || !IsNumeric(cs[j])
    ensures NumericEnd(cs, i) == j
    decreases j - i
  {
    if i < j {
      NumericEndAt(cs, i + 1, j);
    }
  }

  /** The decimal text of an integer, standing alone, is read back by readNumber as that integer. */
  lemma NumberRoundTrip(cs: JString, i: nat, n: int)
    requires At(cs, i, DecimalText(n))
    requires i + |DecimalText(n)| == |cs| || !IsNumeric(cs[i + |DecimalText(n)|])
    ensures i < |cs| && IsNumeric(cs[i])
    ensures ParseNumber(cs, i) == Ok((Storable(Num(n)), i + |DecimalText(n)|))
  {
    var t := DecimalText(n);
    var d := Digits(if n < 0 then -n else n);
    assert forall k :: 0 <= k < |d| ==> IsDigit(d[k]);
    forall k | i <= k < i + |t|
      ensures IsNumeric(cs[k])
    {
      AtChar(cs, i, t, k - i);
      if n < 0 {
        assert t == [MINUS] + d;
        if k > i {
          assert t[k - i] == d[k - i - 1];
        }
      }
    }
    NumericEndAt(cs, i, i + |t|);
    assert cs[i..i + |t|] == t;
    ParseDecimalOfDecimalText(n);
  }

  lemma StringValueRoundTrip(cs: JString, i: nat, s: JString)
    requires BACKSLASH !in s
    requires At(cs, i, [QUOTE] + Escape(s) + [QUOTE])
    ensures ParseValue(cs, i) == Ok((Storable(Str(s)), i + |Escape(s)| + 2))
  {
    AtChar(cs, i, [QUOTE] + Escape(s) + [QUOTE], 0);
    StringRoundTrip(cs, i, s);
  }

  lemma ObjectValueRoundTrip(cs: JString, i: nat, fields: seq<Field>)
    requires KeysValid(fields) && ReparsableFields(fields)
    requires At(cs, i, RenderObject(fields))
    ensures ParseValue(cs, i) == Ok((Storable(Obj(RereadFields(fields))), i + |RenderObject(fields)|))
    decreases fields, 6
  {
    AtChar(cs, i, RenderObject(fields), 0);
    ObjectRoundTrip(cs, i, fields);
  }

  lemma ArrayValueRoundTrip(cs: JString, i: nat, items: seq<Value>)
    requires ReparsableItems(items)
    requires At(cs, i, RenderArray(items))
    ensures ParseValue(cs, i) == Ok((Storable(Arr(RereadItems(items))), i + |RenderArray(items)|))
    decreases items, 5
  {
    AtChar(cs, i, RenderArray(items), 0);
    ArrayRoundTrip(cs, i, items);
  }

  // ---------------------------------------------------------------- objects

  /** PutField of a key not yet present adds the entry at the end. */
  lemma {:induction false} PutFieldNew(fields: seq<Field>, key: JString, v: Value)
    requires Lookup(fields, key).None?
    ensures PutField(fields, key, v) == fields + [Field(key, v)]
  {
    if fields != [] {
      var rest := fields[1..];
      assert fields[0].key != key && Lookup(rest, key).None?;
      PutFieldNew(rest, key, v);
      PutFieldPast(fields, key, v);
      ConsSnoc(fields, Field(key, v));
    }
  }

  /** PutField goes past an entry under another key. */
  lemma PutFieldPast(fields: seq<Field>, key: JString, v: Value)
    requires fields != [] && fields[0].key != key
    ensures PutField(fields, key, v) == [fields[0]] + PutField(fields[1..], key, v)
  {
  }

  /** readObject's loop body once the key and the value have been read. */
  lemma MemberStepOf(cs: JString, idx: nat, done: seq<Field>, key: JString, c: nat, w: Value, j: nat)
    requires idx < |cs| && ValidKey(key)
    requires EntryKey(cs, idx) == Ok((key, c)) && c <= |cs| && ParseValue(cs, c) == Ok((Storable(w), j))
    requires j < |cs| && cs[j] in {COMMA, CLOSE_BRACE}
    requires cs[j] == COMMA ==> j + 1 < |cs| && !IsWhiteSpace(cs[j + 1])
    requires Lookup(done, key).None?
    ensures MemberStep(cs, idx, done) == Ok((PutField(done, key, w), if cs[j] == COMMA then j + 1 else j))
  {
    assert Validate(key, Storable(w)) == Ok(w);
    SeparatorAt(cs, j, CLOSE_BRACE);
  }

  /** A ',' or the closer right after a value, and no blank after the ',': where the next pass starts. */
  lemma SeparatorAt(cs: JString, j: nat, closer: Char16)
    requires j < |cs| && (cs[j] == COMMA || cs[j] == closer) && !IsWhiteSpace(closer)
    requires cs[j] == COMMA ==> j + 1 < |cs| && !IsWhiteSpace(cs[j + 1])
    ensures Separator(cs, j, closer) == Ok(j)
    ensures var next := if cs[j] == COMMA then j + 1 else j; SkipWs(cs, next) == next
  {
    SkipWsAt(cs, j);
    if cs[j] == COMMA {
      SkipWsAt(cs, j + 1);
    }
  }

  /** The key of toString's entry text, as readObject's loop reads it. */
  lemma EntryKeyRoundTrip(cs: JString, idx: nat, f: Field)
    requires ValidKey(f.key) && At(cs, idx, RenderEntry(f))
    ensures EntryKey(cs, idx) == Ok((f.key, idx + |f.key| + 3))
    ensures At(cs, idx + |f.key| + 3, RenderValue(f.value))
  {
    var key, text := f.key, RenderValue(f.value);
    assert QUOTE !in key && BACKSLASH !in key by {
      assert forall k :: 0 <= k < |key| ==> IsKeyChar(key[k]);
    }
    EscapeNoQuote(key);
    assert RenderEntry(f) == ([QUOTE] + Escape(key) + [QUOTE]) + ([COLON] + text);
    AtConcat(cs, idx, [QUOTE] + Escape(key) + [QUOTE], [COLON] + text);
    StringRoundTrip(cs, idx, key);
    var b := idx + |key| + 2;
    AtConcat(cs, b, [COLON], text);
    AtChar(cs, b, [COLON], 0);
    SkipWsAt(cs, b);
    RenderValueStart(f.value);
    AtChar(cs, b + 1, text, 0);
    SkipWsAt(cs, b + 1);
  }

  /** One entry of toString's text, as readObject's loop reads it. */
  lemma EntryRoundTrip(cs: JString, idx: nat, done: seq<Field>, f: Field)
    requires ValidKey(f.key) && Reparsable(f.value) && Lookup(done, f.key).None?
    requires At(cs, idx, RenderEntry(f))
    requires idx + |RenderEntry(f)| < |cs| && cs[idx + |RenderEntry(f)|] in {COMMA, CLOSE_BRACE}
    requires cs[idx + |RenderEntry(f)|] == COMMA ==>
               idx + |RenderEntry(f)| + 1 < |cs| && cs[idx + |RenderEntry(f)| + 1] == QUOTE
    ensures MemberStep(cs, idx, done) ==
              Ok((done + [Field(f.key, Reread(f.value))],
                  var e := idx + |RenderEntry(f)|; if cs[e] == COMMA then e + 1 else e))
    decreases f, 3
  {
    var c := idx + |f.key| + 3;
    var text := RenderValue(f.value);
    EntryKeyRoundTrip(cs, idx, f);
    var e := idx + |RenderEntry(f)|;
    assert |RenderEntry(f)| == |f.key| + 3 + |text|;
    assert e == c + |text|;
    assert !IsAlphabetic(cs[e]);
    ValueRoundTrip(cs, c, f.value);
    MemberStepOf(cs, idx, done, f.key, c, Reread(f.value), e);
    PutFieldNew(done, f.key, Reread(f.value));
  }

  lemma EntryStart(f: Field)
    ensures |RenderEntry(f)| > 0 && RenderEntry(f)[0] == QUOTE
  {
  }

  /** toString's entries: the first entry, then a comma and the others. */
  lemma FieldsHead(fields: seq<Field>)
    requires fields != []
    ensures RenderFields(fields) ==
              RenderEntry(fields[0]) + (if |fields| == 1 then [] else [COMMA] + RenderFields(fields[1..]))
  {
    if |fields| > 1 {
      Assoc(RenderEntry(fields[0]), [COMMA], RenderFields(fields[1..]));
    }
  }

  lemma FieldsStart(fields: seq<Field>)
    requires fields != []
    ensures |RenderFields(fields)| > 0 && RenderFields(fields)[0] == QUOTE
  {
    FieldsHead(fields);
    EntryStart(fields[0]);
  }

  /** What the rest of the entries still satisfy once the first is read. */
  lemma FieldsTail(done: seq<Field>, fields: seq<Field>)
    requires fields != [] && KeysValid(fields) && ReparsableFields(fields)
    requires forall j, k :: 0 <= j < |done| && 0 <= k < |fields| ==> done[j].key != fields[k].key
    ensures ValidKey(fields[0].key) && Reparsable(fields[0].value) && Lookup(done, fields[0].key).None?
    ensures KeysValid(fields[1..]) && ReparsableFields(fields[1..])
    ensures var done' := done + [Field(fields[0].key, Reread(fields[0].value))];
            forall j, k :: 0 <= j < |done'| && 0 <= k < |fields| - 1 ==> done'[j].key != fields[1..][k].key
  {
    var rest := fields[1..];
    assert forall k :: 0 <= k < |rest| ==> rest[k] == fields[k + 1];
  }

  /** A single entry: toString's entry text is that entry's text. */
  lemma FieldsAtOne(cs: JString, idx: nat, fields: seq<Field>)
    requires |fields| == 1 && At(cs, idx, RenderFields(fields))
    ensures At(cs, idx, RenderEntry(fields[0])) && |RenderFields(fields)| == |RenderEntry(fields[0])|
  {
    assert RenderFields(fields) == RenderEntry(fields[0]);
  }

  /** Several entries: where the first, the comma after it and the others stand; e is where the others start. */
  lemma FieldsAtMany(cs: JString, idx: nat, fields: seq<Field>, e: nat)
    requires |fields| > 1 && At(cs, idx, RenderFields(fields))
    requires e == idx + |RenderEntry(fields[0])| + 1
    ensures At(cs, idx, RenderEntry(fields[0]))
    ensures e < |cs| && cs[e - 1] == COMMA && cs[e] == QUOTE
    ensures At(cs, e, RenderFields(fields[1..])) && e + |RenderFields(fields[1..])| == idx + |RenderFields(fields)|
  {
    var entry, rest := RenderEntry(fields[0]), fields[1..];
    assert RenderFields(fields) == entry + ([COMMA] + RenderFields(rest)) by {
      FieldsHead(fields);
    }
    assert At(cs, idx, entry) && At(cs, e - 1, [COMMA] + RenderFields(rest)) by {
      AtConcat(cs, idx, entry, [COMMA] + RenderFields(rest));
    }
    assert cs[e - 1] == COMMA && At(cs, e, RenderFields(rest)) by {
      AtConcat(cs, e - 1, [COMMA], RenderFields(rest));
      AtChar(cs, e - 1, [COMMA], 0);
    }
    assert cs[e] == QUOTE by {
      FieldsStart(rest);
      AtChar(cs, e, RenderFields(rest), 0);
    }
  }

  /** readObject's loop reads one entry of toString's text and goes on after it. */
  lemma MembersEntry(cs: JString, idx: nat, done: seq<Field>, f: Field)
    requires ValidKey(f.key) && Reparsable(f.value) && Lookup(done, f.key).None?
    requires At(cs, idx, RenderEntry(f))
    requires idx + |RenderEntry(f)| < |cs| && cs[idx + |RenderEntry(f)|] in {COMMA, CLOSE_BRACE}
    requires cs[idx + |RenderEntry(f)|] == COMMA ==>
               idx + |RenderEntry(f)| + 1 < |cs| && cs[idx + |RenderEntry(f)| + 1] == QUOTE
    ensures var e := idx + |RenderEntry(f)|;
            var next := if cs[e] == COMMA then e + 1 else e;
            next <= |cs| && Members(cs, idx, done) == Members(cs, next, done + [Field(f.key, Reread(f.value))])
    decreases f, 4
  {
    EntryStart(f);
    AtChar(cs, idx, RenderEntry(f), 0);
    EntryRoundTrip(cs, idx, done, f);
  }

  lemma MembersEnd(cs: JString, idx: nat, done: seq<Field>)
    requires idx < |cs| && cs[idx] == CLOSE_BRACE
    ensures Members(cs, idx, done) == Ok((done, idx + 1))
  {
  }

  /** The only entry of toString's entry text, then the closing brace. */
  lemma MembersOnly(cs: JString, idx: nat, done: seq<Field>, fields: seq<Field>)
    requires |fields| == 1 && ValidKey(fields[0].key) && Reparsable(fields[0].value)
    requires Lookup(done, fields[0].key).None?
    requires At(cs, idx, RenderFields(fields))
    requires idx + |RenderFields(fields)| < |cs| && cs[idx + |RenderFields(fields)|] == CLOSE_BRACE
    ensures Members(cs, idx, done) ==
              Ok((done + [Field(fields[0].key, Reread(fields[0].value))], idx + |RenderFields(fields)| + 1))
    decreases fields, 0
  {
    var f := fields[0];
    FieldsAtOne(cs, idx, fields);
    MembersEntry(cs, idx, done, f);
    MembersEnd(cs, idx + |RenderEntry(f)|, done + [Field(f.key, Reread(f.value))]);
  }

  /** The first of several entries, read by one pass of readObject's loop. */
  lemma MembersFirst(cs: JString, idx: nat, done: seq<Field>, fields: seq<Field>, e: nat, done': seq<Field>)
    requires |fields| > 1 && ValidKey(fields[0].key) && Reparsable(fields[0].value)
    requires Lookup(done, fields[0].key).None?
    requires At(cs, idx, RenderFields(fields)) && idx + |RenderFields(fields)| < |cs|
    requires e == idx + |RenderEntry(fields[0])| + 1 && done' == done + [Field(fields[0].key, Reread(fields[0].value))]
    ensures e <= |cs| && Members(cs, idx, done) == Members(cs, e, done')
    decreases fields, 0
  {
    FieldsAtMany(cs, idx, fields, e);
    MembersEntry(cs, idx, done, fields[0]);
  }

  /** The entries read so far, followed by the rest as they come back. */
  lemma RereadFieldsCons(done: seq<Field>, fields: seq<Field>)
    ensures fields == [] ==> done + RereadFields(fields) == done
    ensures fields != [] ==>
              done + RereadFields(fields) ==
                (done + [Field(fields[0].key, Reread(fields[0].value))]) + RereadFields(fields[1..])
    ensures |fields| == 1 ==> done + RereadFields(fields) == done + [Field(fields[0].key, Reread(fields[0].value))]
  {
    if fields != [] {
      var head, tail := [Field(fields[0].key, Reread(fields[0].value))], RereadFields(fields[1..]);
      assert RereadFields(fields) == head + tail;
      Assoc(done, head, tail);
      if |fields| == 1 {
        assert tail == [];
        AppendNothing(done + head);
      }
    }
  }

  /**
   * Entries the reader takes back one after the other: each key valid and not
   * among the entries read before it, each value one toString can write.
   */
  predicate FieldsFit(done: seq<Field>, fields: seq<Field>)
    decreases fields
  {
    fields == [] ||
    (ValidKey(fields[0].key) && Reparsable(fields[0].value) && Lookup(done, fields[0].key).None?
     && FieldsFit(done + [Field(fields[0].key, Reread(fields[0].value))], fields[1..]))
  }

  /** A document's entries fit after any entries whose keys they do not share. */
  lemma {:induction false} FieldsFitOf(done: seq<Field>, fields: seq<Field>)
    requires KeysValid(fields) && ReparsableFields(fields)
    requires forall j, k :: 0 <= j < |done| && 0 <= k < |fields| ==> done[j].key != fields[k].key
    ensures FieldsFit(done, fields)
    decreases fields
  {
    if fields != [] {
      FieldsTail(done, fields);
      FieldsFitOf(done + [Field(fields[0].key, Reread(fields[0].value))], fields[1..]);
    }
  }

  /** What MembersRoundTrip needs: entries that fit, their text, then '}'. */
  predicate MembersReady(cs: JString, idx: nat, done: seq<Field>, fields: seq<Field>)
  {
    FieldsFit(done, fields) && At(cs, idx, RenderFields(fields))
    && idx + |RenderFields(fields)| < |cs| && cs[idx + |RenderFields(fields)|] == CLOSE_BRACE
  }

  lemma {:induction false} MembersRoundTrip(cs: JString, idx: nat, done: seq<Field>, fields: seq<Field>)
    requires MembersReady(cs, idx, done, fields)
    ensures idx + |RenderFields(fields)| < |cs|
    ensures Members(cs, idx, done) == Ok((done + RereadFields(fields), idx + |RenderFields(fields)| + 1))
    decreases fields, 4
  {
    if |fields| <= 1 {
      MembersShort(cs, idx, done, fields);
    } else {
      MembersMany(cs, idx, done, fields);
    }
  }

  /** Two entries or more: the others are read after the first pass. */
  lemma {:induction false} MembersMany(cs: JString, idx: nat, done: seq<Field>, fields: seq<Field>)
    requires |fields| > 1 && MembersReady(cs, idx, done, fields)
    ensures Members(cs, idx, done) == Ok((done + RereadFields(fields), idx + |RenderFields(fields)| + 1))
    decreases fields, 3
  {
    var e := idx + |RenderEntry(fields[0])| + 1;
    var done' := done + [Field(fields[0].key, Reread(fields[0].value))];
    MembersPassReady(cs, idx, done, fields, e, done');
    MembersRoundTrip(cs, e, done', fields[1..]);
    MembersLink(cs, idx, done, fields, e, done');
  }

  /** The answer for the other entries is the answer for all of them, once the first pass is behind. */
  lemma MembersLink(cs: JString, idx: nat, done: seq<Field>, fields: seq<Field>, e: nat, done': seq<Field>)
    requires |fields| > 1 && MembersReady(cs, idx, done, fields) && e <= |cs|
    requires e == idx + |RenderEntry(fields[0])| + 1 && done' == done + [Field(fields[0].key, Reread(fields[0].value))]
    requires Members(cs, e, done') == Ok((done' + RereadFields(fields[1..]), e + |RenderFields(fields[1..])| + 1))
    ensures Members(cs, idx, done) == Ok((done + RereadFields(fields), idx + |RenderFields(fields)| + 1))
    decreases fields, 2
  {
    MembersPassRead(cs, idx, done, fields, e, done');
    MembersAnswerShift(idx, done, fields, e, done');
  }

  /** After the first entry, the others are still ready to be read. */
  lemma MembersPassReady(cs: JString, idx: nat, done: seq<Field>, fields: seq<Field>, e: nat, done': seq<Field>)
    requires |fields| > 1 && MembersReady(cs, idx, done, fields)
    requires e == idx + |RenderEntry(fields[0])| + 1 && done' == done + [Field(fields[0].key, Reread(fields[0].value))]
    ensures e <= |cs| && MembersReady(cs, e, done', fields[1..])
    decreases fields, 1
  {
    var rest := fields[1..];
    assert FieldsFit(done', rest);
    assert At(cs, e, RenderFields(rest)) && e + |RenderFields(rest)| == idx + |RenderFields(fields)| by {
      FieldsAtMany(cs, idx, fields, e);
    }
  }

  /** What the first pass reads. */
  lemma MembersPassRead(cs: JString, idx: nat, done: seq<Field>, fields: seq<Field>, e: nat, done': seq<Field>)
    requires |fields| > 1 && MembersReady(cs, idx, done, fields)
    requires e == idx + |RenderEntry(fields[0])| + 1 && done' == done + [Field(fields[0].key, Reread(fields[0].value))]
    ensures e <= |cs| && Members(cs, idx, done) == Members(cs, e, done')
    decreases fields, 1
  {
    MembersFirst(cs, idx, done, fields, e, done');
  }

  /** The answer for all the entries, seen from after the first. */
  lemma MembersAnswerShift(idx: nat, done: seq<Field>, fields: seq<Field>, e: nat, done': seq<Field>)
    requires |fields| > 1
    requires e == idx + |RenderEntry(fields[0])| + 1 && done' == done + [Field(fields[0].key, Reread(fields[0].value))]
    ensures Ok((done + RereadFields(fields), idx + |RenderFields(fields)| + 1))
         == Ok((done' + RereadFields(fields[1..]), e + |RenderFields(fields[1..])| + 1))
  {
    assert |RenderFields(fields)| == |RenderEntry(fields[0])| + 1 + |RenderFields(fields[1..])|;
    RereadFieldsCons(done, fields);
  }

  /** No entry, or a single one: the reader stops at the closing brace. */
  lemma MembersShort(cs: JString, idx: nat, done: seq<Field>, fields: seq<Field>)
    requires |fields| <= 1 && MembersReady(cs, idx, done, fields)
    ensures Members(cs, idx, done) == Ok((done + RereadFields(fields), idx + |RenderFields(fields)| + 1))
    decreases fields, 1
  {
    RereadFieldsCons(done, fields);
    if fields == [] {
      MembersEnd(cs, idx, done);
    } else {
      MembersOnly(cs, idx, done, fields);
    }
  }

  lemma AtConcat3(cs: JString, i: nat, a: JString, b: JString, c: JString)
    requires At(cs, i, a + b + c)
    ensures At(cs, i, a) && At(cs, i + |a|, b) && At(cs, i + |a| + |b|, c)
  {
    AtConcat(cs, i, a + b, c);
    AtConcat(cs, i, a, b);
  }

  /** Where the braces and the entries stand in toString's object text. */
  lemma ObjectAt(cs: JString, i: nat, fields: seq<Field>)
    requires At(cs, i, RenderObject(fields))
    ensures |RenderObject(fields)| == |RenderFields(fields)| + 2
    ensures cs[i] == OPEN_BRACE && !IsWhiteSpace(cs[i + 1])
    ensures At(cs, i + 1, RenderFields(fields))
    ensures i + 1 + |RenderFields(fields)| < |cs| && cs[i + 1 + |RenderFields(fields)|] == CLOSE_BRACE
  {
    var body := RenderFields(fields);
    AtConcat3(cs, i, [OPEN_BRACE], body, [CLOSE_BRACE]);
    AtChar(cs, i, [OPEN_BRACE], 0);
    AtChar(cs, i + 1 + |body|, [CLOSE_BRACE], 0);
    if fields != [] {
      FieldsStart(fields);
      AtChar(cs, i + 1, body, 0);
    }
  }

  lemma ObjectRoundTrip(cs: JString, i: nat, fields: seq<Field>)
    requires KeysValid(fields) && ReparsableFields(fields)
    requires At(cs, i, RenderObject(fields))
    ensures ParseObject(cs, i) == Ok((RereadFields(fields), i + |RenderObject(fields)|))
    decreases fields, 5
  {
    ObjectReady(cs, i, fields);
    MembersRoundTrip(cs, i + 1, [], fields);
    ObjectLink(cs, i, fields);
  }

  /** toString's object text: the entries are ready for readObject's loop. */
  lemma ObjectReady(cs: JString, i: nat, fields: seq<Field>)
    requires KeysValid(fields) && ReparsableFields(fields)
    requires At(cs, i, RenderObject(fields))
    ensures MembersReady(cs, i + 1, [], fields)
  {
    ObjectAt(cs, i, fields);
    FieldsFitOf([], fields);
  }

  /** What readObject's loop gives back is what readObject gives back. */
  lemma ObjectLink(cs: JString, i: nat, fields: seq<Field>)
    requires At(cs, i, RenderObject(fields))
    requires i + 1 <= |cs|
    requires Members(cs, i + 1, []) == Ok(([] + RereadFields(fields), i + 1 + |RenderFields(fields)| + 1))
    ensures ParseObject(cs, i) == Ok((RereadFields(fields), i + |RenderObject(fields)|))
  {
    ObjectAt(cs, i, fields);
    ObjectOpen(cs, i);
    assert [] + RereadFields(fields) == RereadFields(fields);
  }

  /** readObject past a '{' goes straight into its loop when no blank follows. */
  lemma ObjectOpen(cs: JString, i: nat)
    requires i + 1 < |cs| && cs[i] == OPEN_BRACE && !IsWhiteSpace(cs[i + 1])
    ensures ParseObject(cs, i) == Members(cs, i + 1, [])
  {
    SkipWsAt(cs, i);
    SkipWsAt(cs, i + 1);
  }

  // ---------------------------------------------------------------- arrays

  /** readArray's loop body once the value has been read. */
  lemma ItemStepOf(cs: JString, idx: nat, done: seq<Value>, w: Value, j: nat)
    requires idx < |cs| && ParseValue(cs, idx) == Ok((Storable(w), j))
    requires j < |cs| && cs[j] in {COMMA, CLOSE_BRACKET}
    requires cs[j] == COMMA ==> j + 1 < |cs| && !IsWhiteSpace(cs[j + 1])
    ensures ItemStep(cs, idx, done) == Ok((done + [w], if cs[j] == COMMA then j + 1 else j))
  {
    assert ValidateValue(Storable(w)) == Ok(w);
    SeparatorAt(cs, j, CLOSE_BRACKET);
  }

  /** toString's items: the first item, then a comma and the others. */
  lemma ItemsHead(items: seq<Value>)
    requires items != []
    ensures RenderItems(items) ==
              RenderValue(items[0]) + (if |items| == 1 then [] else [COMMA] + RenderItems(items[1..]))
  {
    if |items| > 1 {
      Assoc(RenderValue(items[0]), [COMMA], RenderItems(items[1..]));
    }
  }

  lemma ItemsStart(items: seq<Value>)
    requires items != []
    ensures |RenderItems(items)| > 0 && RenderItems(items)[0] in {NULL_TEXT[0], QUOTE, OPEN_BRACE, OPEN_BRACKET}
  {
    ItemsHead(items);
    RenderValueStart(items[0]);
  }

  /** readArray's loop goes on from where one pass ends. */
  lemma ItemsUnfold(cs: JString, idx: nat, done: seq<Value>, done': seq<Value>, next: nat)
    requires idx < |cs| && cs[idx] != CLOSE_BRACKET
    requires ItemStep(cs, idx, done) == Ok((done', next))
    ensures next <= |cs| && Items(cs, idx, done) == Items(cs, next, done')
  {
  }

  /** One item of toString's text, as readArray's loop reads it. */
  lemma ItemRoundTrip(cs: JString, idx: nat, done: seq<Value>, v: Value)
    requires Reparsable(v) && At(cs, idx, RenderValue(v))
    requires idx + |RenderValue(v)| < |cs| && cs[idx + |RenderValue(v)|] in {COMMA, CLOSE_BRACKET}
    requires cs[idx + |RenderValue(v)|] == COMMA ==>
               idx + |RenderValue(v)| + 1 < |cs| && !IsWhiteSpace(cs[idx + |RenderValue(v)| + 1])
    ensures idx < |cs| && cs[idx] != CLOSE_BRACKET
    ensures ItemStep(cs, idx, done) ==
              Ok((done + [Reread(v)], var e := idx + |RenderValue(v)|; if cs[e] == COMMA then e + 1 else e))
    decreases v, 3
  {
    RenderValueStart(v);
    AtChar(cs, idx, RenderValue(v), 0);
    ValueRoundTrip(cs, idx, v);
    ItemStepOf(cs, idx, done, Reread(v), idx + |RenderValue(v)|);
  }

  /** A single item: toString's item text is that item's text. */
  lemma ItemsAtOne(cs: JString, idx: nat, items: seq<Value>)
    requires |items| == 1 && At(cs, idx, RenderItems(items))
    ensures At(cs, idx, RenderValue(items[0])) && |RenderItems(items)| == |RenderValue(items[0])|
  {
    assert RenderItems(items) == RenderValue(items[0]);
  }

  /** Several items: where the first, the comma after it and the others stand; e is where the others start. */
  lemma ItemsAtMany(cs: JString, idx: nat, items: seq<Value>, e: nat)
    requires |items| > 1 && At(cs, idx, RenderItems(items))
    requires e == idx + |RenderValue(items[0])| + 1
    ensures At(cs, idx, RenderValue(items[0]))
    ensures e < |cs| && cs[e - 1] == COMMA && !IsWhiteSpace(cs[e])
    ensures At(cs, e, RenderItems(items[1..])) && e + |RenderItems(items[1..])| == idx + |RenderItems(items)|
  {
    var text, rest := RenderValue(items[0]), items[1..];
    assert RenderItems(items) == text + ([COMMA] + RenderItems(rest)) by {
      ItemsHead(items);
    }
    assert At(cs, idx, text) && At(cs, e - 1, [COMMA] + RenderItems(rest)) by {
      AtConcat(cs, idx, text, [COMMA] + RenderItems(rest));
    }
    assert cs[e - 1] == COMMA && At(cs, e, RenderItems(rest)) by {
      AtConcat(cs, e - 1, [COMMA], RenderItems(rest));
      AtChar(cs, e - 1, [COMMA], 0);
    }
    assert !IsWhiteSpace(cs[e]) by {
      ItemsStart(rest);
      AtChar(cs, e, RenderItems(rest), 0);
    }
  }

  /** The items read so far, followed by the rest as they come back. */
  lemma RereadItemsCons(done: seq<Value>, items: seq<Value>)
    ensures items == [] ==> done + RereadItems(items) == done
    ensures items != [] ==> done + RereadItems(items) == (done + [Reread(items[0])]) + RereadItems(items[1..])
    ensures |items| == 1 ==> done + RereadItems(items) == done + [Reread(items[0])]
  {
    if items != [] {
      var head, tail := [Reread(items[0])], RereadItems(items[1..]);
      assert RereadItems(items) == head + tail;
      Assoc(done, head, tail);
      if |items| == 1 {
        assert tail == [];
        AppendNothing(done + head);
      }
    }
  }

  /** Items the reader takes back one after the other: each one toString can write. */
  predicate ItemsFit(items: seq<Value>)
    decreases items
  {
    items == [] || (Reparsable(items[0]) && ItemsFit(items[1..]))
  }

  lemma {:induction false} ItemsFitOf(items: seq<Value>)
    requires ReparsableItems(items)
    ensures ItemsFit(items)
    decreases items
  {
    if items != [] {
      var rest := items[1..];
      assert forall k :: 0 <= k < |rest| ==> rest[k] == items[k + 1];
      ItemsFitOf(rest);
    }
  }

  /** What ItemsRoundTrip needs: items that fit, their text, then ']'. */
  predicate ItemsReady(cs: JString, idx: nat, items: seq<Value>)
  {
    ItemsFit(items) && At(cs, idx, RenderItems(items))
    && idx + |RenderItems(items)| < |cs| && cs[idx + |RenderItems(items)|] == CLOSE_BRACKET
  }

  lemma {:induction false} ItemsRoundTrip(cs: JString, idx: nat, done: seq<Value>, items: seq<Value>)
    requires ItemsReady(cs, idx, items)
    ensures idx + |RenderItems(items)| < |cs|
    ensures Items(cs, idx, done) == Ok((done + RereadItems(items), idx + |RenderItems(items)| + 1))
    decreases items, 3
  {
    if |items| <= 1 {
      ItemsShort(cs, idx, done, items);
    } else {
      ItemsMany(cs, idx, done, items);
    }
  }

  /** Two items or more: the others are read after the first pass. */
  lemma {:induction false} ItemsMany(cs: JString, idx: nat, done: seq<Value>, items: seq<Value>)
    requires |items| > 1 && ItemsReady(cs, idx, items)
    ensures Items(cs, idx, done) == Ok((done + RereadItems(items), idx + |RenderItems(items)| + 1))
    decreases items, 2
  {
    var e := idx + |RenderValue(items[0])| + 1;
    var done' := done + [Reread(items[0])];
    ItemsPassReady(cs, idx, items, e);
    ItemsRoundTrip(cs, e, done', items[1..]);
    ItemsLink(cs, idx, done, items, e, done');
  }

  /** The answer for the other items is the answer for all of them, once the first pass is behind. */
  lemma ItemsLink(cs: JString, idx: nat, done: seq<Value>, items: seq<Value>, e: nat, done': seq<Value>)
    requires |items| > 1 && ItemsReady(cs, idx, items) && e <= |cs|
    requires e == idx + |RenderValue(items[0])| + 1 && done' == done + [Reread(items[0])]
    requires Items(cs, e, done') == Ok((done' + RereadItems(items[1..]), e + |RenderItems(items[1..])| + 1))
    ensures Items(cs, idx, done) == Ok((done + RereadItems(items), idx + |RenderItems(items)| + 1))
    decreases items, 1
  {
    ItemsPassRead(cs, idx, done, items, e, done');
    ItemsAnswerShift(idx, done, items, e, done');
  }

  /** After the first item, the others are still ready to be read. */
  lemma ItemsPassReady(cs: JString, idx: nat, items: seq<Value>, e: nat)
    requires |items| > 1 && ItemsReady(cs, idx, items)
    requires e == idx + |RenderValue(items[0])| + 1
    ensures e <= |cs| && ItemsReady(cs, e, items[1..])
  {
    ItemsAtMany(cs, idx, items, e);
  }

  /** What the first pass reads. */
  lemma ItemsPassRead(cs: JString, idx: nat, done: seq<Value>, items: seq<Value>, e: nat, done': seq<Value>)
    requires |items| > 1 && ItemsReady(cs, idx, items)
    requires e == idx + |RenderValue(items[0])| + 1 && done' == done + [Reread(items[0])]
    ensures e <= |cs| && Items(cs, idx, done) == Items(cs, e, done')
    decreases items, 0
  {
    var v := items[0];
    assert Reparsable(v);
    ItemsAtMany(cs, idx, items, e);
    assert ItemStep(cs, idx, done) == Ok((done', e)) && cs[idx] != CLOSE_BRACKET by {
      ItemRoundTrip(cs, idx, done, v);
    }
    ItemsUnfold(cs, idx, done, done', e);
  }

  /** The answer for all the items, seen from after the first. */
  lemma ItemsAnswerShift(idx: nat, done: seq<Value>, items: seq<Value>, e: nat, done': seq<Value>)
    requires |items| > 1
    requires e == idx + |RenderValue(items[0])| + 1 && done' == done + [Reread(items[0])]
    ensures Ok((done + RereadItems(items), idx + |RenderItems(items)| + 1))
         == Ok((done' + RereadItems(items[1..]), e + |RenderItems(items[1..])| + 1))
  {
    assert |RenderItems(items)| == |RenderValue(items[0])| + 1 + |RenderItems(items[1..])|;
    RereadItemsCons(done, items);
  }

  /** No item, or a single one: the reader stops at the closing bracket. */
  lemma ItemsShort(cs: JString, idx: nat, done: seq<Value>, items: seq<Value>)
    requires |items| <= 1 && ItemsReady(cs, idx, items)
    ensures Items(cs, idx, done) == Ok((done + RereadItems(items), idx + |RenderItems(items)| + 1))
    decreases items, 1
  {
    RereadItemsCons(done, items);
    if items != [] {
      ItemsOnly(cs, idx, done, items);
    }
  }

  /** A single item: one pass, then the closing bracket. */
  lemma ItemsOnly(cs: JString, idx: nat, done: seq<Value>, items: seq<Value>)
    requires |items| == 1 && ItemsReady(cs, idx, items)
    ensures Items(cs, idx, done) == Ok((done + [Reread(items[0])], idx + |RenderItems(items)| + 1))
    decreases items, 0
  {
    var v := items[0];
    var e := idx + |RenderValue(v)|;
    assert Reparsable(v);
    assert At(cs, idx, RenderValue(v)) && |RenderItems(items)| == |RenderValue(v)| by {
      ItemsAtOne(cs, idx, items);
    }
    assert ItemStep(cs, idx, done) == Ok((done + [Reread(v)], e)) && cs[idx] != CLOSE_BRACKET by {
      ItemRoundTrip(cs, idx, done, v);
    }
    ItemsUnfold(cs, idx, done, done + [Reread(v)], e);
  }

  /** Where the brackets and the items stand in toString's array text. */
  lemma ArrayAt(cs: JString, i: nat, items: seq<Value>)
    requires At(cs, i, RenderArray(items))
    ensures |RenderArray(items)| == |RenderItems(items)| + 2
    ensures cs[i] == OPEN_BRACKET && !IsWhiteSpace(cs[i + 1])
    ensures At(cs, i + 1, RenderItems(items))
    ensures i + 1 + |RenderItems(items)| < |cs| && cs[i + 1 + |RenderItems(items)|] == CLOSE_BRACKET
  {
    var body := RenderItems(items);
    AtConcat3(cs, i, [OPEN_BRACKET], body, [CLOSE_BRACKET]);
    AtChar(cs, i, [OPEN_BRACKET], 0);
    AtChar(cs, i + 1 + |body|, [CLOSE_BRACKET], 0);
    if items != [] {
      ItemsStart(items);
      AtChar(cs, i + 1, body, 0);
    }
  }

  lemma ArrayRoundTrip(cs: JString, i: nat, items: seq<Value>)
    requires ReparsableItems(items)
    requires At(cs, i, RenderArray(items))
    ensures ParseArray(cs, i) == Ok((RereadItems(items), i + |RenderArray(items)|))
    decreases items, 4
  {
    ArrayReady(cs, i, items);
    ItemsRoundTrip(cs, i + 1, [], items);
    ArrayLink(cs, i, items);
  }

  /** toString's list text: the items are ready for readArray's loop. */
  lemma ArrayReady(cs: JString, i: nat, items: seq<Value>)
    requires ReparsableItems(items)
    requires At(cs, i, RenderArray(items))
    ensures ItemsReady(cs, i + 1, items)
  {
    ArrayAt(cs, i, items);
    ItemsFitOf(items);
  }

  /** What readArray's loop gives back is what readArray gives back. */
  lemma ArrayLink(cs: JString, i: nat, items: seq<Value>)
    requires At(cs, i, RenderArray(items))
    requires i + 1 <= |cs|
    requires Items(cs, i + 1, []) == Ok(([] + RereadItems(items), i + 1 + |RenderItems(items)| + 1))
    ensures ParseArray(cs, i) == Ok((RereadItems(items), i + |RenderArray(items)|))
  {
    ArrayAt(cs, i, items);
    ArrayOpen(cs, i);
    assert [] + RereadItems(items) == RereadItems(items);
  }

  /** readArray past a '[' goes straight into its loop when no blank follows. */
  lemma ArrayOpen(cs: JString, i: nat)
    requires i + 1 < |cs| && cs[i] == OPEN_BRACKET && !IsWhiteSpace(cs[i + 1])
    ensures ParseArray(cs, i) == Items(cs, i + 1, [])
  {
    SkipWsAt(cs, i);
    SkipWsAt(cs, i + 1);
  }

  // ---------------------------------------------------------------- whole documents

  /** YashON.parse(doc.toString()) gives back doc, numbers as their text. */
  lemma ParseOfToString(fields: seq<Field>)
    requires KeysValid(fields) && ReparsableFields(fields)
    ensures ParseObject(RenderObject(fields), 0) == Ok((RereadFields(fields), |RenderObject(fields)|))
  {
    ObjectRoundTrip(RenderObject(fields), 0, fields);
  }

  /** YashAN.parse(list.toString()) gives back the list, numbers as their text. */
  lemma ParseOfToStringArray(items: seq<Value>)
    requires ReparsableItems(items)
    ensures ParseArray(RenderArray(items), 0) == Ok((RereadItems(items), |RenderArray(items)|))
  {
    ArrayRoundTrip(RenderArray(items), 0, items);
  }
}
