# YashoDB, modelled in Dafny

YashoDB is an embedded document store. It keeps JSON-like records in one
random-access file. The root of the file is a collection. A collection or
object body is a chain of slots, each a liveness byte (`r` live, `R`
tombstoned), an 8-byte big-endian length and a payload, ended by a
terminator `t` or continued elsewhere by a tail link `T` plus the offset of
the next segment. Scalars are written with `writeUTF`, keys as one byte per
char.

The model covers:

- the store (YashoDB.java):
  - the view class and its shared file pointer (`Store`);
  - the chain walks behind `goToKey`, `seekToEnd`, `seekToRawPosition` and `iterate` (`Chains`, `Walker`);
  - the byte-level effect of every update (`Layout`);
  - the writers (`Encoding`) and readers (`Reader`) of documents;
  - the compaction of `writeToFile` (`Compaction`);
  - counts as Java longs (`Bytes`) and `measureUTF8Length` (`Text`);
- the per-member filter protocol and the scan that drives it (Filter.java, `Filters`);
- the list of accepted positions and its spill to a side file (QueryResult.java, `Queries`);
- the selection builder behind `findAll`/`findOne` (DBSelection.java, `Selections`);
- the documents (YashON.java, YashAN.java, `Values`, `Documents`);
- the lenient JSON reader and what it does with the text `toString` writes (JSONParser.java, `JsonParser`, `JsonLaws`).

The file is a byte sequence plus a file pointer (`FileAccess.RandomAccess`).
Every Java exception is a value of `Results.Error`. Each imperative
operation is a method proved against a function of the old contents. Lemmas
then state what those contents mean for the next walk, scan or read.

## Model

| member | source | states |
|---|---|---|
| Bytes.WrapLong | YashoDB/src/main/java/com/yashoid/yashodb/YashoDB.java:934-950 | the Java long a count computation wraps to: in long range, congruent to the exact value modulo 2^64, equal to it when it already fits |
| Bytes.WrapInt | YashoDB/src/main/java/com/yashoid/yashodb/YashON.java:196-202 | the Java int a narrowing takes a value to: in int range, congruent modulo 2^32, unchanged when it fits |
| Bytes.UnsignedOfBigEndian | YashoDB/src/main/java/com/yashoid/yashodb/YashoDB.java:934-941 | reading n big-endian bytes back as an unsigned number gives the value written, for any value below 256^n |
| Bytes.BigEndianOfUnsigned | YashoDB/src/main/java/com/yashoid/yashodb/YashoDB.java:934-941 | every byte string is the big-endian encoding of the number it reads as |
| Bytes.LongRoundTrip | YashoDB/src/main/java/com/yashoid/yashodb/YashoDB.java:934-941 | readLong of what writeLong wrote for x is x wrapped to a Java long |
| Bytes.LongBytesRoundTrip | YashoDB/src/main/java/com/yashoid/yashodb/YashoDB.java:943-950 | writeLong of the long that 8 bytes read as writes those same 8 bytes |
| Bytes.IntRoundTrip | YashoDB/src/main/java/com/yashoid/yashodb/YashoDB.java:1000-1006 | readInt of what writeInt wrote for x is x wrapped to a Java int (the key length field) |
| Bytes.IntBytesRoundTrip | YashoDB/src/main/java/com/yashoid/yashodb/YashoDB.java:832-840 | writeInt of the int that 4 bytes read as writes those same 4 bytes |
| Bytes.U16RoundTrip | YashoDB/src/main/java/com/yashoid/yashodb/YashoDB.java:1078-1081 | the 2-byte length header writeUTF emits reads back as the length, for lengths below 65536 |
| Text.MeasureUtf8Length | YashoDB/src/main/java/com/yashoid/yashodb/YashoDB.java:1237-1255 | the loop returns the modified-UTF-8 length of the string plus the 2 header bytes (1 byte per char in 1..127, 3 above 2047, 2 otherwise, NUL included), so between 2 + length and 2 + 3 * length |
| Text.EncodedLengthAppend | YashoDB/src/main/java/com/yashoid/yashodb/YashoDB.java:1243-1252 | one more char adds exactly that char's width to the encoded length |
| Text.EncodedLengthBounds | YashoDB/src/main/java/com/yashoid/yashodb/YashoDB.java:1243-1252 | the encoded length lies between the char count and three times it |
| Text.WriteUtf | YashoDB/src/main/java/com/yashoid/yashodb/YashoDB.java:1076-1081 | writeUTF succeeds exactly when the body is under 65536 bytes, and then writes the measured length plus 2 bytes |
| Text.DecodeOfMutf8 | YashoDB/src/main/java/com/yashoid/yashodb/YashoDB.java:930-932 | decoding the modified-UTF-8 body of a string gives the string back |
| Text.ReadUtfAt | YashoDB/src/main/java/com/yashoid/yashodb/YashoDB.java:930-932 | readUTF either returns a string and a position between p + 2 and the end of the file, or fails with an access error |
| Text.ReadUtfOfWriteUtf | YashoDB/src/main/java/com/yashoid/yashodb/YashoDB.java:1076-1081 | readUTF at p of what writeUTF put at p returns the string and the position just past it |
| Text.UtfLengthAt | YashoDB/src/main/java/com/yashoid/yashodb/YashoDB.java:1076-1081 | the header writeUTF writes reads back as the body length measureUTF8Length counts |
| Text.UtfBodyAt | YashoDB/src/main/java/com/yashoid/yashodb/YashoDB.java:930-932 | the body after that header decodes to the string written |
| Text.ParseLong | YashoDB/src/main/java/com/yashoid/yashodb/Filter.java:254-258 | Long.parseLong yields only values in Java long range |
| Text.ParseLongOfDecimalText | YashoDB/src/main/java/com/yashoid/yashodb/Filter.java:254-258 | Long.parseLong reads back the text Long.toString writes, for every long |
| Text.ParseDecimalOfDecimalText | YashoDB/src/main/java/com/yashoid/yashodb/Filter.java:89-111 | Double.parseDouble, taken exactly, of a number's own text is that number |
| Text.LowerAll | YashoDB/src/main/java/com/yashoid/yashodb/JSONParser.java:127-148 | toLowerCase keeps the length and lowers every char on its own |
| Text.SplitAll | YashoDB/src/main/java/com/yashoid/yashodb/YashoDB.java:400-401 | splitting at dots yields at least one piece and no piece contains a dot |
| Text.DropTrailingEmpty | YashoDB/src/main/java/com/yashoid/yashodb/YashoDB.java:400-401 | String.split drops exactly the trailing empty pieces: a prefix of the pieces, ending on a non-empty one, with only empty pieces dropped |
| Text.SplitPath | YashoDB/src/main/java/com/yashoid/yashodb/YashoDB.java:400-405 | key.split("\\.") gives dot-free pieces, and a key without a dot is its own single piece |
| Text.SplitAllJoins | YashoDB/src/main/java/com/yashoid/yashodb/YashoDB.java:400-401 | joining the pieces with dots gives the key back |
| Values.Validate | YashoDB/src/main/java/com/yashoid/yashodb/YashON.java:127-146 | put's checks pass exactly for a key over [a-zA-Z0-9_]+ and a null, String, Number, YashON or YashAN value, which is then stored as its Value (a Number as an integer, a document by value); otherwise IllegalArgumentException |
| Values.ValidateValue | YashoDB/src/main/java/com/yashoid/yashodb/YashON.java:137-146 | validateValue passes exactly the five storable kinds, otherwise IllegalArgumentException |
| Values.Lookup | YashoDB/src/main/java/com/yashoid/yashodb/YashON.java:28-30 | a key has a value exactly when some entry carries that key |
| Values.PutFieldLookup | YashoDB/src/main/java/com/yashoid/yashodb/YashON.java:21-26 | after put, get(key) is the new value and every other key keeps its old value |
| Values.PutFieldEntries | YashoDB/src/main/java/com/yashoid/yashodb/YashON.java:21-26 | put grows the map by one exactly for a new key and brings in no entry but the one under key |
| Values.PutFieldDistinct | YashoDB/src/main/java/com/yashoid/yashodb/YashON.java:21-26 | put keeps the keys distinct |
| Values.EscapeAppend | YashoDB/src/main/java/com/yashoid/yashodb/YashON.java:115-125 | appendString escapes char by char: a quote becomes backslash-quote, anything else is copied |
| Values.EscapeNoQuote | YashoDB/src/main/java/com/yashoid/yashodb/YashON.java:115-125 | a string without quotes comes out unchanged |
| Values.AppendString | YashoDB/src/main/java/com/yashoid/yashodb/YashON.java:115-125 | the builder's loop appends the escaped string, growing by the length plus one per quote |
| Values.RenderFieldsAppend | YashoDB/src/main/java/com/yashoid/yashodb/YashON.java:80-108 | the entry text of one more field is the old text, a comma unless it was empty, and the new entry |
| Values.RenderItemsAppend | YashoDB/src/main/java/com/yashoid/yashodb/YashAN.java:83-104 | the same for one more array item |
| Values.ToText | YashoDB/src/main/java/com/yashoid/yashodb/YashoDB.java:1075-1077 | toString of a value fails exactly for null |
| Values.GetString | YashoDB/src/main/java/com/yashoid/yashodb/YashON.java:148-162 | getString: null, a string or a number succeed and everything else throws ValueTypeException; a string gives itself, a number a text that parses back to it |
| Values.GetBoolean | YashoDB/src/main/java/com/yashoid/yashodb/YashON.java:164-180 | getBoolean: null and strings succeed, a string giving true exactly when it is "true" ignoring case; anything else throws ValueTypeException |
| Values.Truncate | YashoDB/src/main/java/com/yashoid/yashodb/YashON.java:196-210 | rounds toward zero: the result is the integer part of x, on the same side of zero |
| Values.GetInt | YashoDB/src/main/java/com/yashoid/yashodb/YashON.java:196-202 | getInt yields Java ints only; a number that fits is returned as it is; a document throws ValueTypeException |
| Values.GetLong | YashoDB/src/main/java/com/yashoid/yashodb/YashON.java:204-210 | getLong yields Java longs only; a long is returned as it is; a document throws ValueTypeException |
| Values.GetYashON | YashoDB/src/main/java/com/yashoid/yashodb/YashON.java:228-234 | getYashON passes null and nested objects through, unchanged, and throws ValueTypeException otherwise |
| Values.GetYashAN | YashoDB/src/main/java/com/yashoid/yashodb/YashON.java:236-242 | getYashAN passes null and nested arrays through, unchanged, and throws ValueTypeException otherwise |
| Documents.AppendValue | YashoDB/src/main/java/com/yashoid/yashodb/YashON.java:90-105 | the value branch of toString appends the value's text: null bare, documents as their own text, anything else quoted and escaped |
| Documents.AppendEntry | YashoDB/src/main/java/com/yashoid/yashodb/YashON.java:81-107 | one loop round appends a comma unless first, then "key":value |
| Documents.AppendItem | YashoDB/src/main/java/com/yashoid/yashodb/YashAN.java:84-103 | one loop round appends a comma unless first, then the item's text |
| Documents.YashON.constructor | YashoDB/src/main/java/com/yashoid/yashodb/YashON.java:17-19 | a new document is empty |
| Documents.YashON.Put | YashoDB/src/main/java/com/yashoid/yashodb/YashON.java:21-26 | put succeeds exactly for a valid key and a storable value; a refused put changes nothing; a successful one makes get(key) the value and leaves every other key as it was |
| Documents.YashON.Get | YashoDB/src/main/java/com/yashoid/yashodb/YashON.java:28-30 | get returns the value stored under the key, null when there is none |
| Documents.YashON.Contains | YashoDB/src/main/java/com/yashoid/yashodb/YashON.java:64-66 | contains is true exactly when some entry has the key |
| Documents.YashON.ToString | YashoDB/src/main/java/com/yashoid/yashodb/YashON.java:73-113 | the loop builds the braces-and-commas text RenderObject defines for the entries |
| Documents.YashAN.constructor | YashoDB/src/main/java/com/yashoid/yashodb/YashAN.java:17-23 | a new array is empty |
| Documents.YashAN.Put | YashoDB/src/main/java/com/yashoid/yashodb/YashAN.java:33-37 | put appends a storable value at the end and refuses anything else with IllegalArgumentException, leaving the list unchanged |
| Documents.YashAN.GetCount | YashoDB/src/main/java/com/yashoid/yashodb/YashAN.java:29-31 | getCount is the number of items |
| Documents.YashAN.Get | YashoDB/src/main/java/com/yashoid/yashodb/YashAN.java:39-41 | get(i) is the i-th item put, and IndexOutOfBounds outside 0..count-1 |
| Documents.YashAN.ToString | YashoDB/src/main/java/com/yashoid/yashodb/YashAN.java:76-109 | the loop builds the brackets-and-commas text RenderArray defines for the items |
| JsonParser.SkipWs | YashoDB/src/main/java/com/yashoid/yashodb/JSONParser.java:201-211 | the first position at or after i that is not a space, line feed or tab |
| JsonParser.SkipWsBlanks | YashoDB/src/main/java/com/yashoid/yashodb/JSONParser.java:201-207 | every char skipWhiteSpaces steps over is a blank |
| JsonParser.AlphaEnd | YashoDB/src/main/java/com/yashoid/yashodb/JSONParser.java:127-136 | the end of the letter run: never before i, and the char there is not a letter |
| JsonParser.AlphaEndLetters | YashoDB/src/main/java/com/yashoid/yashodb/JSONParser.java:127-136 | every char the run covers is a letter [a-zA-Z] |
| JsonParser.NumericEnd | YashoDB/src/main/java/com/yashoid/yashodb/JSONParser.java:150-156 | the end of the numeric run: the char there is not one of - . + or a digit |
| JsonParser.NumericEndDigits | YashoDB/src/main/java/com/yashoid/yashodb/JSONParser.java:150-156 | every char the run covers is one of - . + or a digit (no exponent letter) |
| JsonParser.StringBody | YashoDB/src/main/java/com/yashoid/yashodb/JSONParser.java:177-199 | the string loop ends just past a closing quote at least one char on, or fails with JSONException or an index error |
| JsonParser.ParseString | YashoDB/src/main/java/com/yashoid/yashodb/JSONParser.java:177-199 | readString succeeds only at an opening quote and ends just past a closing quote |
| JsonParser.ParseWord | YashoDB/src/main/java/com/yashoid/yashodb/JSONParser.java:127-148 | readBooleanOrNull yields only true, false or null, and consumes at least one char |
| JsonParser.ParseNumber | YashoDB/src/main/java/com/yashoid/yashodb/JSONParser.java:150-175 | readNumber yields a number and consumes at least one char |
| JsonParser.ParseValue | YashoDB/src/main/java/com/yashoid/yashodb/JSONParser.java:103-125 | readValue consumes at least one char when it succeeds |
| JsonParser.ParseObject | YashoDB/src/main/java/com/yashoid/yashodb/JSONParser.java:9-63 | readObject consumes at least the braces when it succeeds |
| JsonParser.Separator | YashoDB/src/main/java/com/yashoid/yashodb/JSONParser.java:45-53 | after a value the loop goes on exactly when, past blanks, a comma or the closer stands; otherwise JSONException |
| JsonParser.ParseObjectKeysValid | YashoDB/src/main/java/com/yashoid/yashodb/JSONParser.java:9-63 | every object readObject builds has valid, pairwise distinct keys, because each goes through put |
| JsonParser.MembersKeysValid | YashoDB/src/main/java/com/yashoid/yashodb/JSONParser.java:22-56 | readObject's loop keeps the keys valid and distinct |
| JsonParser.MemberStepKeysValid | YashoDB/src/main/java/com/yashoid/yashodb/JSONParser.java:23-41 | one put in the loop keeps the keys valid and distinct |
| JsonParser.ParseArray | YashoDB/src/main/java/com/yashoid/yashodb/JSONParser.java:65-101 | readArray consumes at least the brackets when it succeeds |
| JsonParser.SkipWhiteSpaces | YashoDB/src/main/java/com/yashoid/yashodb/JSONParser.java:201-207 | the loop returns the position SkipWs defines |
| JsonParser.ReadString | YashoDB/src/main/java/com/yashoid/yashodb/JSONParser.java:177-199 | the loop returns what ParseString defines, including its errors |
| JsonParser.ReadBooleanOrNull | YashoDB/src/main/java/com/yashoid/yashodb/JSONParser.java:127-148 | the loop returns what ParseWord defines |
| JsonParser.ReadNumber | YashoDB/src/main/java/com/yashoid/yashodb/JSONParser.java:150-175 | the loop returns what ParseNumber defines |
| JsonParser.ReadValue | YashoDB/src/main/java/com/yashoid/yashodb/JSONParser.java:103-125 | returns what ParseValue defines |
| JsonParser.ReadObject | YashoDB/src/main/java/com/yashoid/yashodb/JSONParser.java:9-63 | builds a fresh YashON whose entries are those ParseObject defines, or fails with its error |
| JsonParser.ReadMembers | YashoDB/src/main/java/com/yashoid/yashodb/JSONParser.java:22-56 | the loop fills the document with the entries Members defines and returns its end |
| JsonParser.ReadArray | YashoDB/src/main/java/com/yashoid/yashodb/JSONParser.java:65-101 | builds a fresh YashAN whose items are those ParseArray defines, or fails with its error |
| JsonParser.ReadItems | YashoDB/src/main/java/com/yashoid/yashodb/JSONParser.java:78-94 | the loop fills the list with the items Items defines |
| JsonParser.ReadEntryKey | YashoDB/src/main/java/com/yashoid/yashodb/JSONParser.java:23-35 | reads the key, the colon and the blanks as EntryKey defines |
| JsonParser.ReadSeparator | YashoDB/src/main/java/com/yashoid/yashodb/JSONParser.java:45-53 | checks the char after a value as Separator defines |
| JsonParser.ReadMember | YashoDB/src/main/java/com/yashoid/yashodb/JSONParser.java:23-55 | one pass of the loop puts the entry MemberStep defines into the document |
| JsonParser.ReadItem | YashoDB/src/main/java/com/yashoid/yashodb/JSONParser.java:79-93 | one pass of the loop appends the item ItemStep defines |
| JsonParser.ParseYashON | YashoDB/src/main/java/com/yashoid/yashodb/YashON.java:11-13 | YashON.parse gives the document ParseObject reads from position 0, or its error |
| JsonParser.ParseYashAN | YashoDB/src/main/java/com/yashoid/yashodb/YashAN.java:11-13 | YashAN.parse gives the list ParseArray reads from position 0, or its error |
| JsonLaws.StringRoundTrip | YashoDB/src/main/java/com/yashoid/yashodb/JSONParser.java:177-199 | readString reads back the string appendString escaped between quotes, when it holds no backslash, and ends just after it |
| JsonLaws.ReadStringOfAppendString | YashoDB/src/main/java/com/yashoid/yashodb/YashON.java:115-125 | the same for a quoted string standing at the start of any text |
| JsonLaws.BackslashNotReread | YashoDB/src/main/java/com/yashoid/yashodb/YashON.java:115-125 | a string holding a single backslash is written so that readString cannot read it back (JSONException) |
| JsonLaws.ValueRoundTrip | YashoDB/src/main/java/com/yashoid/yashodb/JSONParser.java:103-125 | readValue reads back the text toString wrote for any value without backslashes: null as null, strings as themselves, numbers as their decimal text, nested documents recursively |
| JsonLaws.NullRoundTrip | YashoDB/src/main/java/com/yashoid/yashodb/JSONParser.java:127-148 | the bare null toString writes is read back as null |
| JsonLaws.NumberRoundTrip | YashoDB/src/main/java/com/yashoid/yashodb/JSONParser.java:150-175 | the decimal text of any integer, standing alone, is read back by readNumber as that integer |
| JsonLaws.StringValueRoundTrip | YashoDB/src/main/java/com/yashoid/yashodb/JSONParser.java:110-112 | a quoted string is read back by readValue as the string |
| JsonLaws.ObjectValueRoundTrip | YashoDB/src/main/java/com/yashoid/yashodb/JSONParser.java:113-115 | an object's text is read back by readValue as that object |
| JsonLaws.ArrayValueRoundTrip | YashoDB/src/main/java/com/yashoid/yashodb/JSONParser.java:116-118 | an array's text is read back by readValue as that array |
| JsonLaws.EntryRoundTrip | YashoDB/src/main/java/com/yashoid/yashodb/JSONParser.java:23-55 | one pass of readObject's loop reads one "key":value entry toString wrote and puts it at the end |
| JsonLaws.MembersRoundTrip | YashoDB/src/main/java/com/yashoid/yashodb/JSONParser.java:22-62 | readObject's loop reads back all the entries toString wrote, in order, and stops just past the closing brace |
| JsonLaws.ObjectRoundTrip | YashoDB/src/main/java/com/yashoid/yashodb/JSONParser.java:9-63 | readObject of toString's text gives the entries back, numbers as their text, and ends where the text ends |
| JsonLaws.ItemRoundTrip | YashoDB/src/main/java/com/yashoid/yashodb/JSONParser.java:79-93 | one pass of readArray's loop reads one item toString wrote and appends it |
| JsonLaws.ItemsRoundTrip | YashoDB/src/main/java/com/yashoid/yashodb/JSONParser.java:78-100 | readArray's loop reads back all the items, in order, and stops just past the closing bracket |
| JsonLaws.ArrayRoundTrip | YashoDB/src/main/java/com/yashoid/yashodb/JSONParser.java:65-101 | readArray of toString's text gives the items back, numbers as their text |
| JsonLaws.ParseOfToString | YashoDB/src/main/java/com/yashoid/yashodb/YashON.java:11-13 | YashON.parse(doc.toString()) is doc, with numbers turned into their decimal text, for every document without backslashes |
| JsonLaws.ParseOfToStringArray | YashoDB/src/main/java/com/yashoid/yashodb/YashAN.java:11-13 | YashAN.parse(list.toString()) is the list, with numbers turned into their decimal text |
| JsonLaws.PutFieldNew | YashoDB/src/main/java/com/yashoid/yashodb/YashON.java:21-26 | put of a key not yet present adds the entry at the end of the entry order |
| Filters.NewCount | YashoDB/src/main/java/com/yashoid/yashodb/Filter.java:254-258 | CountFilter's constructor succeeds exactly when the argument's text parses as a long, and then holds that target; otherwise NumberFormatException (or NullPointerException for null) |
| Filters.Matching | YashoDB/src/main/java/com/yashoid/yashodb/Filter.java:72-76 | the leaf filter with its match flag set, nothing else changed |
| Filters.OnNewMember | YashoDB/src/main/java/com/yashoid/yashodb/Filter.java:72-76 | onNewMember of a leaf filter clears the match flag and goes on; no filter changes its nesting |
| Filters.OnMemberReviewed | YashoDB/src/main/java/com/yashoid/yashodb/Filter.java:130-140 | onMemberReviewed of a leaf filter reports its match flag and keeps its state |
| Filters.Consider | YashoDB/src/main/java/com/yashoid/yashodb/Filter.java:79-127 | consider with no key names the filter's first key (a leaf its own field); given a value it asks for nothing more |
| Filters.ConsiderValue | YashoDB/src/main/java/com/yashoid/yashodb/Filter.java:79-127 | a leaf filter handed its field's value keeps its kind and key and records its verdict |
| Filters.ViewAt | YashoDB/src/main/java/com/yashoid/yashodb/YashoDB.java:863-889 | readValue(length, true) gives null, a scalar's text, or a view of the nested node at that very position |
| Filters.OnMember | YashoDB/src/main/java/com/yashoid/yashodb/YashoDB.java:385-398 | applyFilterOnMember leaves the filter's kind and nesting as they were |
| Filters.Review | YashoDB/src/main/java/com/yashoid/yashodb/YashoDB.java:360-383 | the process callback: a member the filter stops at is never accepted |
| Filters.Run | YashoDB/src/main/java/com/yashoid/yashodb/YashoDB.java:360-383 | applyFilter over a walk keeps the filter's kind and nesting |
| Filters.LeafReview | YashoDB/src/main/java/com/yashoid/yashodb/Filter.java:40-242 | a leaf filter's review of a member depends on the member alone and accepts exactly when the leaf verdict (comparison, isNull, isNotNull, count, within) says so, with getValueForKey's errors passed on |
| Filters.OnMemberOnlyOne | YashoDB/src/main/java/com/yashoid/yashodb/Filter.java:335-375 | OnlyOneFilter hands a member's review to its wrapped filter unchanged |
| Filters.ReviewOnlyOne | YashoDB/src/main/java/com/yashoid/yashodb/Filter.java:353-373 | OnlyOneFilter: while it needs more, a member gets the wrapped filter's verdict and an accepted one ends the need; once it needs no more, it stops the scan |
| Filters.RunOnlyOne | YashoDB/src/main/java/com/yashoid/yashodb/Filter.java:335-375 | a scan under OnlyOneFilter accepts at most one member |
| Filters.RunPicks | YashoDB/src/main/java/com/yashoid/yashodb/YashoDB.java:360-383 | applyFilter accepts only members, each at most once, in the order of the walk |
| Queries.LongsOf | YashoDB/src/main/java/com/yashoid/yashodb/QueryResult.java:55-60 | the side file holds eight bytes per position |
| Queries.LongsOfAt | YashoDB/src/main/java/com/yashoid/yashodb/QueryResult.java:57-59 | the eight bytes at 8 * i of the side file are writeLong of position i |
| Queries.SpillKeepsPositions | YashoDB/src/main/java/com/yashoid/yashodb/QueryResult.java:33-45 | reading the long at index * 8 of the side file gives the position added at that index, so spilling does not change what get returns |
| Queries.AlignedOffset | YashoDB/src/main/java/com/yashoid/yashodb/QueryResult.java:38 | index * 8 as a Java long is a multiple of 8, and is the exact product when it fits |
| Queries.QueryResult.constructor | YashoDB/src/main/java/com/yashoid/yashodb/QueryResult.java:23-31 | a new query holds no position and has no side file |
| Queries.QueryResult.Count | YashoDB/src/main/java/com/yashoid/yashodb/QueryResult.java:69-71 | getCount is the number of positions added |
| Queries.QueryResult.RecordCount | YashoDB/src/main/java/com/yashoid/yashodb/QueryResult.java:73-75 | getRecordCount is the number of positions added |
| Queries.QueryResult.Add | YashoDB/src/main/java/com/yashoid/yashodb/QueryResult.java:47-67 | add appends the position; the side file exists exactly once the count has reached the threshold, and once made it stays the same file |
| Queries.QueryResult.Spill | YashoDB/src/main/java/com/yashoid/yashodb/QueryResult.java:54-62 | the spill makes a fresh side file holding every position so far, in order |
| Queries.QueryResult.Get | YashoDB/src/main/java/com/yashoid/yashodb/QueryResult.java:33-45 | get(i) in range is the i-th position added; out of range with no side file it throws IndexOutOfBoundsException; whatever it returns is a position added; the query itself is unchanged |
| Queries.QueryResult.OnRemoved | YashoDB/src/main/java/com/yashoid/yashodb/QueryResult.java:77-79 | onRemoved changes nothing |
| Queries.QueryResult.OnModified | YashoDB/src/main/java/com/yashoid/yashodb/QueryResult.java:81-83 | onModified changes nothing |
| Selections.CloseUp | YashoDB/src/main/java/com/yashoid/yashodb/DBSelection.java:102-113 | close keeps the chain's length and returns a selection of it |
| Selections.CloseUpSpec | YashoDB/src/main/java/com/yashoid/yashodb/DBSelection.java:102-113 | close hands each closed selection's filter to the one above, marks it appended, goes on exactly while the next target holds a WithinFilter, returns the selection where it stopped and leaves everything above that unchanged |
| Selections.ClosedUpLift | YashoDB/src/main/java/com/yashoid/yashodb/DBSelection.java:107-110 | a close that goes on from the target is a close from the selection below it |
| Selections.CloseUpWithins | YashoDB/src/main/java/com/yashoid/yashodb/DBSelection.java:102-113 | under nothing but WithinFilters, close always succeeds and returns the root |
| Selections.SetFilterOutcome | YashoDB/src/main/java/com/yashoid/yashodb/DBSelection.java:68-76 | setFilter keeps the chain's length and returns a selection of it |
| Selections.HandedUp | YashoDB/src/main/java/com/yashoid/yashodb/DBSelection.java:119-125 | one commit step changes only the target's filter, and nothing at all when the selection is already appended |
| Selections.CommittedSpec | YashoDB/src/main/java/com/yashoid/yashodb/DBSelection.java:119-126 | commit keeps every appended flag; a target below an unappended selection receives that selection's filter as it stands after its own step, and one below an appended selection keeps its filter |
| Selections.Launched | YashoDB/src/main/java/com/yashoid/yashodb/DBSelection.java:128-143 | findOne wraps the root filter in a fresh OnlyOneFilter that needs more; findAll runs the filter itself and throws NullPointerException when there is none |
| Selections.PickedLongs | YashoDB/src/main/java/com/yashoid/yashodb/DBSelection.java:136-145 | the positions the observer receives are longs, no more of them than there are members |
| Selections.DBSelection.constructor | YashoDB/src/main/java/com/yashoid/yashodb/DBSelection.java:11-14 | the selection remembers the view and whether it is findOne |
| Selections.DBSelection.NewSelection | YashoDB/src/main/java/com/yashoid/yashodb/DBSelection.java:16-18 | selection() is a root with no filter, not appended |
| Selections.Selection.Root | YashoDB/src/main/java/com/yashoid/yashodb/DBSelection.java:28-30 | a root has no target, no filter and is not appended |
| Selections.Selection.Child | YashoDB/src/main/java/com/yashoid/yashodb/DBSelection.java:32-34 | a child closes into its target and starts with no filter |
| Selections.Selection.Append | YashoDB/src/main/java/com/yashoid/yashodb/DBSelection.java:115-117 | append gives the target filter the new one (WithinFilter, And, Or) or fails with ClassCastException / NullPointerException, changing nothing then |
| Selections.Selection.SetFilter | YashoDB/src/main/java/com/yashoid/yashodb/DBSelection.java:36-76 | the comparison, isNull and isNotNull builders set the filter and close up when the target holds a WithinFilter, exactly as SetFilterOutcome says |
| Selections.Selection.Count | YashoDB/src/main/java/com/yashoid/yashodb/DBSelection.java:78-80 | count(key) returns a CountSelection on this selection and key |
| Selections.Selection.Within | YashoDB/src/main/java/com/yashoid/yashodb/DBSelection.java:82-86 | within sets a WithinFilter on this selection and returns a child that closes into it |
| Selections.Selection.And | YashoDB/src/main/java/com/yashoid/yashodb/DBSelection.java:88-92 | and sets an empty AndFilter and returns a child that closes into it |
| Selections.Selection.With | YashoDB/src/main/java/com/yashoid/yashodb/DBSelection.java:94-100 | with appends this filter to the target, marks it appended and returns a new sibling under the same target; a root throws NullPointerException |
| Selections.Selection.HandUp | YashoDB/src/main/java/com/yashoid/yashodb/DBSelection.java:103-105 | the target receives this filter and this selection is marked appended, nothing else changes |
| Selections.Selection.Close | YashoDB/src/main/java/com/yashoid/yashodb/DBSelection.java:102-113 | close leaves the chain as CloseUp says and returns the selection it stopped at; a root throws NullPointerException |
| Selections.Selection.Commit | YashoDB/src/main/java/com/yashoid/yashodb/DBSelection.java:119-148 | commit leaves the chain as Committed says, keeps the file, and returns a fresh view whose query holds exactly the positions applyFilter accepted with the launched filter |
| Selections.Selection.Pass | YashoDB/src/main/java/com/yashoid/yashodb/DBSelection.java:120-123 | the step before deferring: the target's chain becomes what HandedUp says |
| Selections.RootCommit | YashoDB/src/main/java/com/yashoid/yashodb/DBSelection.java:128-147 | the root's run leaves the file as it was and returns a view holding the accepted positions in order |
| Selections.Collect | YashoDB/src/main/java/com/yashoid/yashodb/DBSelection.java:136-143 | the observer adds every accepted position, in order, to a fresh query |
| Selections.CountSelection.constructor | YashoDB/src/main/java/com/yashoid/yashodb/DBSelection.java:158-162 | remembers the selection and the key |
| Selections.CountSelection.Compare | YashoDB/src/main/java/com/yashoid/yashodb/DBSelection.java:164-192 | each operator builds a CountFilter (its constructor's errors passed on), sets it through setFilter and returns the selection it was called on |
| Chains.LongAt | YashoDB/src/main/java/com/yashoid/yashodb/YashoDB.java:1100 | readLong at p succeeds exactly when 8 bytes are there, and yields a Java long |
| Chains.KeyText | YashoDB/src/main/java/com/yashoid/yashodb/YashoDB.java:849-861 | readKey gives one char per byte, each the (char) cast of that signed byte |
| Chains.WalkAtSlot | YashoDB/src/main/java/com/yashoid/yashodb/YashoDB.java:1099-1103 | a walk at a slot visits that slot, then continues just past its payload |
| Chains.WalkEnd | YashoDB/src/main/java/com/yashoid/yashodb/YashoDB.java:1098-1114 | a walk that ends normally ends on a `t` byte at or after its start |
| Chains.WalkSlots | YashoDB/src/main/java/com/yashoid/yashodb/YashoDB.java:13-25 | every slot a walk visits lies at or after its start, and its liveness byte and length are what the file holds there |
| Chains.WalkFrame | YashoDB/src/main/java/com/yashoid/yashodb/YashoDB.java:1089-1115 | a walk reads only the bytes before its terminator: a file that agrees on them visits the same slots and then goes on from the old terminator |
| Chains.FindKeySpec | YashoDB/src/main/java/com/yashoid/yashodb/YashoDB.java:422-459 | goToKey finds the first live slot whose key matches, with the value's position and length worked out from the key length, having read every earlier live key; it finds nothing exactly when the chain ends on its terminator with no such slot |
| Chains.FindAtStop | YashoDB/src/main/java/com/yashoid/yashodb/YashoDB.java:451-453 | goToKey at the terminator finds nothing; at a foreign byte it throws IllegalStateException; past the end of the file it fails with an access error |
| Chains.FindAtTail | YashoDB/src/main/java/com/yashoid/yashodb/YashoDB.java:426-430 | goToKey at a tail link reads the offset and continues there |
| Chains.FindAtSlot | YashoDB/src/main/java/com/yashoid/yashodb/YashoDB.java:431-435 | goToKey steps over a removed slot |
| Chains.FindAtLive | YashoDB/src/main/java/com/yashoid/yashodb/YashoDB.java:436-450 | goToKey at a live slot reads its key: a match is the hit, anything else is stepped over |
| Chains.LiveCount | YashoDB/src/main/java/com/yashoid/yashodb/YashoDB.java:315-332 | the number of live slots never exceeds the number of slots |
| Chains.LiveCountAppend | YashoDB/src/main/java/com/yashoid/yashodb/YashoDB.java:934-950 | the live slots of two slot runs add up |
| Chains.LiveEntriesLive | YashoDB/src/main/java/com/yashoid/yashodb/YashoDB.java:1202-1214 | the members iterate hands over are the live slots, as many as are counted, each a slot of the walk |
| Chains.LiveEntriesAppend | YashoDB/src/main/java/com/yashoid/yashodb/YashoDB.java:1202-1230 | the members of two slot runs are those of the first, then those of the second |
| Chains.ScanAtSlot | YashoDB/src/main/java/com/yashoid/yashodb/YashoDB.java:1203-1219 | iterate at a slot hands it over when it is live, then continues past its payload |
| Chains.NthSlotLive | YashoDB/src/main/java/com/yashoid/yashodb/YashoDB.java:1133-1170 | seekToRawPosition finds member n exactly when there are more than n live slots, and then finds the n-th of them; otherwise it fails with the walk's fault, DBFormatException at the terminator |
| Chains.WalkAtSlotCases | YashoDB/src/main/java/com/yashoid/yashodb/YashoDB.java:1099-1103 | a walk at a slot is that slot followed by the walk past its payload |
| Chains.EndAtStop | YashoDB/src/main/java/com/yashoid/yashodb/YashoDB.java:1098-1111 | seekToEnd stops just past a `t`, throws DBFormatException on a foreign byte, and fails with an access error past the end |
| Chains.EndAtShortSlot | YashoDB/src/main/java/com/yashoid/yashodb/YashoDB.java:1099-1100 | seekToEnd fails on a slot whose length field is cut off |
| Chains.EndAtSlot | YashoDB/src/main/java/com/yashoid/yashodb/YashoDB.java:1099-1103 | seekToEnd steps over every slot, live or removed |
| Chains.NthAtShortSlot | YashoDB/src/main/java/com/yashoid/yashodb/YashoDB.java:1150-1153 | seekToRawPosition fails on a slot whose length field is cut off |
| Chains.NthHit | YashoDB/src/main/java/com/yashoid/yashodb/YashoDB.java:1155-1160 | seekToRawPosition stops at the live slot it is looking for |
| Chains.NthPassed | YashoDB/src/main/java/com/yashoid/yashodb/YashoDB.java:1145-1165 | seekToRawPosition steps past any other slot, counting it when it is live |
| Chains.CoveringSpec | YashoDB/src/main/java/com/yashoid/yashodb/YashoDB.java:541-595 | removeNestedObject's search finds a live slot whose payload extends past the target; it finds nothing exactly when the chain ends on its terminator and no live payload extends that far |
| Chains.CoveringAtSlot | YashoDB/src/main/java/com/yashoid/yashodb/YashoDB.java:541-595 | at a slot the search either stops there or continues past it |
| Walker.ReadKey | YashoDB/src/main/java/com/yashoid/yashodb/YashoDB.java:849-861 | readKey reads keyLength bytes as chars and moves past them; a negative length throws NegativeArraySizeException; a short file fails with an access error |
| Walker.GoToKey | YashoDB/src/main/java/com/yashoid/yashodb/YashoDB.java:422-459 | goToKey returns the value length of the key's live slot (-1 when there is none) as FindKey defines it, and leaves the pointer at the value on a hit |
| Walker.GoToKeyFrom | YashoDB/src/main/java/com/yashoid/yashodb/YashoDB.java:425-458 | the loop of goToKey reaches the result of the walk from where it is |
| Walker.PassTag | YashoDB/src/main/java/com/yashoid/yashodb/YashoDB.java:426-455 | one round of goToKey either settles the search or moves forward to a position from which the search has the same outcome |
| Walker.PassLiveSlot | YashoDB/src/main/java/com/yashoid/yashodb/YashoDB.java:436-450 | the same for the live-slot branch |
| Walker.FollowTail | YashoDB/src/main/java/com/yashoid/yashodb/YashoDB.java:426-430 | following a tail link moves forward to where the chain continues, or fails as the walk does |
| Walker.WalkAtStop | YashoDB/src/main/java/com/yashoid/yashodb/YashoDB.java:1098-1111 | a walk ends at the terminator, past the end of the file, or on a foreign byte |
| Walker.WalkAtShortSlot | YashoDB/src/main/java/com/yashoid/yashodb/YashoDB.java:1099-1100 | a walk ends at a slot whose length field is cut off |
| Walker.SeekToEnd | YashoDB/src/main/java/com/yashoid/yashodb/YashoDB.java:1089-1115 | seekToEnd leaves the pointer just past the terminator of the view's chain, or fails as EndFrom says |
| Walker.EndLoop | YashoDB/src/main/java/com/yashoid/yashodb/YashoDB.java:1098-1114 | the loop of seekToEnd reaches the same end as EndFrom |
| Walker.EndRound | YashoDB/src/main/java/com/yashoid/yashodb/YashoDB.java:1099-1113 | one round of seekToEnd moves forward without changing where it ends |
| Walker.SeekToRawPosition | YashoDB/src/main/java/com/yashoid/yashodb/YashoDB.java:1133-1170 | seekToRawPosition leaves the pointer just past the liveness byte of member n, or fails as NthFrom says |
| Walker.NthRound | YashoDB/src/main/java/com/yashoid/yashodb/YashoDB.java:1139-1168 | one round of seekToRawPosition either finds the member or moves forward towards it |
| Walker.NthPassSlot | YashoDB/src/main/java/com/yashoid/yashodb/YashoDB.java:1150-1165 | the slot branch of one round |
| Walker.ChainMembers | YashoDB/src/main/java/com/yashoid/yashodb/YashoDB.java:1197-1231 | iterate over a collection hands over exactly the live slots of the walk from past the count, in order, and reports the fault that ended it |
| Walker.ScanAtStop | YashoDB/src/main/java/com/yashoid/yashodb/YashoDB.java:1202-1227 | iterate ends at the terminator, with DBFormatException on a foreign byte, and with an access error past the end |
| Walker.ScanRound | YashoDB/src/main/java/com/yashoid/yashodb/YashoDB.java:1203-1229 | one round of iterate adds a live slot to the members and moves forward |
| Walker.FindCovering | YashoDB/src/main/java/com/yashoid/yashodb/YashoDB.java:541-595 | removeNestedObject's loop finds the live slot whose payload holds the target, as Covering defines it |
| Walker.CoveringRound | YashoDB/src/main/java/com/yashoid/yashodb/YashoDB.java:541-595 | one round of that loop either settles the search or moves forward |
| Chains.WalkAscending | YashoDB/src/main/java/com/yashoid/yashodb/YashoDB.java:1089-1115 | a walk visits its slots at strictly increasing offsets, so no two slots it visits share an offset |
| Layout.HeaderIsEmptyRoot | YashoDB/src/main/java/com/yashoid/yashodb/YashoDB.java:89-105 | what open writes into an empty file is an 18-byte empty root collection: count 0, no member, its chain ending at the `t` at offset 9 |
| Layout.RecountedCount | YashoDB/src/main/java/com/yashoid/yashodb/YashoDB.java:934-950 | after incrementCount/decrementCount the count reads as the old count plus delta, wrapped to a Java long, and no other byte changed |
| Layout.TombstonedBytes | YashoDB/src/main/java/com/yashoid/yashodb/YashoDB.java:503-539 | remove writes `R` over the liveness byte of each slot it removes and changes nothing else, not even the length |
| Layout.SlotsSnoc | YashoDB/src/main/java/com/yashoid/yashodb/YashoDB.java:754-756 | writing one more object after the others adds exactly its slot at the end |
| Layout.SlotEntriesLive | YashoDB/src/main/java/com/yashoid/yashodb/YashoDB.java:952-964 | every slot writeObject writes is live |
| Layout.AppendedBytes | YashoDB/src/main/java/com/yashoid/yashodb/YashoDB.java:779-793 | the append turns the old terminator into `T` plus the old file length, keeps every other old byte, and puts the segment at the old end |
| Layout.WalkSegment | YashoDB/src/main/java/com/yashoid/yashodb/YashoDB.java:1197-1231 | a walk over slots written back to back and a terminator visits exactly those slots, all live, each with its body's length |
| Layout.AppendedWalk | YashoDB/src/main/java/com/yashoid/yashodb/YashoDB.java:769-801 | after the append, the chain's walk visits the old slots, follows the new link, then visits the new slots and ends on the new terminator |
| Layout.InsertedWalk | YashoDB/src/main/java/com/yashoid/yashodb/YashoDB.java:795 | the count update after the append does not change the chain's walk |
| Layout.InsertedBytes | YashoDB/src/main/java/com/yashoid/yashodb/YashoDB.java:731-801 | after insert the count has risen by the number of new objects, the old terminator links to the old end, the new slots and terminator sit there, and no other byte of the old file changed, so other chains keep their bytes |
| Layout.AppendedKeeps | YashoDB/src/main/java/com/yashoid/yashodb/YashoDB.java:741-759 | linking and appending a segment changes no byte of the old file but the old terminator |
| Layout.InsertedScan | YashoDB/src/main/java/com/yashoid/yashodb/YashoDB.java:731-801 | after insert, iterate yields the old members and then every new one, and no fault |
| Layout.InsertedMembers | YashoDB/src/main/java/com/yashoid/yashodb/YashoDB.java:731-801 | insert/insertAll on a collection whose chain ends cleanly: iterate yields the old members followed by the new ones in list order, the count rises by their number, and no byte of the old file changed but the old terminator and the count |
| Layout.RetaggedWalk | YashoDB/src/main/java/com/yashoid/yashodb/YashoDB.java:1197-1231 | writing `R` over liveness bytes of slots a walk visits changes no step of the walk: the same slots, lengths and stop, only the liveness read anew |
| Layout.TombstonedWalk | YashoDB/src/main/java/com/yashoid/yashodb/YashoDB.java:514-528 | `R` over the liveness byte of every member a walk finds leaves a walk over the same slots, all dead, that yields no member |
| Layout.KilledWalk | YashoDB/src/main/java/com/yashoid/yashodb/YashoDB.java:606-612 | `R` over one visited slot's liveness byte: the walk sees that slot dead and every other slot as before |
| Compaction.CopyValueTo | YashoDB/src/main/java/com/yashoid/yashodb/YashoDB.java:158-174 | writeValueToFile writes exactly the bytes CopyValue defines for the node at the source pointer (a collection, an object, a string, `N`), returns the length CopyValue reports, and leaves the source file unchanged; a foreign tag throws |
| Compaction.CopyTextTo | YashoDB/src/main/java/com/yashoid/yashodb/YashoDB.java:303-313 | writeStringValueToFile writes `V` and the length - 1 bytes after the tag, and returns the length it was given |
| Compaction.CopyCollectionTo | YashoDB/src/main/java/com/yashoid/yashodb/YashoDB.java:176-233 | writeCollectionToFile writes `C`, the count as read, the copied live members and a terminator, as CopyCollection defines |
| Compaction.CollectionLoop | YashoDB/src/main/java/com/yashoid/yashodb/YashoDB.java:187-224 | the loop of writeCollectionToFile writes what CollectionRest defines: live members copied, tombstones skipped, a `T` stepped over by one byte |
| Compaction.CollectionLoopPass | YashoDB/src/main/java/com/yashoid/yashodb/YashoDB.java:187-224 | one trip round that loop keeps the bytes written so far equal to the copy so far |
| Compaction.CollectionRound | YashoDB/src/main/java/com/yashoid/yashodb/YashoDB.java:188-223 | one pass of that loop on the tag just read |
| Compaction.CollectionSlot | YashoDB/src/main/java/com/yashoid/yashodb/YashoDB.java:188-207 | the `r` branch: the member copied into a slot |
| Compaction.CollectionSlotValue | YashoDB/src/main/java/com/yashoid/yashodb/YashoDB.java:192-206 | the member's value copied, its reported length patched into the slot, and the source moved past the member |
| Compaction.CollectionRestAtSlot | YashoDB/src/main/java/com/yashoid/yashodb/YashoDB.java:188-207 | the `r` branch of CollectionRest, case by case |
| Compaction.CopyObjectTo | YashoDB/src/main/java/com/yashoid/yashodb/YashoDB.java:235-301 | writeObjectToFile writes `O`, the copied live fields and a terminator, as CopyObject defines |
| Compaction.ObjectLoop | YashoDB/src/main/java/com/yashoid/yashodb/YashoDB.java:243-292 | the loop of writeObjectToFile writes what ObjectRest defines: live fields copied, tombstones skipped, tails followed |
| Compaction.ObjectLoopPass | YashoDB/src/main/java/com/yashoid/yashodb/YashoDB.java:243-292 | one trip round that loop keeps the bytes written so far equal to the copy so far |
| Compaction.ObjectRound | YashoDB/src/main/java/com/yashoid/yashodb/YashoDB.java:244-291 | one pass of that loop on the tag just read |
| Compaction.ObjectSkip | YashoDB/src/main/java/com/yashoid/yashodb/YashoDB.java:277-286 | the `R` and `T` branches write nothing and move the source on |
| Compaction.ObjectField | YashoDB/src/main/java/com/yashoid/yashodb/YashoDB.java:244-276 | the `r` branch writes the field FieldAt defines |
| Compaction.ObjectFieldValue | YashoDB/src/main/java/com/yashoid/yashodb/YashoDB.java:256-275 | once the key is read: key rewritten, value copied, key-value length patched in, source moved past the field |
| Compaction.ReadFieldHead | YashoDB/src/main/java/com/yashoid/yashodb/YashoDB.java:248-254 | readLong, readInt and readKey after the `r`, with their errors |
| Compaction.CopyFieldTo | YashoDB/src/main/java/com/yashoid/yashodb/YashoDB.java:256-273 | the field written as `r`, 4 + key length + copied length, the key length, the key bytes, the value |
| Compaction.SlotCopyPatched | YashoDB/src/main/java/com/yashoid/yashodb/YashoDB.java:133-145 | writing a zero length, copying, then patching the length in gives the finished slot |
| Compaction.FieldCopyPatched | YashoDB/src/main/java/com/yashoid/yashodb/YashoDB.java:256-273 | the same for an object field |
| Compaction.CopyMemberTo | YashoDB/src/main/java/com/yashoid/yashodb/YashoDB.java:132-148 | process() writes one member slot holding that member's copy |
| Compaction.CopyMembersTo | YashoDB/src/main/java/com/yashoid/yashodb/YashoDB.java:129-150 | the processor run over the visited members writes one slot per member, in order, up to the first failure |
| Compaction.WriteCompacted | YashoDB/src/main/java/com/yashoid/yashodb/YashoDB.java:126-153 | writeToFile after the `C`: the count, one slot per visited member, the terminator, exactly as Compacted defines, and the source file unchanged |
| Compaction.KeyBytesOfText | YashoDB/src/main/java/com/yashoid/yashodb/YashoDB.java:263 | writing each char of a key read by readKey gives back the key's bytes: keys are copied verbatim |
| Compaction.CopyValueExact | YashoDB/src/main/java/com/yashoid/yashodb/YashoDB.java:158-174 | on a file of at most Integer.MAX_VALUE bytes, a successful copy reports exactly the number of bytes it wrote |
| Compaction.CopyCollectionExact | YashoDB/src/main/java/com/yashoid/yashodb/YashoDB.java:176-233 | the same for a nested collection |
| Compaction.CollectionRestExact | YashoDB/src/main/java/com/yashoid/yashodb/YashoDB.java:187-232 | the same for the rest of a collection chain |
| Compaction.CopyObjectExact | YashoDB/src/main/java/com/yashoid/yashodb/YashoDB.java:235-301 | the same for a nested object |
| Compaction.ObjectRestExact | YashoDB/src/main/java/com/yashoid/yashodb/YashoDB.java:243-300 | the same for the rest of an object chain |
| Compaction.FieldAtExact | YashoDB/src/main/java/com/yashoid/yashodb/YashoDB.java:244-276 | the same for one field |
| Compaction.CopyMembersEach | YashoDB/src/main/java/com/yashoid/yashodb/YashoDB.java:129-150 | one copy per visited member, each that member's own copy |
| Compaction.MemberSlotsExact | YashoDB/src/main/java/com/yashoid/yashodb/YashoDB.java:133-145 | exact copies make the member slots plain slots of their bytes |
| Compaction.CompactedLayout | YashoDB/src/main/java/com/yashoid/yashodb/YashoDB.java:119-156 | writeToFile over members lying inside a source of at most Integer.MAX_VALUE bytes writes `C`, the count, one slot per member in visiting order, each holding that member's copy under its true length, and the terminator |
| Compaction.ExportLayoutWalk | YashoDB/src/main/java/com/yashoid/yashodb/YashoDB.java:119-156 | the exported file's chain, walked with or without following tails, is exactly those slots, all live, ending on the terminator, so iterate yields them all |
| Compaction.ExportLayoutParts | YashoDB/src/main/java/com/yashoid/yashodb/YashoDB.java:126-153 | where the slots and the terminator of the exported file lie |
| Compaction.SlotsThenEnd | YashoDB/src/main/java/com/yashoid/yashodb/YashoDB.java:1197-1231 | a file holding slots from offset 9 and a terminator after them walks and scans as those slots |
| Compaction.ExportLayoutCount | YashoDB/src/main/java/com/yashoid/yashodb/YashoDB.java:126-127 | the exported file starts with `C` and the count, which reads back |
| Compaction.WalkBefore | YashoDB/src/main/java/com/yashoid/yashodb/YashoDB.java:1197-1231 | every slot of a walk that reached its terminator lies before it |
| Compaction.ScanWithin | YashoDB/src/main/java/com/yashoid/yashodb/YashoDB.java:1197-1231 | the members of a chain that iterate walked cleanly lie inside the file, so CompactedLayout applies to every root or nested collection |
| Encoding.Terminator | YashoDB/src/main/java/com/yashoid/yashodb/YashoDB.java:1055-1059 | the end of a chain is nine bytes starting with `t` |
| Encoding.KeyBytes | YashoDB/src/main/java/com/yashoid/yashodb/YashoDB.java:1005 | writeByte of each key char keeps one byte per char, its low 8 bits |
| Encoding.TextNode | YashoDB/src/main/java/com/yashoid/yashodb/YashoDB.java:1075-1081 | a scalar's node is `V` and writeUTF's output: 3 bytes more than the modified-UTF-8 body |
| Encoding.Slot | YashoDB/src/main/java/com/yashoid/yashodb/YashoDB.java:1036-1052 | a live slot is 9 bytes longer than its body |
| Encoding.KeyValueSlot | YashoDB/src/main/java/com/yashoid/yashodb/YashoDB.java:990-1020 | an object slot is 13 bytes plus the key plus the value |
| Encoding.KeyHead | YashoDB/src/main/java/com/yashoid/yashodb/YashoDB.java:991-1005 | what writeKeyValue emits before the value is 13 bytes plus the key |
| Encoding.WriteByteLong | YashoDB/src/main/java/com/yashoid/yashodb/YashoDB.java:1055-1058 | writeByte then writeLong put the byte and the 8 big-endian bytes at the pointer |
| Encoding.PatchLong | YashoDB/src/main/java/com/yashoid/yashodb/YashoDB.java:1014-1017 | the back-patch idiom overwrites 8 bytes at the saved offset and returns the pointer to where it was |
| Encoding.SlotWritten | YashoDB/src/main/java/com/yashoid/yashodb/YashoDB.java:1036-1052 | a slot written with a zero length and then back-patched is the finished slot |
| Encoding.KeyValueWritten | YashoDB/src/main/java/com/yashoid/yashodb/YashoDB.java:990-1020 | the same for an object slot |
| Encoding.BackPatchKeyValue | YashoDB/src/main/java/com/yashoid/yashodb/YashoDB.java:1014-1015 | back-patching 4 + key length + value length over the placeholder gives the object slot |
| Encoding.BackPatchSlot | YashoDB/src/main/java/com/yashoid/yashodb/YashoDB.java:1049-1050 | back-patching the body length over the placeholder gives the slot |
| Encoding.WriteValue | YashoDB/src/main/java/com/yashoid/yashodb/YashoDB.java:1064-1083 | writeValue writes exactly the node EncodeObject defines (object, array, `N`, or `V` plus writeUTF of toString) and returns its length; it fails exactly when some string in the value is too long for writeUTF, and then no byte before the pointer changed and the file did not shrink |
| Encoding.WriteObjectValue | YashoDB/src/main/java/com/yashoid/yashodb/YashoDB.java:966-988 | writeObjectValue writes `O`, one object slot per entry in entry order, and a terminator, and returns the length |
| Encoding.WriteEntries | YashoDB/src/main/java/com/yashoid/yashodb/YashoDB.java:974-979 | the entry loop writes one object slot per entry, in order |
| Encoding.WriteField | YashoDB/src/main/java/com/yashoid/yashodb/YashoDB.java:975-978 | one entry of that loop |
| Encoding.WriteKeyValue | YashoDB/src/main/java/com/yashoid/yashodb/YashoDB.java:990-1020 | writeKeyValue writes `r`, the key-value length, the key length, the key bytes and the value, and returns the slot's length |
| Encoding.WriteKeyHead | YashoDB/src/main/java/com/yashoid/yashodb/YashoDB.java:991-1005 | the head of an object slot with a zero placeholder length |
| Encoding.WriteKeyChars | YashoDB/src/main/java/com/yashoid/yashodb/YashoDB.java:1005 | the key loop writes one byte per char |
| Encoding.WriteArrayValue | YashoDB/src/main/java/com/yashoid/yashodb/YashoDB.java:1022-1062 | writeArrayValue writes `C`, the item count, one back-patched slot per item in order, and a terminator, and returns the length |
| Encoding.WriteItems | YashoDB/src/main/java/com/yashoid/yashodb/YashoDB.java:1035-1053 | the item loop writes one slot per item, in order |
| Encoding.WriteSlot | YashoDB/src/main/java/com/yashoid/yashodb/YashoDB.java:1036-1052 | one item of that loop |
| Encoding.WriteObject | YashoDB/src/main/java/com/yashoid/yashodb/YashoDB.java:952-964 | writeObject writes a document as one live slot whose length is back-patched |
| Encoding.EntriesSnoc | YashoDB/src/main/java/com/yashoid/yashodb/YashoDB.java:974-979 | one more entry adds exactly its slot to the encoding |
| Encoding.ItemsSnoc | YashoDB/src/main/java/com/yashoid/yashodb/YashoDB.java:1035-1053 | one more item adds exactly its slot to the encoding |
| FileAccess.Patch | YashoDB/src/main/java/com/yashoid/yashodb/YashoDB.java:94-97 | the contents after a write are long enough to hold it |
| FileAccess.PatchIndex | YashoDB/src/main/java/com/yashoid/yashodb/YashoDB.java:94-97 | after a write each byte is the written byte, else the old byte, else zero padding |
| FileAccess.PatchThen | YashoDB/src/main/java/com/yashoid/yashodb/YashoDB.java:94-97 | two writes back to back are one write of both |
| FileAccess.PatchOver | YashoDB/src/main/java/com/yashoid/yashodb/YashoDB.java:142-145 | back-patching a placeholder inside an earlier write gives the write with the real value in its place |
| FileAccess.PatchNothing | YashoDB/src/main/java/com/yashoid/yashodb/YashoDB.java:94-97 | writing nothing changes nothing |
| FileAccess.PatchAtEnd | YashoDB/src/main/java/com/yashoid/yashodb/YashoDB.java:746-750 | a write at the end of the file appends |
| FileAccess.RandomAccess.constructor | YashoDB/src/main/java/com/yashoid/yashodb/YashoDB.java:91 | a file opened with its contents and the pointer at 0 |
| FileAccess.RandomAccess.Seek | YashoDB/src/main/java/com/yashoid/yashodb/YashoDB.java:429 | seek moves the pointer to any offset that is not negative, and fails otherwise |
| FileAccess.RandomAccess.ReadByte | YashoDB/src/main/java/com/yashoid/yashodb/YashoDB.java:423 | readByte gives the byte at the pointer and moves on, or fails at the end of the file |
| FileAccess.RandomAccess.ReadFully | YashoDB/src/main/java/com/yashoid/yashodb/YashoDB.java:308 | readFully gives the next n bytes, or fails when the file has fewer |
| FileAccess.RandomAccess.ReadLong | YashoDB/src/main/java/com/yashoid/yashodb/YashoDB.java:427 | readLong gives the 8 big-endian bytes at the pointer as a long, or fails |
| FileAccess.RandomAccess.ReadInt | YashoDB/src/main/java/com/yashoid/yashodb/YashoDB.java:438 | readInt gives the 4 big-endian bytes at the pointer as an int, or fails |
| FileAccess.RandomAccess.Write | YashoDB/src/main/java/com/yashoid/yashodb/YashoDB.java:310 | write puts the bytes at the pointer and moves past them |
| FileAccess.RandomAccess.WriteByte | YashoDB/src/main/java/com/yashoid/yashodb/YashoDB.java:94 | writeByte puts one byte at the pointer |
| FileAccess.RandomAccess.WriteLong | YashoDB/src/main/java/com/yashoid/yashodb/YashoDB.java:95 | writeLong puts 8 big-endian bytes at the pointer |
| FileAccess.RandomAccess.WriteInt | YashoDB/src/main/java/com/yashoid/yashodb/YashoDB.java:1002 | writeInt puts 4 big-endian bytes at the pointer |
| FileAccess.RandomAccess.SkipBytes | YashoDB/src/main/java/com/yashoid/yashodb/YashoDB.java:1093 | skipBytes moves at most n bytes forward, never past the end, and returns how far it moved |
| Reader.FoldAtStop | YashoDB/src/main/java/com/yashoid/yashodb/YashoDB.java:808-827 | readObject and readCollection end at the terminator with what they have put, throw IllegalStateException on a foreign byte, and fail with an access error past the end |
| Reader.FoldAtShortSlot | YashoDB/src/main/java/com/yashoid/yashodb/YashoDB.java:812-815 | they fail on a slot whose length field is cut off |
| Reader.FoldAtTail | YashoDB/src/main/java/com/yashoid/yashodb/YashoDB.java:817-821 | at a tail link they continue where the link points |
| Reader.FoldAtRemoved | YashoDB/src/main/java/com/yashoid/yashodb/YashoDB.java:812-816 | they step over a removed slot by its length |
| Reader.FieldsAtLive | YashoDB/src/main/java/com/yashoid/yashodb/YashoDB.java:809-811 | readObject at a live slot reads its key and value, puts them, and continues past the slot |
| Reader.ItemsAtLive | YashoDB/src/main/java/com/yashoid/yashodb/YashoDB.java:903-910 | readCollection at a live slot appends its value and continues past the slot |
| Reader.ReadValue | YashoDB/src/main/java/com/yashoid/yashodb/YashoDB.java:863-889 | readValue(length, false) returns the value whose node is at the pointer, as ValueAt defines, and leaves the file unchanged |
| Reader.ReadStringValue | YashoDB/src/main/java/com/yashoid/yashodb/YashoDB.java:930-932 | readStringValue is readUTF at the pointer |
| Reader.ReadObject | YashoDB/src/main/java/com/yashoid/yashodb/YashoDB.java:803-830 | readObject returns the document FieldsFrom folds from the object chain at the pointer |
| Reader.ObjectRound | YashoDB/src/main/java/com/yashoid/yashodb/YashoDB.java:809-826 | one round of readObject's loop moves forward without changing what the fold gives |
| Reader.ReadKeyValue | YashoDB/src/main/java/com/yashoid/yashodb/YashoDB.java:832-847 | readKeyValue puts the slot's key and value and leaves the pointer past the slot |
| Reader.KeyValueStep | YashoDB/src/main/java/com/yashoid/yashodb/YashoDB.java:832-847 | once a slot's entry is put, readObject goes on after that slot |
| Reader.PutKeyValue | YashoDB/src/main/java/com/yashoid/yashodb/YashoDB.java:840-844 | readValue at the pointer, then put under the key, as PutValue defines |
| Reader.ReadCollection | YashoDB/src/main/java/com/yashoid/yashodb/YashoDB.java:891-928 | readCollection refuses a count above Integer.MAX_VALUE with IllegalStateException, otherwise returns the list ItemsFrom folds from the chain past the count |
| Reader.CollectionRound | YashoDB/src/main/java/com/yashoid/yashodb/YashoDB.java:903-924 | one round of readCollection's loop moves forward without changing what the fold gives |
| Store.QueryScanSlots | YashoDB/src/main/java/com/yashoid/yashodb/YashoDB.java:1176-1196 | every member iterate yields over a query-backed view is a live slot of the file at one of the recorded positions |
| Store.QueryScanLive | YashoDB/src/main/java/com/yashoid/yashodb/YashoDB.java:1176-1196 | when every recorded position still holds a live slot inside the file, iterate yields exactly those slots in recording order and ends without a fault |
| Store.KeyDroppedSlot | YashoDB/src/main/java/com/yashoid/yashodb/YashoDB.java:597-620 | remove(key) answering true has tombstoned the slot goToKey finds (the first live slot whose key is key, every live slot before it holding another readable key) and nothing else: the object's walk visits the same slots, that one now dead and every other unchanged |
| Store.RemovedCounted | YashoDB/src/main/java/com/yashoid/yashodb/YashoDB.java:503-539 | remove() on a collection whose chain ends on its terminator answers the number of live members, and the stored count drops by exactly that number (as a Java long) |
| Store.RemovedAll | YashoDB/src/main/java/com/yashoid/yashodb/YashoDB.java:503-539 | after remove() the collection's walk visits the same slots with the same lengths and the same stop, every one of them dead, so the next iterate yields no member |
| Store.RemovedMembers | YashoDB/src/main/java/com/yashoid/yashodb/YashoDB.java:514-528 | the members remove() tombstones are the live slots of the walk, as many as LiveCount counts, all inside the file past the count |
| Store.ClearedBytes | YashoDB/src/main/java/com/yashoid/yashodb/YashoDB.java:514-532 | the bytes remove() leaves: `R` over each member's liveness byte, the count lowered by their number, every other byte and the length unchanged |
| Store.WriteObjects | YashoDB/src/main/java/com/yashoid/yashodb/YashoDB.java:754-756 | insertAll's loop succeeds exactly when every object is writable and then writes one live slot per object, in list order, at the pointer; otherwise it fails with an access error, no byte before the pointer changed and the file did not shrink |
| Store.WriteSegment | YashoDB/src/main/java/com/yashoid/yashodb/YashoDB.java:743-759 | insertAll after seekToEnd: with every object writable, the file becomes Appended with one slot per object and a terminator; otherwise an access error, with the old terminator already a link to the old end and no other old byte changed |
| Store.LinkTail | YashoDB/src/main/java/com/yashoid/yashodb/YashoDB.java:779-788 | the old terminator becomes a tail link to the old end of the file, and the pointer is left at that end |
| Store.DropKey | YashoDB/src/main/java/com/yashoid/yashodb/YashoDB.java:597-620 | remove(key)'s work on the object chain: the file and answer are exactly KeyDropped's (goToKey, then `R` over the slot found) |
| Store.AppendKeyValue | YashoDB/src/main/java/com/yashoid/yashodb/YashoDB.java:672-686 | setObjectKeyValue's append leaves a key/value slot linked behind the old end; on failure the file is as KeyAppendLeft says: untouched where the chain does not end on a terminator, else (a value too long for writeUTF) the old terminator turned into a link to the old end and no other old byte changed |
| Store.WriteKeyValueSegment | YashoDB/src/main/java/com/yashoid/yashodb/YashoDB.java:668-679 | setObjectKeyValue after seekToEnd: a writable value gives Appended with the key/value slot and a terminator; otherwise an access error, with the old terminator already a link to the old end and no other old byte changed |
| Store.ReadQueryMember | YashoDB/src/main/java/com/yashoid/yashodb/YashoDB.java:1181-1195 | one round of iterate over a query: a position still holding `r` contributes its member, a dead one is skipped, a position outside the file ends the scan with an access error; the file is unchanged |
| Store.FillArray | YashoDB/src/main/java/com/yashoid/yashodb/YashoDB.java:705-729 | asYashAN's processor puts readValue of every visited member into the array, in order, or stops with the first read's error |
| Store.FilterMembers | YashoDB/src/main/java/com/yashoid/yashodb/YashoDB.java:360-398 | applyFilter's processor computes exactly Run: each member reviewed until onNewMember says stop, the accepted liveness offsets collected |
| Store.TombstoneAll | YashoDB/src/main/java/com/yashoid/yashodb/YashoDB.java:514-528 | remove()'s processor writes `R` over each visited member's liveness byte, in turn, and counts them |
| Store.YashoDB.constructor | YashoDB/src/main/java/com/yashoid/yashodb/YashoDB.java:54-61 | a new view is the root collection of the file, its count at offset 1 |
| Store.YashoDB.Child | YashoDB/src/main/java/com/yashoid/yashodb/YashoDB.java:63-74 | a nested view shares the file, takes the tag byte read at startOffset as its type, starts one byte later and is one byte shorter |
| Store.YashoDB.Selected | YashoDB/src/main/java/com/yashoid/yashodb/YashoDB.java:76-87 | a query-backed view has its parent's file, type, start and length, and the query's positions |
| Store.YashoDB.NodeAt | YashoDB/src/main/java/com/yashoid/yashodb/YashoDB.java:63-74 | new YashoDB(this, at, len) succeeds exactly when at is inside the file, and then is the node whose tag byte is at `at`; the file is unchanged |
| Store.YashoDB.Open | YashoDB/src/main/java/com/yashoid/yashodb/YashoDB.java:89-105 | an empty file gets the 18-byte header of an empty root collection and the pointer moves to the count; a file with contents is left alone; the length is the file's length minus one |
| Store.YashoDB.GetCount | YashoDB/src/main/java/com/yashoid/yashodb/YashoDB.java:315-332 | getCount answers the query's own count for a query-backed view, else the long stored at the collection's start, without changing the file |
| Store.YashoDB.IncrementCount | YashoDB/src/main/java/com/yashoid/yashodb/YashoDB.java:934-941 | incrementCount succeeds exactly when the count lies inside the file and then raises it by size as a Java long |
| Store.YashoDB.DecrementCount | YashoDB/src/main/java/com/yashoid/yashodb/YashoDB.java:943-950 | decrementCount succeeds exactly when the count lies inside the file and then lowers it by size as a Java long |
| Store.YashoDB.Iterate | YashoDB/src/main/java/com/yashoid/yashodb/YashoDB.java:1172-1235 | iterate yields the members of the chain walk, or of the query's positions, and the fault that ended it, without changing the file |
| Store.YashoDB.QueryMembers | YashoDB/src/main/java/com/yashoid/yashodb/YashoDB.java:1176-1196 | iterate's loop over a query's positions computes exactly QueryScan |
| Store.YashoDB.ApplyFilter | YashoDB/src/main/java/com/yashoid/yashodb/YashoDB.java:360-383 | applyFilter refuses a non-collection with a usage error, else reviews the visited members with the filter and answers the accepted offsets and the filter's final state |
| Store.YashoDB.GetAt | YashoDB/src/main/java/com/yashoid/yashodb/YashoDB.java:461-481 | get(index) answers a view of the index-th member's payload (the index-th live slot, or the index-th recorded position), or the range, format or access error that stops it |
| Store.YashoDB.SeekToMember | YashoDB/src/main/java/com/yashoid/yashodb/YashoDB.java:1122-1131 | seekToPosition leaves the pointer on the member's length field, or fails as the member lookup does |
| Store.YashoDB.GetKey | YashoDB/src/main/java/com/yashoid/yashodb/YashoDB.java:483-501 | get(key) on an object answers a view of the value of the first live slot with that key, None when the key is absent, and a usage error on a non-object |
| Store.YashoDB.AppendMembers | YashoDB/src/main/java/com/yashoid/yashodb/YashoDB.java:738-766 | the objects are appended as one new segment linked behind the chain's end and counted, as Insertion says; a chain that does not end on a terminator leaves the file untouched; an object too long for writeUTF leaves the old terminator turned into a link to the old end, no other old byte changed and the count not raised |
| Store.YashoDB.AppendAt | YashoDB/src/main/java/com/yashoid/yashodb/YashoDB.java:743-761 | after seekToEnd: with every object writable the file becomes Inserted (segment and raised count); otherwise the Linked state of a failed append |
| Store.InsertionCases | YashoDB/src/main/java/com/yashoid/yashodb/YashoDB.java:740-761 | Insertion and seekToEnd by how the walk stopped: not on a terminator, both fail with the stop's error; on one, seekToEnd lands just past it and Insertion is the inserted file or an access error |
| Store.YashoDB.InsertAll | YashoDB/src/main/java/com/yashoid/yashodb/YashoDB.java:731-767 | insertAll refuses a query-backed view or a non-collection and otherwise appends and counts the objects in list order; a chain that does not end on a terminator leaves the file untouched; a failed write leaves the old terminator linked to the old end and no other old byte changed |
| Store.YashoDB.Insert | YashoDB/src/main/java/com/yashoid/yashodb/YashoDB.java:769-801 | insert refuses a query-backed view or a non-collection and otherwise appends and counts the one object; a chain that does not end on a terminator leaves the file untouched; a failed write leaves the old terminator linked to the old end and no other old byte changed |
| Store.YashoDB.RemoveNestedObject | YashoDB/src/main/java/com/yashoid/yashodb/YashoDB.java:541-595 | in a collection the member slot just before the nested object is tombstoned and counted off (unless query-backed); in an object the live slot whose payload covers it is tombstoned |
| Store.YashoDB.Remove | YashoDB/src/main/java/com/yashoid/yashodb/YashoDB.java:503-539 | remove() on an object defers to its parent (a root object fails), refuses other non-collections, and on a collection leaves exactly Cleared's bytes and answer |
| Store.YashoDB.RemoveKey | YashoDB/src/main/java/com/yashoid/yashodb/YashoDB.java:597-620 | remove(key) refuses a non-object, else leaves exactly KeyDropped's bytes and answer |
| Store.FailedSetDropped | YashoDB/src/main/java/com/yashoid/yashodb/YashoDB.java:655-689 | a set on an object that fails after goToKey has found the key still leaves the key's old slot (the one goToKey found) tombstoned, so the old value is lost, and the file no shorter |
| Store.YashoDB.SetObjectKeyValue | YashoDB/src/main/java/com/yashoid/yashodb/YashoDB.java:655-689 | setObjectKeyValue tombstones the key's old slot, if any, appends a slot for key and value, and answers 1; on failure the file is as KeySetLeft says: untouched when goToKey fails, otherwise the tombstone stays and the rest is as KeyAppendLeft says (FailedSetDropped) |
| Store.YashoDB.Set | YashoDB/src/main/java/com/yashoid/yashodb/YashoDB.java:622-653 | set on an object sets the key; on a collection it sets the key in every visited object member, in turn, and answers how many members it visited or the walk's fault; a failed set leaves the file as KeySetLeft says on an object and as MembersSetLeft says on a collection (the members before the failing one already set) |
| Store.YashoDB.SetEach | YashoDB/src/main/java/com/yashoid/yashodb/YashoDB.java:632-650 | set's processor over the visited members leaves exactly SetMembers' file, or on failure MembersSetLeft's: the earlier members set and the failing member as MemberSetLeft says |
| Store.YashoDB.SetOne | YashoDB/src/main/java/com/yashoid/yashodb/YashoDB.java:634-648 | set's processor at one member: an object payload gets the key set, any other payload is left alone; on failure the file is as MemberSetLeft says (KeySetLeft on an object payload, untouched otherwise) |
| Store.YashoDB.AsYashON | YashoDB/src/main/java/com/yashoid/yashodb/YashoDB.java:691-703 | asYashON refuses a non-object, else reads the object's live key/value slots back into a YashON, without changing the file |
| Store.YashoDB.AsYashAN | YashoDB/src/main/java/com/yashoid/yashodb/YashoDB.java:705-729 | asYashAN answers a new array holding the value of every visited member, in visiting order, or the first error |
| Store.YashoDB.WriteToFile | YashoDB/src/main/java/com/yashoid/yashodb/YashoDB.java:119-156 | writeToFile refuses a non-collection, else writes the compacted collection over the existing file from its start (not truncated) without changing the source |

## Left out

- JsonParser.ParseNumber: only integral numbers are kept. readNumber turns "1.5" or ".5" into a Double, but the model answers Err(Json) for them.
- JsonParser.ReadNumber: the same integral-only rule applies. Doubles are not rounded to 53 bits either, so "9007199254740993" stays exact where Java yields 9007199254740992. "100000000000000000000" becomes Num(10^20), where Java keeps a Double because longValue saturates at Long.MAX_VALUE.
- Selections.Selection.Append: a child's filter is copied into its target as a value, where DBSelection appends the filter object itself. A filter changed later through a retained handle is therefore not seen. One example: R.and() gives C, C.and() gives G, C.with() gives S, then G.isNull("x") and G.with(). In Java, R's filter then holds the null test. In the model, it holds an empty conjunction. Aliasing between filter objects is not captured.
- Selections.Selection.HandUp: hands the filter up by value, with the same consequence as Append.
- Selections.Selection.Pass: hands the filter up by value, with the same consequence as Append.
- Selections.Appended: combines filters as values, so it does not capture update in place or aliasing.
- Filters.OnNewMember: filters are datatype values, and each callback is a function returning the next filter. Update in place of the filter objects is not captured, and neither is aliasing between them.
- Filters.Consider: a value transition, like OnNewMember. Update in place and aliasing are not captured.
- Filters.ConsiderValue: a value transition, like OnNewMember. Update in place and aliasing are not captured.
- Filters.OnMemberReviewed: a value transition, like OnNewMember. Update in place and aliasing are not captured. The observer callback becomes the list of accepted positions that Filters.Run returns.
- Walker.GoToKey: a skip or tail link that does not lead past its own 9-byte header ends the walk with BackwardLink. The source would seek backward and could loop forever. Chains.Walk, Walker.SeekToEnd, Walker.SeekToRawPosition and Walker.ChainMembers do the same. Files the engine writes only link forward.
- Compaction.CopyObjectTo: a slot with a negative length, or a `T` link that does not lead past its own header, ends the copy with BackwardLink. writeObjectToFile (YashoDB.java:275-285) would seek backward there. Compaction.ObjectRest and Compaction.ObjectLoop do the same.
- Compaction.CopyCollectionTo: a slot with a negative length ends the copy with BackwardLink, where writeCollectionToFile (YashoDB.java:207-211) would seek backward. Compaction.CollectionRest and Compaction.CollectionLoop do the same.
- Encoding.WriteEntries: fields are written in the order of the object's entry sequence. The source follows HashMap iteration order, which it leaves unspecified. Documents.YashON.Put fixes that order: it replaces an existing key where it stands and appends a new one.
- Filters.ProbeNumber: the comparison filters compare exact rationals from Text.ParseDecimal, not IEEE doubles from Double.parseDouble. Rounding, infinities and NaN are not captured.
- Values.GetInt: truncates the exact decimal value, not a double, so values whose double rounding changes the integer part differ. Text.ParseDecimal reads decimal text only. Double.parseDouble also accepts "NaN", "Infinity" and hexadecimal floats such as "0x1p4". For those, getInt gives 0, Integer.MAX_VALUE or the hexadecimal value, while the model answers Err(ValueType).
- Values.GetLong: the same as GetInt, for longs. "Infinity" gives Long.MAX_VALUE in Java.
- Text.ParseLong: accepts ASCII digits only. Long.parseLong also accepts the decimal digits of other Unicode scripts, such as Arabic-Indic digits.
- Filters.NewCount: parses its target through Text.ParseLong, so it refuses the non-ASCII digits Long.parseLong accepts.
- Values.Validate: a Number is held as an integer (Num). put also accepts Double, Float and BigDecimal values, which writeValue stores through toString, for example "2.5", or "2.0" for an integral Double. The model cannot hold those.
- Documents.YashON.Put: a nested YashON or YashAN is stored by value. Java stores the reference, so a child changed after put also changes the parent. Aliasing between documents is not captured, and neither are non-integral Numbers.
- Documents.YashAN.Put: stores by value, as YashON.Put does, with the same consequences.
- Store.YashoDB.Set: on a collection, the members are first collected by walking the old file, and each object member then gets the key set in turn. Java writes into each member while iterate is still walking. It is not proved that these nested writes leave the rest of the collection's walk unchanged, so the model assumes that order of events.
- Store.YashoDB.AppendMembers: after a failed write, the bytes past the old end are not described. They hold a partial segment with no terminator, so later walks of the collection fail. The contract states only the bytes of the old file. Store.AppendKeyValue, Store.YashoDB.Insert, Store.YashoDB.InsertAll, Store.YashoDB.SetObjectKeyValue, Store.YashoDB.Set, Store.YashoDB.SetEach and Store.YashoDB.SetOne leave the same bytes undescribed.
- Store.YashoDB.SetEach: visits the members collected by Set beforehand, under the same assumption.
- Selections.Selection.Commit: requires that the positions are longs and that the query count fits. These bounds hold for any file under 2^63 bytes.
- Compaction.CollectionRest: the HAS_TAIL branch of writeCollectionToFile (YashoDB.java:214-218) steps over the `T` byte without following the link. It is modelled as written. The next round then reads the link's 8 offset bytes as tags, so a nested collection's continuation segment is not copied. The copy fails with Runtime unless those bytes happen to be tags. The length lemmas (CopyValueExact, CompactedLayout) hold either way. What they do not promise is that the copy holds the collection's members.
- Queries.QueryResult.constructor: the spill threshold, Integer.MAX_VALUE in the source, is a constructor parameter.
- Text.WriteUtf: modified UTF-8 is modelled through its length rule and byte layout. The library's own encoder internals are not part of this model.
- Other omissions:
  - Floating-point getters (getNumber, getFloat, getDouble) are left out.
  - The AndFilter and OrFilter stubs are kept as written, with no conjunction or disjunction semantics added.
  - The commented-out change notifications are left out.
  - File creation, the "rws" mode, close and the UUID names of query files are left out; files are byte sequences, and every IOException becomes a Results.Error value.
  - Test.java and the Android sample activity are not part of this model.
