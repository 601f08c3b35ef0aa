/** Reading plain-mode JSON, where texts appear as they are, back into Redis values. */
module PlainRoundTrip {
  import opened Prelude
  import opened Text
  import opened RedisJson
  import opened JsonRoundTrip

  /** Bytes that are not UTF-8, in the tagged object they are sent as. */
  predicate IsBinary(members: seq<Member>) {
    && |members| == 3
    && members[0] == Member(Ascii("type"), Label("binary"))
    && members[1] == Member(Ascii("encoding"), Label("base64"))
    && members[2].name == Ascii("value") && members[2].value.JString? && IsBinaryText(members[2].value.text)
  }

  predicate IsBinaryText(text: Str) {
    Base64.Decode(text).Some? && !ValidUtf8(Base64.Decode(text).value)
  }

  /** A client's reading of plain-mode JSON. */
  function ReadPlain(json: Json): Value {
    match json
    case JNull => Nil
    case JBool(b) => Boolean(b)
    case JInt(i) => Int(i)
    case JFloat(_) => Unsupported
    case JString(text) => BulkString(text)
    case JArray(items) => Array(seq(|items|, i requires 0 <= i < |items| => ReadPlain(items[i])))
    case JObject(members) =>
      if IsPairList(members) then
        var pairs := members[1].value.items;
        Map(seq(|pairs|, i requires 0 <= i < |pairs| =>
                  assert pairs[i] < members[1].value < json;
                  Entry(ReadPlain(pairs[i].items[0]), ReadPlain(pairs[i].items[1]))))
      else if IsBinary(members) then BulkString(Base64.Decode(members[2].value.text).value)
      else
        Map(seq(|members|, i requires 0 <= i < |members| =>
                  Entry(BulkString(members[i].name), ReadPlain(members[i].value))))
  }

  /** What plain JSON does not distinguish: texts of any kind, and sets from arrays. */
  function PlainCanonical(v: Value): Value {
    match v
    case SimpleString(text) => BulkString(text)
    case Okay => BulkString(Ascii("OK"))
    case Array(items) => Array(seq(|items|, i requires 0 <= i < |items| => PlainCanonical(items[i])))
    case Set(items) => Array(seq(|items|, i requires 0 <= i < |items| => PlainCanonical(items[i])))
    case Map(entries) =>
      Map(seq(|entries|, i requires 0 <= i < |entries| =>
                Entry(PlainCanonical(entries[i].key), PlainCanonical(entries[i].value))))
    case _ => v
  }

  /** The text a value is sent as, if it is sent as one. */
  function PlainText(v: Value): Option<Str> {
    match v
    case BulkString(bytes) => if ValidUtf8(bytes) then Some(bytes) else None
    case SimpleString(text) => Some(text)
    case Okay => Some(Ascii("OK"))
    case BigNumber(n) => Some(Decimal(n))
    case _ => None
  }

  predicate IsList(v: Value) {
    v.Array? || v.Set?
  }

  predicate IsPair(v: Value) {
    IsList(v) && |v.items| == 2
  }

  /** A map of two entries that spells the tagged pair list of another. */
  predicate LooksListed(entries: seq<Entry>) {
    && |entries| == 2
    && ObjectKey(entries[0].key, false) == Some(Ascii("type")) && PlainText(entries[0].value) == Some(Ascii("map"))
    && ObjectKey(entries[1].key, false) == Some(Ascii("value")) && IsList(entries[1].value)
    && forall i :: 0 <= i < |entries[1].value.items| ==> IsPair(entries[1].value.items[i])
  }

  /** A map of three entries that spells the tagged object of a binary string. */
  predicate LooksBinary(entries: seq<Entry>) {
    && |entries| == 3
    && ObjectKey(entries[0].key, false) == Some(Ascii("type")) && PlainText(entries[0].value) == Some(Ascii("binary"))
    && ObjectKey(entries[1].key, false) == Some(Ascii("encoding"))
    && PlainText(entries[1].value) == Some(Ascii("base64"))
    && ObjectKey(entries[2].key, false) == Some(Ascii("value"))
    && PlainText(entries[2].value).Some? && IsBinaryText(PlainText(entries[2].value).value)
  }

  /** Values whose plain JSON can be read back: those built from Nil, Int, Boolean, BulkString, SimpleString, Okay,
      Array, Set and maps, where a map that becomes an object has text keys only and spells neither tagged form. */
  ghost predicate PlainRecoverable(v: Value) {
    match v
    case Nil => true
    case Int(_) => true
    case Boolean(_) => true
    case BulkString(_) => true
    case SimpleString(_) => true
    case Okay => true
    case Array(items) => forall i :: 0 <= i < |items| ==> PlainRecoverable(items[i])
    case Set(items) => forall i :: 0 <= i < |items| ==> PlainRecoverable(items[i])
    case Map(entries) =>
      && (KeysDistinct(entries, false) ==> !LooksListed(entries) && !LooksBinary(entries))
      && forall i :: 0 <= i < |entries| ==>
           && PlainRecoverable(entries[i].value)
           && if KeysDistinct(entries, false) then IsText(entries[i].key) else PlainRecoverable(entries[i].key)
    case _ => false
  }

  /** The reading recovers the value. */
  ghost predicate ReadsBackPlain(v: Value) {
    ReadPlain(ToJson(v, false)) == PlainCanonical(v)
  }

  /** Whether a value is sent as a text, and which. */
  lemma TextJson(v: Value)
    ensures ToJson(v, false).JString? <==> PlainText(v).Some?
    ensures PlainText(v).Some? ==> ToJson(v, false) == JString(PlainText(v).value)
  {
  }

  /** Whether a value is sent as an array, and of what. */
  lemma ListJson(v: Value)
    ensures ToJson(v, false).JArray? <==> IsList(v)
    ensures IsList(v) ==>
              && |ToJson(v, false).items| == |v.items|
              && forall i :: 0 <= i < |v.items| ==> ToJson(v, false).items[i] == ToJson(v.items[i], false)
  {
  }

  lemma PairsJson(v: Value)
    requires IsList(v)
    ensures ToJson(v, false).JArray? && |ToJson(v, false).items| == |v.items|
    ensures forall i :: 0 <= i < |v.items| ==>
              (IsPair(v.items[i]) <==>
               ToJson(v, false).items[i].JArray? && |ToJson(v, false).items[i].items| == 2)
  {
    ListJson(v);
    hide ToJson;
    forall i | 0 <= i < |v.items|
      ensures IsPair(v.items[i]) <==> ToJson(v, false).items[i].JArray? && |ToJson(v, false).items[i].items| == 2
    {
      ListJson(v.items[i]);
    }
  }

  lemma LooksListedIff(entries: seq<Entry>)
    requires KeysDistinct(entries, false)
    ensures ToJson(Map(entries), false).JObject?
    ensures IsPairList(ToJson(Map(entries), false).members) <==> LooksListed(entries)
  {
    MapsLoseNothing(entries, false);
    hide ToJson, PlainText, ObjectKey, Ascii;
    if |entries| == 2 {
      TextJson(entries[0].value);
      ListJson(entries[1].value);
      if IsList(entries[1].value) {
        PairsJson(entries[1].value);
      }
    }
  }

  /** A map that spells a pair list is an object. */
  lemma LooksListedIsObject(entries: seq<Entry>)
    requires LooksListed(entries)
    ensures KeysDistinct(entries, false)
  {
    TagsDiffer();
    hide PlainText, ObjectKey, Ascii;
  }

  /** When the JSON of a map is a tagged pair list: when it has to be, and when its entries happen to spell one. */
  lemma PairListIff(entries: seq<Entry>)
    ensures ToJson(Map(entries), false).JObject?
    ensures IsPairList(ToJson(Map(entries), false).members) <==>
            !KeysDistinct(entries, false) || LooksListed(entries)
  {
    hide LooksListed;
    if KeysDistinct(entries, false) {
      hide ToJson, IsPairList;
      LooksListedIff(entries);
    } else {
      MapsLoseNothing(entries, false);
      hide ToJson, KeysDistinct;
    }
  }

  /** When a map in object form spells a binary string. */
  lemma BinaryIff(entries: seq<Entry>)
    requires KeysDistinct(entries, false)
    ensures ToJson(Map(entries), false).JObject?
    ensures IsBinary(ToJson(Map(entries), false).members) <==> LooksBinary(entries)
  {
    MapsLoseNothing(entries, false);
    if |entries| == 3 {
      TextJson(entries[0].value);
      TextJson(entries[1].value);
      TextJson(entries[2].value);
      hide ToJson, PlainText, ObjectKey, IsBinaryText, Ascii;
    }
  }

  lemma ListReadsBack(v: Value)
    requires IsList(v)
    ensures ReadsBackPlain(v) <==> forall i :: 0 <= i < |v.items| ==> ReadsBackPlain(v.items[i])
  {
    ListJson(v);
    var read, canonical := ReadPlain(ToJson(v, false)).items, PlainCanonical(v).items;
    assert forall i :: 0 <= i < |v.items| ==>
        read[i] == ReadPlain(ToJson(v.items[i], false)) && canonical[i] == PlainCanonical(v.items[i]);
    assert ReadsBackPlain(v) <==> read == canonical;
  }

  /** Only arrays are read as arrays, item by item. */
  lemma ReadArray(json: Json)
    ensures ReadPlain(json).Array? <==> json.JArray?
    ensures json.JArray? ==>
              && |ReadPlain(json).items| == |json.items|
              && forall i :: 0 <= i < |json.items| ==> ReadPlain(json).items[i] == ReadPlain(json.items[i])
  {
  }

  /** If a value is read as the canonical form of a pair, it is a pair itself, and its second item is read as the
      pair's. */
  lemma ReadAsPair(y: Value, v: Value)
    requires IsPair(v) && ReadPlain(ToJson(y, false)) == PlainCanonical(v)
    ensures IsPair(y) && ReadPlain(ToJson(y.items[1], false)) == PlainCanonical(v.items[1])
  {
    ListJson(y);
    ReadArray(ToJson(y, false));
    hide ToJson, ReadPlain;
    assert PlainCanonical(v).items[1] == PlainCanonical(v.items[1]);
  }

  /** No list is read off the second item of its own second item. */
  lemma {:induction false} NoListInItself(v: Value)
    requires IsPair(v) && IsPair(v.items[1])
    ensures ReadPlain(ToJson(v.items[1].items[1], false)) != PlainCanonical(v)
  {
    var y := v.items[1].items[1];
    if ReadPlain(ToJson(y, false)) == PlainCanonical(v) {
      ReadAsPair(y, v);
      ReadAsPair(y.items[1], v.items[1]);
      NoListInItself(y);
      assert false;
    }
  }

  /** A map mistaken for a pair list is never recovered. */
  lemma ListedIsLost(entries: seq<Entry>)
    requires KeysDistinct(entries, false) && LooksListed(entries)
    ensures !ReadsBackPlain(Map(entries))
  {
    PairListIff(entries);
    MapsLoseNothing(entries, false);
    var json, list := ToJson(Map(entries), false), entries[1].value;
    ListJson(list);
    if ReadsBackPlain(Map(entries)) {
      assert ReadPlain(json).entries[1] == PlainCanonical(Map(entries)).entries[1];
      assert |list.items| == 2 && IsPair(list.items[1]);
      ListJson(list.items[1]);
      NoListInItself(list);
      assert false;
    }
  }

  lemma NameReadsBackPlain(key: Value)
    requires ObjectKey(key, false).Some?
    ensures BulkString(ObjectKey(key, false).value) == PlainCanonical(key) <==> IsText(key)
  {
  }

  lemma ObjectReadsBackPlain(entries: seq<Entry>)
    requires KeysDistinct(entries, false) && !LooksListed(entries) && !LooksBinary(entries)
    ensures ReadsBackPlain(Map(entries)) <==>
            forall i :: 0 <= i < |entries| ==> IsText(entries[i].key) && ReadsBackPlain(entries[i].value)
  {
    PairListIff(entries);
    BinaryIff(entries);
    MapsLoseNothing(entries, false);
    hide ToJson, LooksListed, LooksBinary, IsPairList, IsBinary;
    var json := ToJson(Map(entries), false);
    var read, canonical := ReadPlain(json).entries, PlainCanonical(Map(entries)).entries;
    forall i | 0 <= i < |entries|
      ensures read[i] == canonical[i] <==> IsText(entries[i].key) && ReadsBackPlain(entries[i].value)
    {
      NameReadsBackPlain(entries[i].key);
      assert read[i].key == BulkString(ObjectKey(entries[i].key, false).value);
      assert read[i].value == ReadPlain(ToJson(entries[i].value, false));
    }
    assert ReadsBackPlain(Map(entries)) <==> read == canonical;
  }

  lemma PairsReadBackPlain(entries: seq<Entry>)
    requires !KeysDistinct(entries, false)
    ensures ReadsBackPlain(Map(entries)) <==>
            forall i :: 0 <= i < |entries| ==> ReadsBackPlain(entries[i].key) && ReadsBackPlain(entries[i].value)
  {
    MapsLoseNothing(entries, false);
    var json := ToJson(Map(entries), false);
    hide ToJson, KeysDistinct, ObjectKey;
    assert IsPairList(json.members);
    var read, canonical := ReadPlain(json).entries, PlainCanonical(Map(entries)).entries;
    assert forall i :: 0 <= i < |entries| ==>
        (read[i] == canonical[i] <==> ReadsBackPlain(entries[i].key) && ReadsBackPlain(entries[i].value));
    assert ReadsBackPlain(Map(entries)) <==> read == canonical;
  }

  lemma {:induction false} MapReadsBackPlain(entries: seq<Entry>)
    ensures ReadsBackPlain(Map(entries)) <==>
            && (KeysDistinct(entries, false) ==> !LooksListed(entries) && !LooksBinary(entries))
            && forall i :: 0 <= i < |entries| ==>
                 && ReadsBackPlain(entries[i].value)
                 && if KeysDistinct(entries, false) then IsText(entries[i].key) else ReadsBackPlain(entries[i].key)
  {
    if !KeysDistinct(entries, false) {
      PairsReadBackPlain(entries);
    } else if LooksListed(entries) {
      ListedIsLost(entries);
    } else if LooksBinary(entries) {
      PairListIff(entries);
      BinaryIff(entries);
    } else {
      ObjectReadsBackPlain(entries);
    }
  }

  lemma BinaryReadsBack(bytes: seq<Byte>)
    ensures ReadsBackPlain(BulkString(bytes))
  {
    Base64.DecodeEncode(bytes);
    hide Base64.Encode, Base64.Decode, ValidUtf8;
  }

  lemma LeafReadsBackPlain(v: Value)
    requires IsLeaf(v) || v.Push? || v.Attribute?
    ensures ReadsBackPlain(v) <==> PlainRecoverable(v)
  {
    hide Base64.Encode, Base64.Decode, ValidUtf8;
    if v.BulkString? {
      BinaryReadsBack(v.bytes);
    }
  }

  /** Plain-mode round trip, exactly: for every value, of whatever constructors and depth, the client's reading recovers
      it, up to what plain JSON does not distinguish, iff it is recoverable. */
  lemma {:induction false} PlainRoundTripIff(v: Value)
    ensures ReadsBackPlain(v) <==> PlainRecoverable(v)
  {
    hide ReadsBackPlain;
    if v.Map? {
      forall i | 0 <= i < |v.entries|
        ensures ReadsBackPlain(v.entries[i].key) <==> PlainRecoverable(v.entries[i].key)
        ensures ReadsBackPlain(v.entries[i].value) <==> PlainRecoverable(v.entries[i].value)
      {
        PlainRoundTripIff(v.entries[i].key);
        PlainRoundTripIff(v.entries[i].value);
      }
      MapReadsBackPlain(v.entries);
    } else if IsList(v) {
      forall i | 0 <= i < |v.items| ensures ReadsBackPlain(v.items[i]) <==> PlainRecoverable(v.items[i]) {
        PlainRoundTripIff(v.items[i]);
      }
      ListReadsBack(v);
    } else {
      LeafReadsBackPlain(v);
    }
  }

  /** The map whose two entries spell the pair list of another. */
  function Twin(entries: seq<Entry>): seq<Entry> {
    [Entry(BulkString(Ascii("type")), BulkString(Ascii("map"))),
     Entry(BulkString(Ascii("value")),
           Array(seq(|entries|, i requires 0 <= i < |entries| => Array([entries[i].key, entries[i].value]))))]
  }

  lemma AsciiSent(s: string)
    ensures PlainText(BulkString(Ascii(s))) == ObjectKey(BulkString(Ascii(s)), false) == Some(Ascii(s))
  {
    AsciiIsValid(Ascii(s));
  }

  lemma TwinLooksListed(entries: seq<Entry>)
    ensures LooksListed(Twin(entries))
  {
    AsciiSent("type");
    AsciiSent("value");
    AsciiSent("map");
    hide Ascii, PlainText, ObjectKey;
  }

  lemma TwinListJson(entries: seq<Entry>)
    ensures ToJson(Twin(entries)[1].value, false) ==
            JArray(seq(|entries|, i requires 0 <= i < |entries| =>
                         JArray([ToJson(entries[i].key, false), ToJson(entries[i].value, false)])))
  {
    var list := Twin(entries)[1].value;
    ListJson(list);
    hide ToJson, Ascii;
    forall i | 0 <= i < |entries|
      ensures ToJson(list.items[i], false) ==
              JArray([ToJson(entries[i].key, false), ToJson(entries[i].value, false)])
    {
      ListJson(list.items[i]);
      assert ToJson(list.items[i], false).items == [ToJson(entries[i].key, false), ToJson(entries[i].value, false)];
    }
    assert ToJson(list, false).items ==
           seq(|entries|, i requires 0 <= i < |entries| =>
                 JArray([ToJson(entries[i].key, false), ToJson(entries[i].value, false)]));
  }

  /** The JSON of a map in object form whose entries spell a pair list. */
  lemma ListedJson(entries: seq<Entry>)
    requires LooksListed(entries)
    ensures ToJson(Map(entries), false) ==
            JObject([Member(Ascii("type"), Label("map")), Member(Ascii("value"), ToJson(entries[1].value, false))])
  {
    LooksListedIsObject(entries);
    MapsLoseNothing(entries, false);
    TextJson(entries[0].value);
    hide ToJson, KeysDistinct, PlainText, ObjectKey, Ascii;
    var members := ToJson(Map(entries), false).members;
    assert members == [members[0], members[1]];
  }

  /** Outside base64 mode every map sent as a pair list shares its JSON with a map sent as an object. */
  lemma PairListsCollide(entries: seq<Entry>)
    requires !KeysDistinct(entries, false)
    ensures ToJson(Map(entries), false) == ToJson(Map(Twin(entries)), false)
    ensures KeysDistinct(Twin(entries), false) && !PlainRecoverable(Map(Twin(entries)))
  {
    var twin := Twin(entries);
    assert KeysDistinct(twin, false) && !PlainRecoverable(Map(twin)) by {
      TwinLooksListed(entries);
      LooksListedIsObject(twin);
      hide LooksListed, KeysDistinct;
    }
    SameAsTwin(entries);
  }

  lemma SameAsTwin(entries: seq<Entry>)
    requires !KeysDistinct(entries, false)
    ensures ToJson(Map(entries), false) == ToJson(Map(Twin(entries)), false)
  {
    hide ToJson, LooksListed, Ascii, PlainRecoverable, KeysDistinct, ObjectKey;
    TwinLooksListed(entries);
    MapsLoseNothing(entries, false);
    ListedJson(Twin(entries));
    TwinListJson(entries);
    var members := ToJson(Map(entries), false).members;
    assert members[1].value.items == ToJson(Twin(entries)[1].value, false).items;
    assert members == [members[0], members[1]];
  }

  /** A simple string and the bulk string of its bytes are sent alike, as values and as names. */
  lemma StringsAlike(s: string)
    ensures ToJson(SimpleString(Utf8(s)), false) == ToJson(BulkString(Utf8(s)), false) == JString(Utf8(s))
    ensures ObjectKey(SimpleString(Utf8(s)), false) == ObjectKey(BulkString(Utf8(s)), false) == Some(Utf8(s))
  {
    Utf8IsValid(s);
  }
}
