/** Reading base64-mode JSON back into Redis values. */
module JsonRoundTrip {
  import opened Prelude
  import opened Text
  import opened RedisJson

  /** A client's reading of a string: "OK" is the status, anything else is base64. */
  function ReadText(text: Str): Value {
    if text == Ascii("OK") then Okay
    else
      match Base64.Decode(text)
      case Some(bytes) => BulkString(bytes)
      case None => Unsupported
  }

  /** The tagged pair list a map falls back to. */
  predicate IsPairList(members: seq<Member>) {
    && |members| == 2
    && members[0] == Member(Ascii("type"), Label("map"))
    && members[1].name == Ascii("value")
    && members[1].value.JArray?
    && forall i :: 0 <= i < |members[1].value.items| ==>
         members[1].value.items[i].JArray? && |members[1].value.items[i].items| == 2
  }

  /** A client's reading of a JSON value. */
  function Read(json: Json): Value {
    match json
    case JNull => Nil
    case JBool(b) => Boolean(b)
    case JInt(i) => Int(i)
    case JFloat(_) => Unsupported
    case JString(text) => ReadText(text)
    case JArray(items) => Array(seq(|items|, i requires 0 <= i < |items| => Read(items[i])))
    case JObject(members) =>
      if IsPairList(members) then
        var pairs := members[1].value.items;
        Map(seq(|pairs|, i requires 0 <= i < |pairs| =>
                  assert pairs[i] < members[1].value < json;
                  Entry(Read(pairs[i].items[0]), Read(pairs[i].items[1]))))
      else
        Map(seq(|members|, i requires 0 <= i < |members| =>
                  Entry(ReadText(members[i].name), Read(members[i].value))))
  }

  /** A key whose name in an object can be told from the names of other keys. */
  predicate IsText(key: Value) {
    key.BulkString? || key.SimpleString?
  }

  /** Values whose base64-mode JSON can be read back: those built from Nil, Int, Boolean, BulkString, SimpleString,
      Okay, Array, Set and maps, where a map that becomes an object has text keys only. */
  ghost predicate Recoverable(v: Value) {
    match v
    case Nil => true
    case Int(_) => true
    case Boolean(_) => true
    case BulkString(_) => true
    case SimpleString(_) => true
    case Okay => true
    case Array(items) => forall i :: 0 <= i < |items| ==> Recoverable(items[i])
    case Set(items) => forall i :: 0 <= i < |items| ==> Recoverable(items[i])
    case Map(entries) =>
      forall i :: 0 <= i < |entries| ==>
        && Recoverable(entries[i].value)
        && if KeysDistinct(entries, true) then IsText(entries[i].key) else Recoverable(entries[i].key)
    case _ => false
  }

  /** What JSON does not distinguish: simple from bulk strings, the simple string "OK" from the status, sets from
      arrays. */
  function Canonical(v: Value): Value {
    match v
    case SimpleString(text) => if text == Ascii("OK") then Okay else BulkString(text)
    case Array(items) => Array(seq(|items|, i requires 0 <= i < |items| => Canonical(items[i])))
    case Set(items) => Array(seq(|items|, i requires 0 <= i < |items| => Canonical(items[i])))
    case Map(entries) =>
      Map(seq(|entries|, i requires 0 <= i < |entries| =>
                Entry(Canonical(entries[i].key), Canonical(entries[i].value))))
    case _ => v
  }

  /** Base64 never spells the status. */
  lemma EncodedIsNotOk(bytes: seq<Byte>)
    ensures Base64.Encode(bytes) != Ascii("OK")
  {
  }

  lemma ReadEncoded(bytes: seq<Byte>)
    ensures ReadText(Base64.Encode(bytes)) == BulkString(bytes)
  {
    EncodedIsNotOk(bytes);
    Base64.DecodeEncode(bytes);
  }

  /** Base64 mode never renders a value as the tag of a pair list. */
  lemma NotTheMapTag(v: Value)
    ensures ToJson(v, true) != Label("map")
  {
    if v.BigNumber? {
      assert Decimal(v.n)[0] != Ascii("map")[0];
    }
  }

  /** The reading recovers the value. */
  ghost predicate ReadsBack(v: Value) {
    Read(ToJson(v, true)) == Canonical(v)
  }

  lemma ArrayReadsBack(v: Value)
    requires v.Array? || v.Set?
    ensures ReadsBack(v) <==> forall i :: 0 <= i < |v.items| ==> ReadsBack(v.items[i])
  {
    var read, canonical := Read(ToJson(v, true)).items, Canonical(v).items;
    assert forall i :: 0 <= i < |v.items| ==>
        read[i] == Read(ToJson(v.items[i], true)) && canonical[i] == Canonical(v.items[i]);
    assert ReadsBack(v) <==> read == canonical;
  }

  /** A name is read back to its key exactly when the key is a text. */
  lemma NameReadsBack(key: Value)
    requires ObjectKey(key, true).Some?
    ensures ReadText(ObjectKey(key, true).value) == Canonical(key) <==> IsText(key)
  {
    hide Base64.Encode, Base64.Decode;
    match key
    case BulkString(bytes) => ReadEncoded(bytes);
    case SimpleString(text) => ReadEncoded(text);
    case _ =>
  }

  lemma ObjectReadsBack(entries: seq<Entry>)
    requires KeysDistinct(entries, true)
    ensures ReadsBack(Map(entries)) <==>
            forall i :: 0 <= i < |entries| ==> IsText(entries[i].key) && ReadsBack(entries[i].value)
  {
    hide Base64.Encode, ReadText, ObjectKey;
    MapsLoseNothing(entries, true);
    var json := ToJson(Map(entries), true);
    if |entries| > 0 {
      NotTheMapTag(entries[0].value);
    }
    assert !IsPairList(json.members);
    hide ToJson;
    var read, canonical := Read(json).entries, Canonical(Map(entries)).entries;
    forall i | 0 <= i < |entries|
      ensures read[i] == canonical[i] <==> IsText(entries[i].key) && ReadsBack(entries[i].value)
    {
      NameReadsBack(entries[i].key);
    }
    assert ReadsBack(Map(entries)) <==> read == canonical;
  }

  lemma PairsReadBack(entries: seq<Entry>)
    requires !KeysDistinct(entries, true)
    ensures ReadsBack(Map(entries)) <==>
            forall i :: 0 <= i < |entries| ==> ReadsBack(entries[i].key) && ReadsBack(entries[i].value)
  {
    hide Base64.Encode, ReadText, ObjectKey;
    MapsLoseNothing(entries, true);
    var json := ToJson(Map(entries), true);
    hide ToJson, KeysDistinct;
    assert IsPairList(json.members);
    var read, canonical := Read(json).entries, Canonical(Map(entries)).entries;
    assert forall i :: 0 <= i < |entries| ==>
        (read[i] == canonical[i] <==> ReadsBack(entries[i].key) && ReadsBack(entries[i].value));
    assert ReadsBack(Map(entries)) <==> read == canonical;
  }

  lemma TextReadsBack(v: Value)
    requires IsText(v)
    ensures ReadsBack(v)
  {
    match v
    case BulkString(bytes) => ReadEncoded(bytes);
    case SimpleString(text) => ReadEncoded(text);
  }

  lemma LeafReadsBack(v: Value)
    requires IsLeaf(v) || v.Push? || v.Attribute?
    ensures ReadsBack(v) <==> Recoverable(v)
  {
    if IsText(v) {
      TextReadsBack(v);
    } else {
      hide Base64.Encode, Base64.Decode;
    }
  }

  /** Base64-mode round trip, exactly: for every value, of whatever constructors and depth, the client's reading
      recovers it, up to what JSON does not distinguish, iff it is recoverable. */
  lemma {:induction false} RoundTripIff(v: Value)
    ensures ReadsBack(v) <==> Recoverable(v)
  {
    hide ReadsBack;
    if v.Map? {
      var entries := v.entries;
      forall i | 0 <= i < |entries|
        ensures ReadsBack(entries[i].key) <==> Recoverable(entries[i].key)
        ensures ReadsBack(entries[i].value) <==> Recoverable(entries[i].value)
      {
        RoundTripIff(entries[i].key);
        RoundTripIff(entries[i].value);
      }
      if KeysDistinct(entries, true) {
        ObjectReadsBack(entries);
      } else {
        PairsReadBack(entries);
      }
    } else if v.Array? || v.Set? {
      forall i | 0 <= i < |v.items| ensures ReadsBack(v.items[i]) <==> Recoverable(v.items[i]) {
        RoundTripIff(v.items[i]);
      }
      ArrayReadsBack(v);
    } else {
      LeafReadsBack(v);
    }
  }

  /** So a recoverable value shares its JSON with the same reply only, up to what JSON does not distinguish, or with a
      value that is not recoverable. */
  lemma SameJsonSameReply(v: Value, w: Value)
    requires Recoverable(v) && ToJson(v, true) == ToJson(w, true)
    ensures Canonical(v) == Canonical(w) <==> Recoverable(w)
  {
    RoundTripIff(v);
    RoundTripIff(w);
  }

  /** The condition on object keys shows: the key Nil and the three-byte key that base64 spells "null" give the same
      object. */
  lemma ScalarKeysCollide()
    ensures var bytes := [0x9E, 0xE9, 0x65];
            && ToJson(Map([Entry(Nil, Okay)]), true) == ToJson(Map([Entry(BulkString(bytes), Okay)]), true)
            && Recoverable(Map([Entry(BulkString(bytes), Okay)])) && !Recoverable(Map([Entry(Nil, Okay)]))
  {
    var bytes := [0x9E, 0xE9, 0x65];
    var nil, bulk := [Entry(Nil, Okay)], [Entry(BulkString(bytes), Okay)];
    NullSpelled();
    hide Base64.Encode, Ascii;
    assert KeysDistinct(nil, true) && KeysDistinct(bulk, true);
    MapsLoseNothing(nil, true);
    MapsLoseNothing(bulk, true);
    hide ToJson;
    assert ToJson(Map(nil), true).members == ToJson(Map(bulk), true).members;
  }

  lemma NullSpelled()
    ensures Base64.Encode([0x9E, 0xE9, 0x65]) == Ascii("null")
  {
    assert [0x9E, 0xE9, 0x65][3..] == [];
  }
}
