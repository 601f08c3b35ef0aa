/** The translation of Redis values to JSON. Text is carried as its UTF-8 bytes. */
module RedisJson {
  import opened Prelude
  import opened Text
  import Base64

  type Str = seq<Byte>

  /** A double, kept as its printed form. */
  datatype Float = Finite(text: Str) | NonFinite(text: Str)

  datatype Value =
    | Nil
    | Int(i: int)
    | BulkString(bytes: seq<Byte>)
    | Array(items: seq<Value>)
    | SimpleString(text: Str)
    | Okay
    | Map(entries: seq<Entry>)
    | Set(items: seq<Value>)
    | Double(float: Float)
    | Boolean(b: bool)
    | BigNumber(n: int)
    | Attribute(data: Value, attributes: seq<Entry>)
    | VerbatimString(format: Str, text: Str)
    | Push(kind: Str, items: seq<Value>)
    | ServerError(error: Str)
    | Unsupported

  datatype Entry = Entry(key: Value, value: Value)

  datatype Json =
    | JNull
    | JBool(b: bool)
    | JInt(i: int)
    | JFloat(text: Str)
    | JString(text: Str)
    | JArray(items: seq<Json>)
    | JObject(members: seq<Member>)

  datatype Member = Member(name: Str, value: Json)

  function Label(s: string): Json {
    JString(Ascii(s))
  }

  /** `serialize_bytes`. */
  function BytesJson(bytes: seq<Byte>, base64: bool): Json {
    if base64 then JString(Base64.Encode(bytes))
    else if ValidUtf8(bytes) then JString(bytes)
    else JObject([Member(Ascii("type"), Label("binary")), Member(Ascii("encoding"), Label("base64")),
                  Member(Ascii("value"), JString(Base64.Encode(bytes)))])
  }

  /** `serialize_string`. */
  function StringText(text: Str, base64: bool): Str {
    if base64 && text != Ascii("OK") then Base64.Encode(text) else text
  }

  /** `object_key`. */
  function ObjectKey(key: Value, base64: bool): Option<Str> {
    match key
    case Nil => Some(Ascii("null"))
    case Int(i) => Some(Decimal(i))
    case Boolean(b) => Some(if b then Ascii("true") else Ascii("false"))
    case SimpleString(text) => Some(StringText(text, base64))
    case BulkString(bytes) =>
      if base64 then Some(Base64.Encode(bytes)) else if ValidUtf8(bytes) then Some(bytes) else None
    case BigNumber(n) => Some(Decimal(n))
    case Double(Finite(text)) => Some(text)
    case _ => None
  }

  /** Every key renders, and no two keys render alike. */
  ghost predicate KeysDistinct(entries: seq<Entry>, base64: bool) {
    && (forall i :: 0 <= i < |entries| ==> ObjectKey(entries[i].key, base64).Some?)
    && (forall i, j :: 0 <= i < j < |entries| ==>
          ObjectKey(entries[i].key, base64) != ObjectKey(entries[j].key, base64))
  }

  /** The rendered keys, in order, up to the first that does not render or repeats an earlier one. */
  function ObjectKeysFrom(entries: seq<Entry>, base64: bool, keys: seq<Str>): Option<seq<Str>>
    requires |keys| <= |entries|
    decreases |entries| - |keys|
  {
    if |keys| == |entries| then Some(keys)
    else
      match ObjectKey(entries[|keys|].key, base64)
      case None => None
      case Some(key) => if key in keys then None else ObjectKeysFrom(entries, base64, keys + [key])
  }

  /** `object_keys`: the loop over a set of the keys seen. It succeeds exactly when every key renders and the
      rendered keys are pairwise distinct. */
  method ObjectKeys(entries: seq<Entry>, base64: bool) returns (keys: Option<seq<Str>>)
    ensures keys.Some? <==> KeysDistinct(entries, base64)
    ensures keys.Some? ==> |keys.value| == |entries|
    ensures keys.Some? ==> forall i :: 0 <= i < |entries| ==> ObjectKey(entries[i].key, base64) == Some(keys.value[i])
    ensures keys == ObjectKeysFrom(entries, base64, [])
  {
    var seen: set<Str> := {};
    var rendered: seq<Str> := [];
    for n := 0 to |entries|
      invariant |rendered| == n
      invariant seen == set key | key in rendered
      invariant forall i :: 0 <= i < n ==> ObjectKey(entries[i].key, base64) == Some(rendered[i])
      invariant forall i, j :: 0 <= i < j < n ==> rendered[i] != rendered[j]
      invariant ObjectKeysFrom(entries, base64, rendered) == ObjectKeysFrom(entries, base64, [])
    {
      var key := ObjectKey(entries[n].key, base64);
      if key.None? {
        return None;
      }
      if key.value in seen {
        var i :| 0 <= i < n && rendered[i] == key.value;
        assert ObjectKey(entries[i].key, base64) == ObjectKey(entries[n].key, base64);
        return None;
      }
      seen := seen + {key.value};
      rendered := rendered + [key.value];
    }
    return Some(rendered);
  }

  lemma {:induction false} ObjectKeysFromIs(entries: seq<Entry>, base64: bool, keys: seq<Str>)
    requires |keys| <= |entries|
    requires forall i :: 0 <= i < |keys| ==> ObjectKey(entries[i].key, base64) == Some(keys[i])
    requires forall i, j :: 0 <= i < j < |keys| ==> keys[i] != keys[j]
    ensures ObjectKeysFrom(entries, base64, keys).Some? <==> KeysDistinct(entries, base64)
    ensures ObjectKeysFrom(entries, base64, keys).Some? ==>
              var all := ObjectKeysFrom(entries, base64, keys).value;
              |all| == |entries| && forall i :: 0 <= i < |entries| ==> ObjectKey(entries[i].key, base64) == Some(all[i])
    decreases |entries| - |keys|
  {
    if |keys| < |entries| && ObjectKey(entries[|keys|].key, base64).Some? {
      var key := ObjectKey(entries[|keys|].key, base64).value;
      if key in keys {
        var i :| 0 <= i < |keys| && keys[i] == key;
        assert ObjectKey(entries[i].key, base64) == ObjectKey(entries[|keys|].key, base64);
      } else {
        ObjectKeysFromIs(entries, base64, keys + [key]);
      }
    }
  }

  /** `serialize_redis`. */
  function ToJson(v: Value, base64: bool): Json
    decreases v, 1
  {
    match v
    case Nil => JNull
    case Int(i) => JInt(i)
    case BulkString(bytes) => BytesJson(bytes, base64)
    case Array(items) => JArray(seq(|items|, i requires 0 <= i < |items| => ToJson(items[i], base64)))
    case SimpleString(text) => JString(StringText(text, base64))
    case Okay => Label("OK")
    case Map(entries) => MapJson(v, entries, base64)
    case Set(items) => JArray(seq(|items|, i requires 0 <= i < |items| => ToJson(items[i], base64)))
    case Double(Finite(text)) => JFloat(text)
    case Double(NonFinite(text)) =>
      JObject([Member(Ascii("type"), Label("double")), Member(Ascii("value"), JString(text))])
    case Boolean(b) => JBool(b)
    case BigNumber(n) => JString(Decimal(n))
    case Attribute(data, attributes) =>
      JObject([Member(Ascii("type"), Label("attribute")), Member(Ascii("data"), ToJson(data, base64)),
               Member(Ascii("attributes"), MapJson(v, attributes, base64))])
    case VerbatimString(format, text) =>
      JObject([Member(Ascii("type"), Label("verbatim_string")), Member(Ascii("format"), JString(format)),
               Member(Ascii("value"), JString(text))])
    case Push(kind, items) =>
      JObject([Member(Ascii("type"), Label("push")), Member(Ascii("kind"), JString(kind)),
               Member(Ascii("data"),
                      JArray(seq(|items|, i requires 0 <= i < |items| => ToJson(items[i], base64))))])
    case ServerError(error) =>
      JObject([Member(Ascii("type"), Label("server_error")), Member(Ascii("error"), JString(error))])
    case Unsupported => JObject([Member(Ascii("type"), Label("unsupported_redis_value"))])
  }

  /** `serialize_map`, for the entries of `owner`. */
  function MapJson(owner: Value, entries: seq<Entry>, base64: bool): Json
    requires forall i :: 0 <= i < |entries| ==> entries[i].key < owner && entries[i].value < owner
    decreases owner, 0
  {
    match ObjectKeysFrom(entries, base64, [])
    case Some(keys) =>
      ObjectKeysFromIs(entries, base64, []);
      JObject(seq(|entries|, i requires 0 <= i < |entries| => Member(keys[i], ToJson(entries[i].value, base64))))
    case None =>
      JObject([Member(Ascii("type"), Label("map")),
               Member(Ascii("value"),
                      JArray(seq(|entries|, i requires 0 <= i < |entries| =>
                                   JArray([ToJson(entries[i].key, base64), ToJson(entries[i].value, base64)]))))])
  }

  /** Maps lose nothing: a map becomes an object, one member per entry in order, exactly when all keys render and
      the rendered keys are distinct; otherwise a tagged list of pairs, one per entry in order. */
  lemma MapsLoseNothing(entries: seq<Entry>, base64: bool)
    ensures var json := ToJson(Map(entries), base64);
            if KeysDistinct(entries, base64) then
              && json.JObject? && |json.members| == |entries|
              && forall i :: 0 <= i < |entries| ==>
                   && Some(json.members[i].name) == ObjectKey(entries[i].key, base64)
                   && json.members[i].value == ToJson(entries[i].value, base64)
            else
              && json.JObject? && |json.members| == 2
              && json.members[0] == Member(Ascii("type"), Label("map"))
              && json.members[1].name == Ascii("value")
              && json.members[1].value.JArray? && |json.members[1].value.items| == |entries|
              && forall i :: 0 <= i < |entries| ==>
                   json.members[1].value.items[i] ==
                   JArray([ToJson(entries[i].key, base64), ToJson(entries[i].value, base64)])
  {
    ObjectKeysFromIs(entries, base64, []);
  }

  /** The names of one object differ pairwise. */
  ghost predicate DistinctNames(members: seq<Member>) {
    forall i, j :: 0 <= i < j < |members| ==> members[i].name != members[j].name
  }

  /** Every object, at any depth, has unique member names (section 4 of RFC 8259). */
  ghost predicate UniqueNames(json: Json) {
    match json
    case JArray(items) => forall i :: 0 <= i < |items| ==> UniqueNames(items[i])
    case JObject(members) =>
      DistinctNames(members) && forall i :: 0 <= i < |members| ==> UniqueNames(members[i].value)
    case _ => true
  }

  lemma TagsDiffer()
    ensures Ascii("type") != Ascii("data") && Ascii("type") != Ascii("attributes")
    ensures Ascii("data") != Ascii("attributes")
    ensures Ascii("type") != Ascii("value") && Ascii("type") != Ascii("encoding") && Ascii("encoding") != Ascii("value")
    ensures Ascii("type") != Ascii("format") && Ascii("format") != Ascii("value")
    ensures Ascii("type") != Ascii("kind") && Ascii("kind") != Ascii("data") && Ascii("type") != Ascii("error")
  {
    assert Ascii("type")[0] != Ascii("data")[0];
    assert Ascii("type")[0] != Ascii("kind")[0];
    assert Ascii("kind")[0] != Ascii("data")[0];
  }

  /** Values that render without looking inside others. */
  predicate IsLeaf(v: Value) {
    !v.Array? && !v.Set? && !v.Push? && !v.Map? && !v.Attribute?
  }

  lemma LeafHasUniqueNames(v: Value, base64: bool)
    requires IsLeaf(v)
    ensures UniqueNames(ToJson(v, base64))
  {
    hide Ascii;
    TagsDiffer();
  }

  lemma PushHasUniqueNames(v: Value, base64: bool)
    requires v.Push? && forall i :: 0 <= i < |v.items| ==> UniqueNames(ToJson(v.items[i], base64))
    ensures UniqueNames(ToJson(v, base64))
  {
    hide Ascii;
    TagsDiffer();
    var data := ToJson(v, base64).members[2].value;
    assert UniqueNames(data);
  }

  lemma AttributeHasUniqueNames(v: Value, base64: bool)
    requires v.Attribute? && UniqueNames(ToJson(v.data, base64)) && UniqueNames(MapJson(v, v.attributes, base64))
    ensures UniqueNames(ToJson(v, base64))
  {
    hide Ascii, MapJson;
    TagsDiffer();
  }

  /** Whatever the value and the mode, no emitted object repeats a member name. */
  lemma {:induction false} EveryObjectHasUniqueNames(v: Value, base64: bool)
    ensures UniqueNames(ToJson(v, base64))
    decreases v, 1
  {
    match v
    case Array(items) =>
      forall i | 0 <= i < |items| ensures UniqueNames(ToJson(items[i], base64)) {
        EveryObjectHasUniqueNames(items[i], base64);
      }
    case Set(items) =>
      forall i | 0 <= i < |items| ensures UniqueNames(ToJson(items[i], base64)) {
        EveryObjectHasUniqueNames(items[i], base64);
      }
    case Push(kind, items) =>
      forall i | 0 <= i < |items| ensures UniqueNames(ToJson(items[i], base64)) {
        EveryObjectHasUniqueNames(items[i], base64);
      }
      PushHasUniqueNames(v, base64);
    case Map(entries) => MapHasUniqueNames(v, entries, base64);
    case Attribute(data, attributes) =>
      EveryObjectHasUniqueNames(data, base64);
      MapHasUniqueNames(v, attributes, base64);
      AttributeHasUniqueNames(v, base64);
    case _ => LeafHasUniqueNames(v, base64);
  }

  lemma {:induction false} MapHasUniqueNames(owner: Value, entries: seq<Entry>, base64: bool)
    requires forall i :: 0 <= i < |entries| ==> entries[i].key < owner && entries[i].value < owner
    ensures UniqueNames(MapJson(owner, entries, base64))
    decreases owner, 0
  {
    forall i | 0 <= i < |entries|
      ensures UniqueNames(ToJson(entries[i].key, base64)) && UniqueNames(ToJson(entries[i].value, base64))
    {
      EveryObjectHasUniqueNames(entries[i].key, base64);
      EveryObjectHasUniqueNames(entries[i].value, base64);
    }
    ObjectKeysFromIs(entries, base64, []);
    if ObjectKeysFrom(entries, base64, []).None? {
      PairListHasUniqueNames(owner, entries, base64);
    }
  }

  lemma PairListHasUniqueNames(owner: Value, entries: seq<Entry>, base64: bool)
    requires forall i :: 0 <= i < |entries| ==> entries[i].key < owner && entries[i].value < owner
    requires forall i :: 0 <= i < |entries| ==>
               UniqueNames(ToJson(entries[i].key, base64)) && UniqueNames(ToJson(entries[i].value, base64))
    requires ObjectKeysFrom(entries, base64, []).None?
    ensures UniqueNames(MapJson(owner, entries, base64))
  {
    hide Ascii, ToJson, ObjectKey;
    TagsDiffer();
    var pairs := MapJson(owner, entries, base64).members[1].value;
    forall i | 0 <= i < |entries| ensures UniqueNames(pairs.items[i]) {
      assert pairs.items[i] == JArray([ToJson(entries[i].key, base64), ToJson(entries[i].value, base64)]);
    }
    assert UniqueNames(pairs);
  }
}
