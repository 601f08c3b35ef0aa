/** What the JSON of the less common values carries, and how keys relate to it. */
module TaggedJson {
  import opened Prelude
  import opened Text
  import opened RedisJson

  /** The text of a scalar: literals as section 3 of RFC 8259 names them, numbers in decimal, strings as they are. */
  function ScalarText(json: Json): Option<Str> {
    match json
    case JNull => Some(Ascii("null"))
    case JBool(b) => Some(if b then Ascii("true") else Ascii("false"))
    case JInt(i) => Some(Decimal(i))
    case JFloat(text) => Some(text)
    case JString(text) => Some(text)
    case _ => None
  }

  /** A key renders as the text of its own JSON when that is a scalar, and not at all otherwise; only the status OK,
      sent as a string, is no key. */
  lemma KeyIsScalarText(key: Value, base64: bool)
    ensures ObjectKey(key, base64) == if key.Okay? then None else ScalarText(ToJson(key, base64))
  {
    hide Ascii, Base64.Encode, ValidUtf8;
    if !key.Map? {
      hide MapJson;
    }
  }

  /** The member with that name is the one at that place. */
  predicate Carries(json: Json, i: nat, name: string, value: Json) {
    json.JObject? && i < |json.members| && json.members[i] == Member(Ascii(name), value)
  }

  predicate Tagged(json: Json, tag: string, size: nat) {
    json.JObject? && |json.members| == size && Carries(json, 0, "type", Label(tag))
  }

  /** The JSON of a map does not depend on the value that holds it. */
  lemma MapJsonOwner(owner: Value, entries: seq<Entry>, base64: bool)
    requires forall i :: 0 <= i < |entries| ==> entries[i].key < owner && entries[i].value < owner
    ensures MapJson(owner, entries, base64) == ToJson(Map(entries), base64)
  {
    hide Ascii;
    ObjectKeysFromIs(entries, base64, []);
    var a, b := MapJson(owner, entries, base64), MapJson(Map(entries), entries, base64);
    assert b == ToJson(Map(entries), base64);
    if ObjectKeysFrom(entries, base64, []).Some? {
      assert a.members == b.members;
    } else {
      assert a.members[1].value.items == b.members[1].value.items;
    }
  }

  /** Attributes ride along with their data, and both are sent as they would be alone. */
  lemma AttributeCarries(data: Value, attributes: seq<Entry>, base64: bool)
    ensures var json := ToJson(Attribute(data, attributes), base64);
            && Tagged(json, "attribute", 3) && Carries(json, 1, "data", ToJson(data, base64))
            && Carries(json, 2, "attributes", ToJson(Map(attributes), base64))
  {
    MapJsonOwner(Attribute(data, attributes), attributes, base64);
    hide MapJson;
  }

  /** A push carries its kind, and its data as an array would be sent. */
  lemma PushCarries(kind: Str, items: seq<Value>, base64: bool)
    ensures var json := ToJson(Push(kind, items), base64);
            && Tagged(json, "push", 3) && Carries(json, 1, "kind", JString(kind))
            && Carries(json, 2, "data", ToJson(Array(items), base64))
  {
  }

  /** Doubles are numbers while finite, and carry their text when not. */
  lemma DoubleCarries(text: Str, base64: bool)
    ensures ToJson(Double(Finite(text)), base64) == JFloat(text)
    ensures var json := ToJson(Double(NonFinite(text)), base64);
            Tagged(json, "double", 2) && Carries(json, 1, "value", JString(text))
  {
    hide Ascii;
  }

  /** Verbatim strings and errors carry their texts, which base64 mode leaves alone. */
  lemma VerbatimCarries(format: Str, text: Str, base64: bool)
    ensures var json := ToJson(VerbatimString(format, text), base64);
            && Tagged(json, "verbatim_string", 3)
            && Carries(json, 1, "format", JString(format)) && Carries(json, 2, "value", JString(text))
  {
    hide Ascii;
  }

  lemma ErrorCarries(error: Str, base64: bool)
    ensures var json := ToJson(ServerError(error), base64);
            Tagged(json, "server_error", 2) && Carries(json, 1, "error", JString(error))
    ensures Tagged(ToJson(Unsupported, base64), "unsupported_redis_value", 1)
  {
    hide Ascii;
  }

  /** Bytes that are the encoding of a string are sent, outside base64 mode, as that string. */
  lemma StringCarries(bytes: seq<Byte>)
    requires exists s: string :: Utf8(s) == bytes
    ensures ToJson(BulkString(bytes), false) == JString(bytes)
  {
    ValidUtf8Iff(bytes);
  }

  /** All others are sent tagged, with a text that decodes to them. */
  lemma BinaryCarries(bytes: seq<Byte>) returns (text: Str)
    requires !exists s: string :: Utf8(s) == bytes
    ensures var json := ToJson(BulkString(bytes), false);
            && Tagged(json, "binary", 3) && Carries(json, 1, "encoding", Label("base64"))
            && Carries(json, 2, "value", JString(text)) && Base64.Decode(text) == Some(bytes)
  {
    ValidUtf8Iff(bytes);
    Base64.DecodeEncode(bytes);
    text := Base64.Encode(bytes);
    hide Base64.Encode, Base64.Decode, Ascii;
  }
}
