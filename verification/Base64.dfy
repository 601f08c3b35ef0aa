/** Base64 with padding, as section 4 of RFC 4648 defines it, and the strict decoder that inverts it. */
module Base64 {
  import opened Prelude

  const PAD: Byte := 61

  type Sextet = n: int | 0 <= n < 64

  /** The base64 alphabet. */
  function Symbol(n: Sextet): Byte {
    if n < 26 then 65 + n            // A-Z
    else if n < 52 then 97 + n - 26  // a-z
    else if n < 62 then 48 + n - 52  // 0-9
    else if n == 62 then 43          // +
    else 47                          // /
  }

  function SymbolValue(c: Byte): (r: Option<int>)
    ensures r.Some? ==> 0 <= r.value < 64
  {
    if 65 <= c < 91 then Some(c - 65)
    else if 97 <= c < 123 then Some(c - 97 + 26)
    else if 48 <= c < 58 then Some(c - 48 + 52)
    else if c == 43 then Some(62)
    else if c == 47 then Some(63)
    else None
  }

  lemma SymbolInverse(n: Sextet, c: Byte)
    ensures SymbolValue(c) == Some(n) <==> Symbol(n) == c
    ensures Symbol(n) != PAD
  {
  }

  function Encode(bytes: seq<Byte>): (text: seq<Byte>)
    ensures |text| == (|bytes| + 2) / 3 * 4
  {
    if |bytes| == 0 then []
    else if |bytes| == 1 then
      [Symbol(bytes[0] / 4), Symbol(bytes[0] % 4 * 16), PAD, PAD]
    else if |bytes| == 2 then
      [Symbol(bytes[0] / 4), Symbol(bytes[0] % 4 * 16 + bytes[1] / 16), Symbol(bytes[1] % 16 * 4), PAD]
    else
      [Symbol(bytes[0] / 4), Symbol(bytes[0] % 4 * 16 + bytes[1] / 16),
       Symbol(bytes[1] % 16 * 4 + bytes[2] / 64), Symbol(bytes[2] % 64)] + Encode(bytes[3..])
  }

  /** The decoder: whole quads, padding only at the end, no stray bits. */
  function Decode(text: seq<Byte>): Option<seq<Byte>> {
    if text == [] then Some([])
    else if |text| < 4 then None
    else
      match (SymbolValue(text[0]), SymbolValue(text[1]))
      case (Some(a), Some(b)) =>
        if |text| == 4 && text[3] == PAD then
          if text[2] == PAD then
            if b % 16 == 0 then Some([a * 4 + b / 16]) else None
          else
            match SymbolValue(text[2])
            case Some(c) => if c % 4 == 0 then Some([a * 4 + b / 16, b % 16 * 16 + c / 4]) else None
            case None => None
        else (
          match (SymbolValue(text[2]), SymbolValue(text[3]), Decode(text[4..]))
          case (Some(c), Some(d), Some(rest)) =>
            Some([a * 4 + b / 16, b % 16 * 16 + c / 4, c % 4 * 64 + d] + rest)
          case _ => None
        )
      case _ => None
  }

  /** Regrouping three octets as four sextets loses nothing. */
  lemma JoinSplit(x: Byte, y: Byte, z: Byte)
    ensures var a, b, c, d := x / 4, x % 4 * 16 + y / 16, y % 16 * 4 + z / 64, z % 64;
            a * 4 + b / 16 == x && b % 16 * 16 + c / 4 == y && c % 4 * 64 + d == z
  {
  }

  lemma SplitJoin(a: Sextet, b: Sextet, c: Sextet, d: Sextet)
    ensures var x, y, z := a * 4 + b / 16, b % 16 * 16 + c / 4, c % 4 * 64 + d;
            x / 4 == a && x % 4 * 16 + y / 16 == b && y % 16 * 4 + z / 64 == c && z % 64 == d
  {
  }

  lemma DecodeQuad(a: Sextet, b: Sextet, c: Sextet, d: Sextet, rest: seq<Byte>)
    ensures Decode([Symbol(a), Symbol(b), Symbol(c), Symbol(d)] + rest) ==
            match Decode(rest)
            case Some(bytes) => Some([a * 4 + b / 16, b % 16 * 16 + c / 4, c % 4 * 64 + d] + bytes)
            case None => None
  {
    hide Symbol, SymbolValue;
    var text := [Symbol(a), Symbol(b), Symbol(c), Symbol(d)] + rest;
    assert text[4..] == rest;
    assert text[0] == Symbol(a) && text[1] == Symbol(b) && text[2] == Symbol(c) && text[3] == Symbol(d);
    SymbolInverse(a, Symbol(a));
    SymbolInverse(b, Symbol(b));
    SymbolInverse(c, Symbol(c));
    SymbolInverse(d, Symbol(d));
  }

  lemma DecodeEncodeOne(x: Byte)
    ensures Decode(Encode([x])) == Some([x])
  {
  }

  lemma DecodeTwo(a: Sextet, b: Sextet, c: Sextet)
    requires c % 4 == 0
    ensures Decode([Symbol(a), Symbol(b), Symbol(c), PAD]) == Some([a * 4 + b / 16, b % 16 * 16 + c / 4])
  {
    hide Symbol, SymbolValue;
    SymbolInverse(a, Symbol(a));
    SymbolInverse(b, Symbol(b));
    SymbolInverse(c, Symbol(c));
  }

  lemma DecodeEncodeTwo(x: Byte, y: Byte)
    ensures Decode(Encode([x, y])) == Some([x, y])
  {
    hide Symbol, SymbolValue;
    JoinSplit(x, y, 0);
    var a, b, c := x / 4, x % 4 * 16 + y / 16, y % 16 * 4;
    assert Encode([x, y]) == [Symbol(a), Symbol(b), Symbol(c), PAD];
    DecodeTwo(a, b, c);
  }

  lemma DecodeEncodeThree(x: Byte, y: Byte, z: Byte, rest: seq<Byte>)
    requires Decode(Encode(rest)) == Some(rest)
    ensures Decode(Encode([x, y, z] + rest)) == Some([x, y, z] + rest)
  {
    hide Symbol, SymbolValue, Decode;
    var bytes := [x, y, z] + rest;
    assert bytes[3..] == rest;
    JoinSplit(x, y, z);
    DecodeQuad(x / 4, x % 4 * 16 + y / 16, y % 16 * 4 + z / 64, z % 64, Encode(rest));
  }

  lemma {:induction false} DecodeEncode(bytes: seq<Byte>)
    ensures Decode(Encode(bytes)) == Some(bytes)
  {
    if |bytes| >= 3 {
      hide Decode, Encode;
      DecodeEncode(bytes[3..]);
      DecodeEncodeThree(bytes[0], bytes[1], bytes[2], bytes[3..]);
      assert bytes == [bytes[0], bytes[1], bytes[2]] + bytes[3..];
    } else if |bytes| == 2 {
      hide Decode, Encode;
      DecodeEncodeTwo(bytes[0], bytes[1]);
      assert bytes == [bytes[0], bytes[1]];
    } else if |bytes| == 1 {
      hide Decode, Encode;
      DecodeEncodeOne(bytes[0]);
      assert bytes == [bytes[0]];
    }
  }

  lemma EncodeQuad(a: Sextet, b: Sextet, c: Sextet, d: Sextet, bytes: seq<Byte>)
    ensures Encode([a * 4 + b / 16, b % 16 * 16 + c / 4, c % 4 * 64 + d] + bytes) ==
            [Symbol(a), Symbol(b), Symbol(c), Symbol(d)] + Encode(bytes)
  {
    hide Symbol, SymbolValue;
    SplitJoin(a, b, c, d);
    var all := [a * 4 + b / 16, b % 16 * 16 + c / 4, c % 4 * 64 + d] + bytes;
    assert all[3..] == bytes;
  }

  lemma EncodeDecodeOne(text: seq<Byte>)
    requires |text| == 4 && text[3] == PAD && text[2] == PAD && Decode(text).Some?
    ensures Encode(Decode(text).value) == text
  {
    hide Symbol, SymbolValue;
    var a, b := SymbolValue(text[0]).value, SymbolValue(text[1]).value;
    SymbolInverse(a, text[0]);
    SymbolInverse(b, text[1]);
    SplitJoin(a, b, 0, 0);
    assert text == [Symbol(a), Symbol(b), PAD, PAD];
  }

  lemma EncodeDecodeTwo(text: seq<Byte>)
    requires |text| == 4 && text[3] == PAD && text[2] != PAD && Decode(text).Some?
    ensures Encode(Decode(text).value) == text
  {
    hide Symbol, SymbolValue;
    var a, b, c := SymbolValue(text[0]).value, SymbolValue(text[1]).value, SymbolValue(text[2]).value;
    SymbolInverse(a, text[0]);
    SymbolInverse(b, text[1]);
    SymbolInverse(c, text[2]);
    SplitJoin(a, b, c, 0);
    assert text == [Symbol(a), Symbol(b), Symbol(c), PAD];
  }

  lemma {:induction false} EncodeDecode(text: seq<Byte>)
    requires Decode(text).Some?
    ensures Encode(Decode(text).value) == text
  {
    hide Symbol, SymbolValue;
    if |text| == 4 && text[3] == PAD {
      if text[2] == PAD {
        EncodeDecodeOne(text);
      } else {
        EncodeDecodeTwo(text);
      }
    } else if text != [] {
      var a, b := SymbolValue(text[0]).value, SymbolValue(text[1]).value;
      var c, d := SymbolValue(text[2]).value, SymbolValue(text[3]).value;
      SymbolInverse(a, text[0]);
      SymbolInverse(b, text[1]);
      SymbolInverse(c, text[2]);
      SymbolInverse(d, text[3]);
      EncodeDecode(text[4..]);
      EncodeQuad(a, b, c, d, Decode(text[4..]).value);
      assert text == [Symbol(a), Symbol(b), Symbol(c), Symbol(d)] + text[4..];
    }
  }

  /** Encoding is a bijection onto the texts the decoder accepts. */
  lemma EncodeIffDecode(bytes: seq<Byte>, text: seq<Byte>)
    ensures Encode(bytes) == text <==> Decode(text) == Some(bytes)
  {
    DecodeEncode(bytes);
    if Decode(text).Some? {
      EncodeDecode(text);
    }
  }

  /** The alphabet of section 4 of RFC 4648. */
  const ALPHABET: string :=
    "ABCDEFGHIJKLMNOPQRSTUVWXYZ" + "abcdefghijklmnopqrstuvwxyz" + ("0123456789" + "+/")

  lemma CapitalsInOrder(n: int)
    requires 0 <= n < 26
    ensures "ABCDEFGHIJKLMNOPQRSTUVWXYZ"[n] as int == 65 + n
  {
  }

  lemma LettersInOrder(n: int)
    requires 0 <= n < 26
    ensures "abcdefghijklmnopqrstuvwxyz"[n] as int == 97 + n
  {
  }

  /** The symbols are its letters in order, and the padding is "=". */
  lemma AlphabetIs(n: Sextet)
    ensures |ALPHABET| == 64 && Symbol(n) == ALPHABET[n] as int && PAD == '=' as int
  {
    if n < 26 {
      CapitalsInOrder(n);
    } else if n < 52 {
      LettersInOrder(n - 26);
      assert ALPHABET[n] == "abcdefghijklmnopqrstuvwxyz"[n - 26];
    } else if n < 62 {
      assert ALPHABET[n] == "0123456789"[n - 52];
    } else {
      assert ALPHABET[n] == "+/"[n - 62];
    }
  }

  /** Three octets as one number, most significant first. */
  function Octets(x: int, y: int, z: int): int {
    x * 65536 + y * 256 + z
  }

  /** Four sextets as one number, most significant first. */
  function Sextets(a: int, b: int, c: int, d: int): int {
    a * 262144 + b * 4096 + c * 64 + d
  }

  /** The octet at a place, 0 past the end. */
  function OctetAt(bytes: seq<Byte>, i: nat): int {
    if i < |bytes| then bytes[i] else 0
  }

  /** The value of the symbol at a place, 0 for padding. */
  function SextetAt(text: seq<Byte>, i: nat): int
    requires i < |text|
  {
    if SymbolValue(text[i]).Some? then SymbolValue(text[i]).value else 0
  }

  lemma SameBits(x: Byte, y: Byte, z: Byte)
    ensures Octets(x, y, z) == Sextets(x / 4, x % 4 * 16 + y / 16, y % 16 * 4 + z / 64, z % 64)
  {
  }

  /** Three octets and the four symbols they become denote the same 24 bits; missing octets count as zeros, and a symbol
      without any bit of input is padding. */
  lemma EncodeIsPositional(bytes: seq<Byte>)
    requires bytes != []
    ensures var text := Encode(bytes);
            && |text| >= 4
            && Sextets(SextetAt(text, 0), SextetAt(text, 1), SextetAt(text, 2), SextetAt(text, 3)) ==
               Octets(OctetAt(bytes, 0), OctetAt(bytes, 1), OctetAt(bytes, 2))
            && (text[2] == PAD <==> |bytes| == 1) && (text[3] == PAD <==> |bytes| <= 2)
            && (|bytes| > 3 ==> text[4..] == Encode(bytes[3..]))
  {
    var x, y, z := bytes[0], OctetAt(bytes, 1), OctetAt(bytes, 2);
    SameBits(x, y, z);
    SymbolInverse(x / 4, Symbol(x / 4));
    SymbolInverse(x % 4 * 16 + y / 16, Symbol(x % 4 * 16 + y / 16));
    SymbolInverse(y % 16 * 4 + z / 64, Symbol(y % 16 * 4 + z / 64));
    SymbolInverse(z % 64, Symbol(z % 64));
    assert SymbolValue(PAD).None?;
    hide Symbol, SymbolValue, Sextets, Octets;
  }
}
