/** Text as the bridge handles it: UTF-8, ASCII case, white space and decimal numbers. */
module Text {
  import opened Prelude

  /** The bytes of an ASCII literal. */
  function Ascii(s: string): (bytes: seq<Byte>)
    ensures |bytes| == |s| && forall i :: 0 <= i < |s| ==> bytes[i] == s[i] as int % 128
  {
    seq(|s|, i requires 0 <= i < |s| => s[i] as int % 128)
  }

  predicate Continues(b: Byte) {
    0x80 <= b < 0xC0
  }

  /** The length of the well-formed sequence a text starts with (table 3-7 of the Unicode standard), 0 if none. */
  function LeadLength(bytes: seq<Byte>): nat
    requires bytes != []
  {
    var b := bytes[0];
    if b < 0x80 then 1
    else if 0xC2 <= b < 0xE0 then
      if |bytes| >= 2 && Continues(bytes[1]) then 2 else 0
    else if 0xE0 <= b < 0xF0 then
      if |bytes| >= 3 && Continues(bytes[1]) && Continues(bytes[2])
         && (b == 0xE0 ==> bytes[1] >= 0xA0) && (b == 0xED ==> bytes[1] < 0xA0) then 3 else 0
    else if 0xF0 <= b < 0xF5 then
      if |bytes| >= 4 && Continues(bytes[1]) && Continues(bytes[2]) && Continues(bytes[3])
         && (b == 0xF0 ==> bytes[1] >= 0x90) && (b == 0xF4 ==> bytes[1] < 0x90) then 4 else 0
    else 0
  }

  /** `from_utf8` succeeds. */
  predicate ValidUtf8(bytes: seq<Byte>) {
    bytes == [] || (LeadLength(bytes) > 0 && ValidUtf8(bytes[LeadLength(bytes)..]))
  }

  function EncodeChar(c: char): (bytes: seq<Byte>)
    ensures 1 <= |bytes| <= 4
  {
    var n := c as int;
    if n < 0x80 then [n]
    else if n < 0x800 then [0xC0 + n / 64, 0x80 + n % 64]
    else if n < 0x10000 then [0xE0 + n / 4096, 0x80 + n / 64 % 64, 0x80 + n % 64]
    else [0xF0 + n / 262144, 0x80 + n / 4096 % 64, 0x80 + n / 64 % 64, 0x80 + n % 64]
  }

  /** `as_bytes` of a string. */
  function Utf8(s: string): seq<Byte> {
    if s == [] then [] else EncodeChar(s[0]) + Utf8(s[1..])
  }

  lemma LeadTwo(n: int, rest: seq<Byte>)
    requires 0x80 <= n < 0x800
    ensures LeadLength([0xC0 + n / 64, 0x80 + n % 64] + rest) == 2
  {
  }

  lemma LeadThree(n: int, rest: seq<Byte>)
    requires 0x800 <= n < 0x10000 && !(0xD800 <= n < 0xE000)
    ensures LeadLength([0xE0 + n / 4096, 0x80 + n / 64 % 64, 0x80 + n % 64] + rest) == 3
  {
    assert n / 4096 == 0 ==> n / 64 % 64 >= 0x20;
    assert n / 4096 == 13 ==> n / 64 % 64 < 0x20;
  }

  lemma LeadFour(n: int, rest: seq<Byte>)
    requires 0x10000 <= n < 0x110000
    ensures LeadLength([0xF0 + n / 262144, 0x80 + n / 4096 % 64, 0x80 + n / 64 % 64, 0x80 + n % 64] + rest) == 4
  {
    assert n / 262144 == 0 ==> n / 4096 % 64 >= 0x10;
    assert n / 262144 == 4 ==> n / 4096 % 64 < 0x10;
  }

  lemma EncodeCharLeads(c: char, rest: seq<Byte>)
    ensures LeadLength(EncodeChar(c) + rest) == |EncodeChar(c)|
  {
    var n := c as int;
    if 0x10000 <= n {
      LeadFour(n, rest);
    } else if 0x800 <= n {
      LeadThree(n, rest);
    } else if 0x80 <= n {
      LeadTwo(n, rest);
    }
  }

  /** Every string's bytes are valid UTF-8. */
  lemma {:induction false} Utf8IsValid(s: string)
    ensures ValidUtf8(Utf8(s))
  {
    if s != [] {
      Utf8IsValid(s[1..]);
      var bytes := Utf8(s);
      EncodeCharLeads(s[0], Utf8(s[1..]));
      assert bytes[LeadLength(bytes)..] == Utf8(s[1..]);
    }
  }

  /** ASCII text is its own encoding. */
  lemma {:induction false} AsciiIsUtf8(s: string)
    requires forall i :: 0 <= i < |s| ==> s[i] as int < 128
    ensures Utf8(s) == Ascii(s)
  {
    if s != [] {
      AsciiIsUtf8(s[1..]);
    }
  }

  /** What a byte adds to its mark. */
  function Payload(b: Byte, mark: int): int {
    (b as int) - mark
  }

  function Spelled2(x: int, y: int): int {
    x * 64 + y
  }

  function Spelled3(x: int, y: int, z: int): int {
    x * 4096 + y * 64 + z
  }

  function Spelled4(w: int, x: int, y: int, z: int): int {
    w * 262144 + x * 4096 + y * 64 + z
  }

  /** The code point a well-formed lead spells: the payload bits of its bytes, most significant first (section 3 of
      RFC 3629). */
  function LeadValue(bytes: seq<Byte>): int
    requires bytes != [] && LeadLength(bytes) > 0
  {
    match LeadLength(bytes)
    case 1 => bytes[0] as int
    case 2 => Spelled2(Payload(bytes[0], 0xC0), Payload(bytes[1], 0x80))
    case 3 => Spelled3(Payload(bytes[0], 0xE0), Payload(bytes[1], 0x80), Payload(bytes[2], 0x80))
    case _ =>
      Spelled4(Payload(bytes[0], 0xF0), Payload(bytes[1], 0x80), Payload(bytes[2], 0x80), Payload(bytes[3], 0x80))
  }

  /** A Unicode scalar value. */
  predicate IsScalar(n: int) {
    0 <= n < 0xD800 || 0xE000 <= n < 0x110000
  }

  lemma Spelled2Is(n: int, x: int, y: int)
    requires 0 <= y < 64
    ensures n == Spelled2(x, y) <==> x == n / 64 && y == n % 64
  {
  }

  lemma Spelled3Is(n: int, x: int, y: int, z: int)
    requires 0 <= y < 64 && 0 <= z < 64
    ensures n == Spelled3(x, y, z) <==> x == n / 4096 && y == n / 64 % 64 && z == n % 64
  {
    Spelled2Is(n, Spelled2(x, y), z);
    Spelled2Is(n / 64, x, y);
    assert n / 64 / 64 == n / 4096;
  }

  lemma Spelled4Is(n: int, w: int, x: int, y: int, z: int)
    requires 0 <= x < 64 && 0 <= y < 64 && 0 <= z < 64
    ensures n == Spelled4(w, x, y, z) <==> w == n / 262144 && x == n / 4096 % 64 && y == n / 64 % 64 && z == n % 64
  {
    Spelled3Is(n, Spelled2(w, x), y, z);
    Spelled2Is(n / 4096, w, x);
    assert n / 4096 / 64 == n / 262144;
  }

  lemma Lead2Encodes(bytes: seq<Byte>)
    requires bytes != [] && LeadLength(bytes) == 2
    ensures |bytes| >= 2 && 0x80 <= LeadValue(bytes) < 0x800
    ensures EncodeChar(LeadValue(bytes) as char) == bytes[..2]
  {
    var x, y := Payload(bytes[0], 0xC0), Payload(bytes[1], 0x80);
    var n := LeadValue(bytes);
    assert n == Spelled2(x, y) && 2 <= x < 32 && 0 <= y < 64;
    assert 0x80 <= n < 0x800;
    Spelled2Is(n, x, y);
    hide Spelled2, LeadLength, LeadValue;
    assert EncodeChar(n as char) == [0xC0 + x, 0x80 + y];
  }

  lemma Lead3Encodes(bytes: seq<Byte>)
    requires bytes != [] && LeadLength(bytes) == 3
    ensures |bytes| >= 3 && 0x800 <= LeadValue(bytes) < 0x10000 && IsScalar(LeadValue(bytes))
    ensures EncodeChar(LeadValue(bytes) as char) == bytes[..3]
  {
    var x, y, z := Payload(bytes[0], 0xE0), Payload(bytes[1], 0x80), Payload(bytes[2], 0x80);
    var n := LeadValue(bytes);
    assert n == Spelled3(x, y, z) && 0 <= x < 16 && 0 <= y < 64 && 0 <= z < 64;
    assert 0x800 <= n < 0x10000 && IsScalar(n);
    Spelled3Is(n, x, y, z);
    hide Spelled3, LeadLength, LeadValue;
    assert EncodeChar(n as char) == [0xE0 + x, 0x80 + y, 0x80 + z];
  }

  lemma Lead4Encodes(bytes: seq<Byte>)
    requires bytes != [] && LeadLength(bytes) == 4
    ensures |bytes| >= 4 && 0x10000 <= LeadValue(bytes) < 0x110000
    ensures EncodeChar(LeadValue(bytes) as char) == bytes[..4]
  {
    var w, x := Payload(bytes[0], 0xF0), Payload(bytes[1], 0x80);
    var y, z := Payload(bytes[2], 0x80), Payload(bytes[3], 0x80);
    var n := LeadValue(bytes);
    assert n == Spelled4(w, x, y, z) && 0 <= w < 5 && 0 <= x < 64 && 0 <= y < 64 && 0 <= z < 64;
    assert 0x10000 <= n < 0x110000;
    Spelled4Is(n, w, x, y, z);
    hide Spelled4, LeadLength, LeadValue;
    assert EncodeChar(n as char) == [0xF0 + w, 0x80 + x, 0x80 + y, 0x80 + z];
  }

  /** A well-formed lead spells a scalar value, and is its encoding. */
  lemma LeadEncodes(bytes: seq<Byte>)
    requires bytes != [] && LeadLength(bytes) > 0
    ensures LeadLength(bytes) <= |bytes| && IsScalar(LeadValue(bytes))
    ensures EncodeChar(LeadValue(bytes) as char) == bytes[..LeadLength(bytes)]
  {
    hide Spelled2, Spelled3, Spelled4;
    if LeadLength(bytes) == 2 {
      Lead2Encodes(bytes);
    } else if LeadLength(bytes) == 3 {
      Lead3Encodes(bytes);
    } else if LeadLength(bytes) == 4 {
      Lead4Encodes(bytes);
    }
  }

  /** A character's encoding spells it. */
  lemma EncodeCharSpells(c: char, rest: seq<Byte>)
    ensures LeadLength(EncodeChar(c) + rest) == |EncodeChar(c)|
    ensures LeadValue(EncodeChar(c) + rest) == c as int
  {
    EncodeCharLeads(c, rest);
    var n := c as int;
    Spelled2Is(n, n / 64, n % 64);
    Spelled3Is(n, n / 4096, n / 64 % 64, n % 64);
    Spelled4Is(n, n / 262144, n / 4096 % 64, n / 64 % 64, n % 64);
    hide LeadLength, Spelled2, Spelled3, Spelled4;
  }

  /** Decoding UTF-8, or none if the bytes are not. */
  function FromUtf8(bytes: seq<Byte>): Option<string> {
    if bytes == [] then Some([])
    else if LeadLength(bytes) == 0 then None
    else
      LeadEncodes(bytes);
      match FromUtf8(bytes[LeadLength(bytes)..])
      case Some(rest) => Some([LeadValue(bytes) as char] + rest)
      case None => None
  }

  lemma {:induction false} FromUtf8Inverts(s: string)
    ensures FromUtf8(Utf8(s)) == Some(s)
  {
    if s != [] {
      var bytes, rest := Utf8(s), Utf8(s[1..]);
      EncodeCharSpells(s[0], rest);
      FromUtf8Inverts(s[1..]);
      assert bytes[LeadLength(bytes)..] == rest;
      assert s == [s[0]] + s[1..];
    }
  }

  lemma {:induction false} Utf8Inverts(bytes: seq<Byte>)
    requires FromUtf8(bytes).Some?
    ensures Utf8(FromUtf8(bytes).value) == bytes
  {
    hide LeadLength, LeadValue, EncodeChar;
    if bytes != [] {
      var n := LeadLength(bytes);
      LeadEncodes(bytes);
      Utf8Inverts(bytes[n..]);
      var s := FromUtf8(bytes).value;
      assert s[1..] == FromUtf8(bytes[n..]).value;
      assert bytes == bytes[..n] + bytes[n..];
    }
  }

  /** Encoding is a bijection between strings and the byte strings the decoder accepts. */
  lemma Utf8IffFrom(s: string, bytes: seq<Byte>)
    ensures Utf8(s) == bytes <==> FromUtf8(bytes) == Some(s)
  {
    FromUtf8Inverts(s);
    if FromUtf8(bytes).Some? {
      Utf8Inverts(bytes);
    }
  }

  lemma {:induction false} ValidIffDecodes(bytes: seq<Byte>)
    ensures ValidUtf8(bytes) <==> FromUtf8(bytes).Some?
  {
    if bytes != [] && LeadLength(bytes) > 0 {
      LeadEncodes(bytes);
      ValidIffDecodes(bytes[LeadLength(bytes)..]);
    }
  }

  /** Bytes pass the test exactly when they are the encoding of a string, and then of one only. */
  lemma ValidUtf8Iff(bytes: seq<Byte>)
    ensures ValidUtf8(bytes) <==> exists s: string :: Utf8(s) == bytes
    ensures forall s: string, t: string :: Utf8(s) == bytes && Utf8(t) == bytes ==> s == t
  {
    ValidIffDecodes(bytes);
    forall s: string
      ensures Utf8(s) == bytes <==> FromUtf8(bytes) == Some(s)
    {
      Utf8IffFrom(s, bytes);
    }
    if FromUtf8(bytes).Some? {
      assert Utf8(FromUtf8(bytes).value) == bytes;
    }
  }

  lemma {:induction false} AsciiIsValid(bytes: seq<Byte>)
    requires forall i :: 0 <= i < |bytes| ==> bytes[i] < 128
    ensures ValidUtf8(bytes)
  {
    if bytes != [] {
      AsciiIsValid(bytes[1..]);
    }
  }

  /** The decimal form of a non-negative number. */
  function Digits(n: nat): (text: seq<Byte>)
    ensures text != []
    ensures forall i :: 0 <= i < |text| ==> 48 <= text[i] < 58
  {
    if n < 10 then [48 + n] else Digits(n / 10) + [48 + n % 10]
  }

  function Decimal(n: int): (text: seq<Byte>)
    ensures text != [] && forall i :: 0 <= i < |text| ==> text[i] == 45 || 48 <= text[i] < 58
  {
    if n < 0 then [45] + Digits(-n) else Digits(n)
  }

  /** The number a row of decimal digits denotes. */
  function DigitsValue(text: seq<Byte>): int {
    if text == [] then 0 else DigitsValue(text[..|text| - 1]) * 10 + (Last(text) as int - 48)
  }

  /** Reading a decimal number. */
  function ReadDecimal(text: seq<Byte>): int {
    if text != [] && text[0] == 45 then -DigitsValue(text[1..]) else DigitsValue(text)
  }

  lemma {:induction false} DigitsRead(n: nat)
    ensures DigitsValue(Digits(n)) == n && (Digits(n)[0] == 48 ==> n == 0)
  {
    if n >= 10 {
      var text := Digits(n);
      DigitsRead(n / 10);
      assert text[..|text| - 1] == Digits(n / 10);
    } else {
      assert DigitsValue([48 + n][..0]) == 0;
    }
  }

  /** The decimal form reads as the number and has no leading zero. */
  lemma DecimalReads(n: int)
    ensures ReadDecimal(Decimal(n)) == n
    ensures n != 0 ==> Decimal(n)[if n < 0 then 1 else 0] != 48
  {
    DigitsRead(if n < 0 then -n else n);
    if n < 0 {
      assert Decimal(n)[1..] == Digits(-n);
    }
  }

  /** The White_Space property of Unicode, which `trim` strips. */
  predicate IsWhitespace(c: char) {
    var n := c as int;
    9 <= n <= 13 || n == 0x20 || n == 0x85 || n == 0xA0 || n == 0x1680 || 0x2000 <= n <= 0x200A
    || n == 0x2028 || n == 0x2029 || n == 0x202F || n == 0x205F || n == 0x3000
  }

  function Trim(s: string): string {
    if s == [] then []
    else if IsWhitespace(s[0]) then Trim(s[1..])
    else if IsWhitespace(s[|s| - 1]) then Trim(s[..|s| - 1])
    else s
  }

  /** The slice begins and ends with something other than white space. */
  predicate IsTight(s: string) {
    s != "" ==> !IsWhitespace(s[0]) && !IsWhitespace(s[|s| - 1])
  }

  /** White space from `i` up to `j`. */
  ghost predicate Blank(s: string, i: nat, j: nat)
    requires j <= |s|
  {
    forall k :: i <= k < j ==> IsWhitespace(s[k])
  }

  /** `trim` takes white space off both ends and nothing else: what is left is tight, and every tight slice that is not
      empty lies within it. */
  lemma {:induction false} TrimIs(s: string) returns (i: nat, j: nat)
    ensures i <= j <= |s| && Trim(s) == s[i..j] && IsTight(Trim(s)) && Blank(s, 0, i) && Blank(s, j, |s|)
    ensures forall a, b :: 0 <= a < b <= |s| && IsTight(s[a..b]) ==> i <= a && b <= j
    decreases |s|
  {
    if s == [] {
      i, j := 0, 0;
    } else if IsWhitespace(s[0]) {
      var rest := s[1..];
      i, j := TrimIs(rest);
      assert rest[i..j] == s[i + 1..j + 1];
      BlankShifts(s, i, j);
      i, j := i + 1, j + 1;
      TightWithin(s, i, j);
    } else if IsWhitespace(s[|s| - 1]) {
      var init := s[..|s| - 1];
      i, j := TrimIs(init);
      assert init[i..j] == s[i..j];
      assert forall k :: 0 <= k < |init| ==> init[k] == s[k];
      TightWithin(s, i, j);
    } else {
      i, j := 0, |s|;
    }
  }

  lemma BlankShifts(s: string, i: nat, j: nat)
    requires s != [] && IsWhitespace(s[0]) && i <= j <= |s[1..]| && Blank(s[1..], 0, i) && Blank(s[1..], j, |s[1..]|)
    ensures Blank(s, 0, i + 1) && Blank(s, j + 1, |s|)
  {
    forall k | 0 < k < i + 1 || j + 1 <= k < |s| ensures IsWhitespace(s[k]) {
      assert s[1..][k - 1] == s[k];
    }
  }

  /** White space on both sides of a stretch keeps tight slices within it. */
  lemma TightWithin(s: string, i: nat, j: nat)
    requires i <= j <= |s| && Blank(s, 0, i) && Blank(s, j, |s|)
    ensures forall a, b :: 0 <= a < b <= |s| && IsTight(s[a..b]) ==> i <= a && b <= j
  {
    forall a, b | 0 <= a < b <= |s| && IsTight(s[a..b])
      ensures i <= a && b <= j
    {
      assert s[a..b][0] == s[a] && s[a..b][b - a - 1] == s[b - 1];
    }
  }

  function UpperChar(c: char): char {
    if 'a' <= c <= 'z' then (c as int - 32) as char else c
  }

  function Upper(s: string): string {
    seq(|s|, i requires 0 <= i < |s| => UpperChar(s[i]))
  }

  /** `to_ascii_uppercase` maps the k-th lower-case letter of ASCII to the k-th capital and leaves the rest alone. */
  lemma UpperIs(s: string, i: nat)
    requires i < |s|
    ensures |Upper(s)| == |s|
    ensures 'a' <= s[i] <= 'z' ==> Upper(s)[i] as int - 'A' as int == s[i] as int - 'a' as int
    ensures !('a' <= s[i] <= 'z') ==> Upper(s)[i] == s[i]
  {
  }
}
