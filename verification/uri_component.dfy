/**
 * ECMAScript's `encodeURIComponent`, which both the form and the mixtape
 * route apply to the recipient name before placing it in the player link.
 * Every character outside the unreserved set is written as the `%XY` escapes
 * of its UTF-8 bytes, with upper-case hexadecimal digits.
 */
module UriComponent {
  import opened Nullable
  import opened Seqs

  /** The characters `encodeURIComponent` leaves as they are. */
  predicate IsUnreserved(c: char) {
    'A' <= c <= 'Z' || 'a' <= c <= 'z' || '0' <= c <= '9' ||
    c == '-' || c == '_' || c == '.' || c == '!' || c == '~' || c == '*' ||
    c == '\'' || c == '(' || c == ')'
  }

  predicate IsHexDigit(c: char) {
    '0' <= c <= '9' || 'A' <= c <= 'F' || 'a' <= c <= 'f'
  }

  /** The value of a hexadecimal digit of either case. */
  function HexValue(c: char): (v: nat)
    requires IsHexDigit(c)
    ensures v < 16
  {
    if '0' <= c <= '9' then c as int - '0' as int
    else if 'A' <= c <= 'F' then c as int - 'A' as int + 10
    else c as int - 'a' as int + 10
  }

  /** The upper-case hexadecimal digit of a value below 16. */
  function HexDigit(n: nat): (c: char)
    requires n < 16
    ensures IsHexDigit(c) && IsUnreserved(c)
    ensures '0' <= c <= '9' || 'A' <= c <= 'F'
    ensures HexValue(c) == n
  {
    if n < 10 then ('0' as int + n) as char else ('A' as int + n - 10) as char
  }

  /** A byte value. */
  predicate IsByte(b: int) {
    0 <= b < 256
  }

  /** The UTF-8 encoding of one Unicode scalar value. */
  function Utf8(c: char): (bytes: seq<int>)
    ensures 1 <= |bytes| <= 4
    ensures forall i :: 0 <= i < |bytes| ==> IsByte(bytes[i])
    ensures |bytes| == 1 <==> (c as int) < 0x80
    ensures |bytes| == 1 ==> bytes[0] == c as int
    ensures |bytes| > 1 ==> 0xC2 <= bytes[0] <= 0xF4
    ensures forall i :: 1 <= i < |bytes| ==> 0x80 <= bytes[i] < 0xC0
  {
    var cp := c as int;
    if cp < 0x80 then [cp]
    else if cp < 0x800 then [0xC0 + cp / 64, 0x80 + cp % 64]
    else if cp < 0x10000 then [0xE0 + cp / 4096, 0x80 + (cp / 64) % 64, 0x80 + cp % 64]
    else [0xF0 + cp / 262144, 0x80 + (cp / 4096) % 64, 0x80 + (cp / 64) % 64, 0x80 + cp % 64]
  }

  /** The UTF-8 bytes of a whole string. */
  function Utf8Bytes(s: string): (bytes: seq<int>)
    ensures |bytes| >= |s|
    decreases |s|
  {
    if s == [] then [] else Utf8(s[0]) + Utf8Bytes(s[1..])
  }

  /** The escape `%XY` of one byte. */
  function PercentByte(b: int): (r: string)
    requires IsByte(b)
    ensures |r| == 3 && r[0] == '%'
  {
    ['%', HexDigit(b / 16), HexDigit(b % 16)]
  }

  /** `%XY` for every byte. */
  function PercentBytes(bytes: seq<int>): (r: string)
    requires forall i :: 0 <= i < |bytes| ==> IsByte(bytes[i])
    ensures |r| == 3 * |bytes|
    ensures forall i :: 0 <= i < |r| ==> r[i] == '%' || (IsHexDigit(r[i]) && IsUnreserved(r[i]))
    decreases |bytes|
  {
    if bytes == [] then []
    else
      var b := bytes[0];
      assert IsByte(b);
      PercentByte(b) + PercentBytes(bytes[1..])
  }

  /** Text made of unreserved characters and `%` only. */
  predicate IsEncodedText(r: string) {
    forall i :: 0 <= i < |r| ==> r[i] == '%' || IsUnreserved(r[i])
  }

  /** One character as `encodeURIComponent` writes it. */
  function EncodeChar(c: char): (r: string)
    ensures IsUnreserved(c) ==> r == [c]
    ensures !IsUnreserved(c) ==> |r| >= 3 && r[0] == '%'
    ensures IsEncodedText(r)
  {
    if IsUnreserved(c) then [c] else PercentBytes(Utf8(c))
  }

  /**
   * `encodeURIComponent(s)`. The result consists of unreserved characters and
   * `%` only, so it never holds `&`, `=`, `#`, `?`, `,` or `+`.
   */
  function Encode(s: string): (r: string)
    ensures IsEncodedText(r)
    ensures |r| >= |s|
    decreases |s|
  {
    if s == [] then [] else EncodeChar(s[0]) + Encode(s[1..])
  }

  /** Encoding leaves a string unchanged exactly when all its characters are unreserved. */
  lemma {:induction false} EncodeIdentity(s: string)
    ensures Encode(s) == s <==> forall i :: 0 <= i < |s| ==> IsUnreserved(s[i])
    decreases |s|
  {
    if s != [] {
      EncodeIdentity(s[1..]);
      var r := Encode(s);
      assert r == EncodeChar(s[0]) + Encode(s[1..]);
      if IsUnreserved(s[0]) {
        assert r == [s[0]] + Encode(s[1..]);
        assert s == [s[0]] + s[1..];
        assert r == s <==> Encode(s[1..]) == s[1..];
      } else {
        assert |r| > |s|;
      }
    }
  }

  /**
   * The bytes a percent-encoded text stands for: `%XY` is the byte 0xXY and
   * any other character stands for its own UTF-8 bytes. A `%` that is not
   * followed by two hexadecimal digits makes the text malformed.
   */
  function DecodeToBytes(s: string): (r: Option<seq<int>>)
    decreases |s|
  {
    if s == [] then Some([])
    else if s[0] == '%' then
      if |s| >= 3 && IsHexDigit(s[1]) && IsHexDigit(s[2]) then
        match DecodeToBytes(s[3..])
        case Some(rest) => Some([16 * HexValue(s[1]) + HexValue(s[2])] + rest)
        case None => None
      else None
    else
      match DecodeToBytes(s[1..])
      case Some(rest) => Some(Utf8(s[0]) + rest)
      case None => None
  }

  /** A leading escape decodes to its byte, followed by whatever the rest decodes to. */
  lemma DecodePercentByte(b: int, t: string)
    requires IsByte(b)
    requires DecodeToBytes(t).Some?
    ensures DecodeToBytes(PercentByte(b) + t) == Some([b] + DecodeToBytes(t).value)
  {
    var u := PercentByte(b) + t;
    assert u[3..] == t;
    assert 16 * HexValue(u[1]) + HexValue(u[2]) == b;
  }

  /** The escapes of a byte run: the first byte's escape, then the rest's. */
  lemma PercentBytesCons(bytes: seq<int>, rest: string)
    requires bytes != []
    requires forall i :: 0 <= i < |bytes| ==> IsByte(bytes[i])
    ensures PercentBytes(bytes) + rest == PercentByte(bytes[0]) + (PercentBytes(bytes[1..]) + rest)
  {
    AppendAssoc(PercentByte(bytes[0]), PercentBytes(bytes[1..]), rest);
  }

  /** A run of escapes decodes to exactly the bytes it escapes. */
  lemma {:induction false} DecodePercentBytes(bytes: seq<int>, rest: string)
    requires forall i :: 0 <= i < |bytes| ==> IsByte(bytes[i])
    requires DecodeToBytes(rest).Some?
    ensures DecodeToBytes(PercentBytes(bytes) + rest) == Some(bytes + DecodeToBytes(rest).value)
    decreases |bytes|
  {
    if bytes == [] {
      AppendEmpty(rest);
      AppendEmpty(DecodeToBytes(rest).value);
    } else {
      var b := bytes[0];
      assert IsByte(b);
      var tail := PercentBytes(bytes[1..]) + rest;
      DecodePercentBytes(bytes[1..], rest);
      PercentBytesCons(bytes, rest);
      DecodePercentByte(b, tail);
      var x := DecodeToBytes(rest).value;
      ConsAppend(bytes, x);
    }
  }

  /** Decoding the encoded text gives back the UTF-8 bytes of the original. */
  lemma {:induction false} EncodeDecodesToUtf8(s: string)
    ensures DecodeToBytes(Encode(s)) == Some(Utf8Bytes(s))
    decreases |s|
  {
    if s != [] {
      EncodeDecodesToUtf8(s[1..]);
      var c := s[0];
      var rest := Encode(s[1..]);
      if IsUnreserved(c) {
        assert Encode(s) == [c] + rest;
        assert ([c] + rest)[1..] == rest;
      } else {
        DecodePercentBytes(Utf8(c), rest);
      }
    }
  }

  /** Encoding distributes over concatenation. */
  lemma {:induction false} EncodeAppend(a: string, b: string)
    ensures Encode(a + b) == Encode(a) + Encode(b)
    decreases |a|
  {
    if a == [] {
      assert a + b == b;
    } else {
      assert (a + b)[0] == a[0];
      assert (a + b)[1..] == a[1..] + b;
      EncodeAppend(a[1..], b);
    }
  }

  /** A code point that is a Unicode scalar value, so a Dafny `char`. */
  predicate IsScalar(cp: int) {
    0 <= cp < 0xD800 || 0xE000 <= cp < 0x11_0000
  }

  /** The outcome of decoding the first UTF-8 sequence of a byte run: a code point, or an error, and the bytes used. */
  datatype Decoding = Decoding(ok: bool, cp: int, size: nat)

  /** Whether the byte at `i` exists and lies in `lo..hi`. */
  predicate ContinuesAt(b: seq<int>, i: nat, lo: int, hi: int) {
    i < |b| && lo <= b[i] <= hi
  }

  /**
   * The first step of the UTF-8 decoder of the Encoding standard. A lead
   * byte fixes how many continuation bytes follow and the range of the first
   * one (which rules out overlong forms, surrogates and code points past
   * U+10FFFF). An error uses the bytes before the first one that does not
   * fit, and at least the lead byte.
   */
  function DecodeFirst(b: seq<int>): (d: Decoding)
    requires b != []
    ensures 1 <= d.size <= |b|
    ensures d.ok ==> IsScalar(d.cp)
    ensures d.ok ==> (d.size == 1 <==> 0 <= b[0] < 0x80)
  {
    var lead := b[0];
    if 0 <= lead < 0x80 then Decoding(true, lead, 1)
    else if 0xC2 <= lead <= 0xDF then
      if ContinuesAt(b, 1, 0x80, 0xBF) then Decoding(true, (lead - 0xC0) * 64 + (b[1] - 0x80), 2)
      else Decoding(false, 0, 1)
    else if 0xE0 <= lead <= 0xEF then
      var lo := if lead == 0xE0 then 0xA0 else 0x80;
      var hi := if lead == 0xED then 0x9F else 0xBF;
      if !ContinuesAt(b, 1, lo, hi) then Decoding(false, 0, 1)
      else if !ContinuesAt(b, 2, 0x80, 0xBF) then Decoding(false, 0, 2)
      else Decoding(true, (lead - 0xE0) * 4096 + (b[1] - 0x80) * 64 + (b[2] - 0x80), 3)
    else if 0xF0 <= lead <= 0xF4 then
      var lo := if lead == 0xF0 then 0x90 else 0x80;
      var hi := if lead == 0xF4 then 0x8F else 0xBF;
      if !ContinuesAt(b, 1, lo, hi) then Decoding(false, 0, 1)
      else if !ContinuesAt(b, 2, 0x80, 0xBF) then Decoding(false, 0, 2)
      else if !ContinuesAt(b, 3, 0x80, 0xBF) then Decoding(false, 0, 3)
      else Decoding(true, (lead - 0xF0) * 262144 + (b[1] - 0x80) * 4096 + (b[2] - 0x80) * 64 + (b[3] - 0x80), 4)
    else Decoding(false, 0, 1)
  }

  /** The replacement character the decoder writes for each error. */
  const Replacement: char := '\U{FFFD}'

  /** UTF-8 decode without BOM: every error becomes U+FFFD and decoding goes on. */
  function Utf8Decode(b: seq<int>): (s: string)
    ensures |s| <= |b|
    decreases |b|
  {
    if b == [] then []
    else
      var d := DecodeFirst(b);
      [if d.ok then d.cp as char else Replacement] + Utf8Decode(b[d.size..])
  }

  /** UTF-8 decoding that gives up at the first error, as `decodeURIComponent` does. */
  function Utf8DecodeStrict(b: seq<int>): (r: Option<string>)
    ensures r.Some? ==> r.value == Utf8Decode(b)
    decreases |b|
  {
    if b == [] then Some([])
    else
      var d := DecodeFirst(b);
      if !d.ok then None
      else
        match Utf8DecodeStrict(b[d.size..])
        case Some(rest) => Some([d.cp as char] + rest)
        case None => None
  }

  /** A two-byte encoding decodes back to its code point. */
  lemma DecodeTwo(cp: int, b: seq<int>)
    requires 0x80 <= cp < 0x800
    requires |b| >= 2 && b[0] == 0xC0 + cp / 64 && b[1] == 0x80 + cp % 64
    ensures DecodeFirst(b) == Decoding(true, cp, 2)
  {
  }

  /** A three-byte encoding decodes back to its code point, which is not a surrogate. */
  lemma DecodeThree(cp: int, b: seq<int>)
    requires 0x800 <= cp < 0x10000 && IsScalar(cp)
    requires |b| >= 3 && b[0] == 0xE0 + cp / 4096 && b[1] == 0x80 + (cp / 64) % 64 && b[2] == 0x80 + cp % 64
    ensures DecodeFirst(b) == Decoding(true, cp, 3)
  {
    var q := cp / 64;
    assert cp / 4096 == q / 64;
    assert cp == 4096 * (q / 64) + 64 * (q % 64) + cp % 64;
  }

  /** A four-byte encoding decodes back to its code point, which is at most U+10FFFF. */
  lemma DecodeFour(cp: int, b: seq<int>)
    requires 0x10000 <= cp < 0x110000
    requires |b| >= 4 && b[0] == 0xF0 + cp / 262144 && b[1] == 0x80 + (cp / 4096) % 64
    requires b[2] == 0x80 + (cp / 64) % 64 && b[3] == 0x80 + cp % 64
    ensures DecodeFirst(b) == Decoding(true, cp, 4)
  {
    var q := cp / 64;
    var p := q / 64;
    assert cp / 4096 == p;
    assert cp / 262144 == p / 64;
    assert cp == 262144 * (p / 64) + 4096 * (p % 64) + 64 * (q % 64) + cp % 64;
  }

  /** The decoder reads the encoding of a character back as that character, whatever follows it. */
  lemma DecodeFirstOfUtf8(c: char, rest: seq<int>)
    ensures DecodeFirst(Utf8(c) + rest) == Decoding(true, c as int, |Utf8(c)|)
  {
    var cp := c as int;
    var b := Utf8(c) + rest;
    if cp < 0x80 {
    } else if cp < 0x800 {
      DecodeTwo(cp, b);
    } else if cp < 0x10000 {
      DecodeThree(cp, b);
    } else {
      DecodeFour(cp, b);
    }
  }

  /** The UTF-8 bytes of a string followed by anything decode to the string, then to what the rest decodes to. */
  lemma {:induction false} Utf8DecodeAfter(s: string, rest: seq<int>)
    ensures Utf8Decode(Utf8Bytes(s) + rest) == s + Utf8Decode(rest)
    ensures Utf8DecodeStrict(Utf8Bytes(s) + rest) ==
            (match Utf8DecodeStrict(rest) case Some(t) => Some(s + t) case None => None)
    decreases |s|
  {
    if s == [] {
      AppendEmpty(rest);
      AppendEmpty(Utf8Decode(rest));
      if Utf8DecodeStrict(rest).Some? {
        AppendEmpty(Utf8DecodeStrict(rest).value);
      }
    } else {
      var c := s[0];
      var tail := Utf8Bytes(s[1..]) + rest;
      var b := Utf8Bytes(s) + rest;
      AppendAssoc(Utf8(c), Utf8Bytes(s[1..]), rest);
      assert b == Utf8(c) + tail;
      DecodeFirstOfUtf8(c, tail);
      assert b[|Utf8(c)|..] == tail;
      Utf8DecodeAfter(s[1..], rest);
      assert Utf8Decode(b) == [c] + (s[1..] + Utf8Decode(rest));
      ConsAppend(s, Utf8Decode(rest));
      if Utf8DecodeStrict(rest).Some? {
        ConsAppend(s, Utf8DecodeStrict(rest).value);
      }
    }
  }

  /** UTF-8 decoding undoes UTF-8 encoding, leniently and strictly. */
  lemma Utf8RoundTrip(s: string)
    ensures Utf8Decode(Utf8Bytes(s)) == s
    ensures Utf8DecodeStrict(Utf8Bytes(s)) == Some(s)
  {
    Utf8DecodeAfter(s, []);
    AppendEmpty(Utf8Bytes(s));
    AppendEmpty(s);
  }

  /** The message of the `URIError` a JavaScript engine (V8) throws for a malformed escape. */
  const UriMalformed := "URI malformed"

  /**
   * ECMAScript's `decodeURIComponent`: every `%XY` escape stands for a byte
   * and the bytes must form well-formed UTF-8; otherwise it throws, which is
   * `None` here.
   */
  function DecodeComponent(s: string): (r: Option<string>)
    ensures r.Some? ==> DecodeToBytes(s).Some? && r.value == Utf8Decode(DecodeToBytes(s).value)
  {
    match DecodeToBytes(s)
    case Some(b) => Utf8DecodeStrict(b)
    case None => None
  }

  /** `decodeURIComponent` undoes `encodeURIComponent`. */
  lemma DecodeComponentOfEncode(s: string)
    ensures DecodeComponent(Encode(s)) == Some(s)
  {
    EncodeDecodesToUtf8(s);
    Utf8RoundTrip(s);
  }

  /** Text without `%` decodes to its own UTF-8 bytes. */
  lemma {:induction false} DecodeToBytesPlain(s: string)
    requires '%' !in s
    ensures DecodeToBytes(s) == Some(Utf8Bytes(s))
    decreases |s|
  {
    if s != [] {
      assert s[0] != '%';
      assert '%' !in s[1..] by {
        assert forall k :: 0 <= k < |s[1..]| ==> s[1..][k] == s[k + 1];
      }
      DecodeToBytesPlain(s[1..]);
    }
  }

  /** `decodeURIComponent` leaves text without `%` as it is. */
  lemma DecodeComponentPlain(s: string)
    requires '%' !in s
    ensures DecodeComponent(s) == Some(s)
  {
    DecodeToBytesPlain(s);
    Utf8RoundTrip(s);
  }

  /** A `%` at `i` with no two hexadecimal digits after it makes `decodeURIComponent` throw. */
  lemma {:induction false} LoneEscapeThrows(s: string, i: nat)
    requires i < |s| && s[i] == '%'
    requires i + 2 >= |s| || !IsHexDigit(s[i + 1]) || !IsHexDigit(s[i + 2])
    ensures DecodeToBytes(s).None?
    ensures DecodeComponent(s).None?
    decreases |s|
  {
    if i > 0 {
      if s[0] == '%' && |s| >= 3 && IsHexDigit(s[1]) && IsHexDigit(s[2]) {
        LoneEscapeThrows(s[3..], i - 3);
      } else if s[0] != '%' {
        LoneEscapeThrows(s[1..], i - 1);
      }
    }
  }
}
