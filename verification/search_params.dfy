/**
 * How the player page reads its query: `URLSearchParams`, which splits the
 * query on `&`, splits each field at its first `=`, and decodes name and
 * value as `application/x-www-form-urlencoded` text (the URL standard):
 * `+` is a space, `%XY` is the byte 0xXY, and the bytes are read as UTF-8.
 */
module SearchParams {
  import opened Nullable
  import opened Seqs
  import opened UriComponent

  /** A byte that is an ASCII hexadecimal digit. */
  predicate IsHexByte(b: int) {
    0 <= b < 0x80 && IsHexDigit(b as char)
  }

  /**
   * Percent-decoding of a byte run: `%` and two hexadecimal digits become the
   * byte they spell, and every other byte, a `%` without two digits after it
   * included, stays as it is.
   */
  function PercentDecode(b: seq<int>): (r: seq<int>)
    ensures |r| <= |b|
    decreases |b|
  {
    if b == [] then []
    else if b[0] == 0x25 && |b| >= 3 && IsHexByte(b[1]) && IsHexByte(b[2]) then
      [16 * HexValue(b[1] as char) + HexValue(b[2] as char)] + PercentDecode(b[3..])
    else [b[0]] + PercentDecode(b[1..])
  }

  /** `+` read as a space, every other byte as itself. */
  function PlusByteAsSpace(b: int): int {
    if b == 0x2B then 0x20 else b
  }

  /** `+` read as a space, every other character as itself. */
  function PlusAsSpace(c: char): char {
    if c == '+' then ' ' else c
  }

  /** The decoded form of a field name or value. */
  function DecodeValue(s: string): string {
    Utf8Decode(PercentDecode(Map(Utf8Bytes(s), PlusByteAsSpace)))
  }

  /** The name of a field: the text before its first `=`, or all of it when there is none. */
  function FieldName(field: string): string {
    field[..FirstFrom(field, 0, Is('='))]
  }

  /** The value of a field: the text after its first `=`, or nothing when there is none. */
  function FieldValue(field: string): string {
    var e := FirstFrom(field, 0, Is('='));
    if e < |field| then field[e + 1..] else ""
  }

  /** Whether a field is a pair (empty fields are skipped) whose decoded name is `key`. */
  predicate HasName(field: string, key: string) {
    field != "" && DecodeValue(FieldName(field)) == key
  }

  /** `HasName` as a function value, for the search through the fields. */
  function NamedAs(key: string): string -> bool {
    (field: string) => HasName(field, key)
  }

  /** The search for a name stops at the first field that has it. */
  lemma FirstNamed(fields: seq<string>, key: string)
    ensures var i := FirstFrom(fields, 0, NamedAs(key));
            (i < |fields| ==> HasName(fields[i], key)) &&
            forall j :: 0 <= j < i ==> !HasName(fields[j], key)
  {
    var i := FirstFrom(fields, 0, NamedAs(key));
    assert forall j :: 0 <= j < i ==> !NamedAs(key)(fields[j]);
  }

  /** The decoded value of the first of the fields named `key`, or `null` when none is. */
  function Lookup(fields: seq<string>, key: string): (r: Option<string>)
    ensures r.None? <==> forall i :: 0 <= i < |fields| ==> !HasName(fields[i], key)
    ensures r.Some? ==> exists i :: 0 <= i < |fields| && HasName(fields[i], key) &&
                          (forall j :: 0 <= j < i ==> !HasName(fields[j], key)) &&
                          r.value == DecodeValue(FieldValue(fields[i]))
  {
    var i := FirstFrom(fields, 0, NamedAs(key));
    FirstNamed(fields, key);
    if i < |fields| then Some(DecodeValue(FieldValue(fields[i]))) else None
  }

  /** `searchParams.get(key)` on a query string. */
  function Get(query: string, key: string): Option<string> {
    Lookup(Split(query, '&'), key)
  }

  /** A field `name=value` whose name holds no `=` splits back into that name and value. */
  lemma PairParts(name: string, value: string)
    requires '=' !in name
    ensures FieldName(name + "=" + value) == name
    ensures FieldValue(name + "=" + value) == value
  {
    var f := name + "=" + value;
    var e := FirstFrom(f, 0, Is('='));
    assert f[|name|] == '=';
    assert forall k :: 0 <= k < |name| ==> f[k] == name[k];
    assert e == |name|;
    assert f[..e] == name;
    assert f[e + 1..] == value;
  }

  /** A byte below 0x80 occurs in the encoding of a character only as the whole encoding of that very character. */
  lemma Utf8Ascii(c: char, x: int)
    requires 0 <= x < 0x80
    ensures x in Utf8(c) <==> c as int == x
  {
    var b := Utf8(c);
    if |b| > 1 {
      assert forall i :: 0 <= i < |b| ==> b[i] >= 0x80;
    }
  }

  /** A byte below 0x80 occurs in the UTF-8 bytes of a string exactly when its character occurs in the string. */
  lemma {:induction false} AsciiInBytes(s: string, x: int)
    requires 0 <= x < 0x80
    ensures x in Utf8Bytes(s) <==> x as char in s
    decreases |s|
  {
    if s != [] {
      AsciiInBytes(s[1..], x);
      Utf8Ascii(s[0], x);
      assert Utf8Bytes(s) == Utf8(s[0]) + Utf8Bytes(s[1..]);
      assert s == [s[0]] + s[1..];
    }
  }

  /** A map that sends every element to itself changes nothing. */
  lemma MapIdentity<T>(s: seq<T>, f: T -> T)
    requires forall i :: 0 <= i < |s| ==> f(s[i]) == s[i]
    ensures Map(s, f) == s
  {
  }

  /** Reading `+` as a space on the bytes is reading it so on the characters. */
  lemma {:induction false} PlusBytes(s: string)
    ensures Map(Utf8Bytes(s), PlusByteAsSpace) == Utf8Bytes(Map(s, PlusAsSpace))
    decreases |s|
  {
    if s != [] {
      var c := s[0];
      PlusBytes(s[1..]);
      MapAppend(Utf8(c), Utf8Bytes(s[1..]), PlusByteAsSpace);
      var m := Map(s, PlusAsSpace);
      assert m[0] == PlusAsSpace(c);
      assert m[1..] == Map(s[1..], PlusAsSpace);
      assert Utf8Bytes(m) == Utf8(m[0]) + Utf8Bytes(m[1..]);
      if c == '+' {
        assert Map(Utf8(c), PlusByteAsSpace) == [0x20];
      } else {
        Utf8Ascii(c, 0x2B);
        MapIdentity(Utf8(c), PlusByteAsSpace);
      }
    }
  }

  /** Bytes before any `%` pass through percent-decoding unchanged. */
  lemma {:induction false} PercentDecodeSkips(p: seq<int>, rest: seq<int>)
    requires 0x25 !in p
    ensures PercentDecode(p + rest) == p + PercentDecode(rest)
    decreases |p|
  {
    if p == [] {
      AppendEmpty(rest);
      AppendEmpty(PercentDecode(rest));
    } else {
      assert (p + rest)[0] == p[0];
      assert (p + rest)[1..] == p[1..] + rest;
      PercentDecodeSkips(p[1..], rest);
      ConsAppend(p, PercentDecode(rest));
    }
  }

  /** Percent-decoding the bytes of a well-formed escaped text gives the bytes `decodeURIComponent` reads from it. */
  lemma {:induction false} PercentDecodeAgrees(t: string)
    requires DecodeToBytes(t).Some?
    ensures PercentDecode(Utf8Bytes(t)) == DecodeToBytes(t).value
    decreases |t|
  {
    if t != [] {
      var b := Utf8Bytes(t);
      if t[0] == '%' {
        var x, y := t[1], t[2];
        PercentDecodeAgrees(t[3..]);
        assert t[1..][1..] == t[2..] && t[2..][1..] == t[3..];
        assert Utf8Bytes(t[1..]) == Utf8(x) + Utf8Bytes(t[2..]);
        assert Utf8Bytes(t[2..]) == Utf8(y) + Utf8Bytes(t[3..]);
        assert b == [0x25, x as int, y as int] + Utf8Bytes(t[3..]);
        assert b[3..] == Utf8Bytes(t[3..]);
      } else {
        PercentDecodeAgrees(t[1..]);
        Utf8Ascii(t[0], 0x25);
        PercentDecodeSkips(Utf8(t[0]), Utf8Bytes(t[1..]));
      }
    }
  }

  /** Without escapes, decoding only reads `+` as a space. */
  lemma DecodeUnescaped(s: string)
    requires '%' !in s
    ensures DecodeValue(s) == Map(s, PlusAsSpace)
  {
    var m := Map(s, PlusAsSpace);
    PlusBytes(s);
    assert '%' !in m;
    AsciiInBytes(m, 0x25);
    PercentDecodeSkips(Utf8Bytes(m), []);
    AppendEmpty(Utf8Bytes(m));
    AppendEmpty(PercentDecode([]));
    Utf8RoundTrip(m);
  }

  /** Text without `+` and `%` decodes to itself. */
  lemma DecodePlain(s: string)
    requires '+' !in s && '%' !in s
    ensures DecodeValue(s) == s
  {
    DecodeUnescaped(s);
    MapIdentity(s, PlusAsSpace);
  }

  /** Without `+`, decoding a well-formed escaped text is what `decodeURIComponent` gives when it does not throw. */
  lemma DecodeEscaped(t: string)
    requires '+' !in t
    requires DecodeToBytes(t).Some?
    ensures DecodeValue(t) == Utf8Decode(DecodeToBytes(t).value)
  {
    PlusBytes(t);
    MapIdentity(t, PlusAsSpace);
    PercentDecodeAgrees(t);
  }

  /** The query decoding undoes `encodeURIComponent`. */
  lemma DecodeEncoded(s: string)
    ensures DecodeValue(Encode(s)) == s
  {
    var e := Encode(s);
    assert '+' !in e by {
      assert forall i :: 0 <= i < |e| ==> e[i] == '%' || IsUnreserved(e[i]);
    }
    EncodeDecodesToUtf8(s);
    DecodeEscaped(e);
    Utf8RoundTrip(s);
  }
}
