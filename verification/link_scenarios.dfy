/** Player links worked through the browser's reading of their query. */
module LinkScenarios {
  import opened Nullable
  import opened Seqs
  import opened UriComponent
  import opened SearchParams
  import opened Handoff

  /** The characters of real video ids: ASCII letters and digits, `_` and `-`. */
  predicate IsIdChar(c: char) {
    'a' <= c <= 'z' || 'A' <= c <= 'Z' || '0' <= c <= '9' || c == '_' || c == '-'
  }

  /** Text made of id characters only. */
  predicate IdText(s: string) {
    forall i :: 0 <= i < |s| ==> IsIdChar(s[i])
  }

  /** Id characters are none of the characters a link or its query reading treats specially. */
  lemma IdTextIsFree(id: string)
    requires IdText(id)
    ensures FreeOf([id], '&') && FreeOf([id], '#') && FreeOf([id], ',') && FreeOf([id], '%')
    ensures FreeOf([id], '+') && FreeOf([id], '\t') && FreeOf([id], '\n') && FreeOf([id], '\r')
  {
  }

  /** A single id of id characters is read back as itself. */
  lemma IdTextDecodes(id: string)
    requires IdText(id)
    ensures DecodeValue(Filter(Join([id], ','), KeptInUrl)) == id
  {
    assert Join([id], ',') == id;
    FilterAll(id, KeptInUrl);
    DecodePlain(id);
  }

  /** A link for one real-looking id reads back as that id and the name. */
  lemma OneIdLinkReadsBack(id: string, name: string)
    requires IdText(id)
    ensures Get(LinkQuery(PlayerTarget([id], Encode(name))), "v") == Some(id)
    ensures Get(LinkQuery(PlayerTarget([id], Encode(name))), "to") == Some(name)
    ensures Ids(DecodeTracks(Get(LinkQuery(PlayerTarget([id], Encode(name))), "v"))) == [id]
  {
    IdTextIsFree(id);
    IdTextDecodes(id);
    TargetFields([id], Encode(name));
    LinkCarriesName([id], name);
    LinkCarriesPlainIds([id], Encode(name));
  }

  /** What the characters of `a+b` are, and how it arrives. */
  lemma PlusIdFacts(a: string, b: string)
    requires IdText(a) && IdText(b)
    ensures FreeOf([a + "+" + b], '&') && FreeOf([a + "+" + b], '#')
    ensures FreeOf([a + "+" + b], ',') && FreeOf([a + "+" + b], '%')
    ensures Map([a + "+" + b], Arrived) == [a + " " + b]
  {
    var id := a + "+" + b;
    assert forall i :: 0 <= i < |id| ==> IsIdChar(id[i]) || id[i] == '+';
    FilterAll(id, KeptInUrl);
    MapAppend(a + "+", b, PlusAsSpace);
    MapAppend(a, "+", PlusAsSpace);
    MapIdentity(a, PlusAsSpace);
    MapIdentity(b, PlusAsSpace);
    assert Map("+", PlusAsSpace) == " ";
  }

  /** An id of the shape `a+b` arrives as `a b`, for example `a+bcdefghij` as `a bcdefghij`. */
  lemma PlusInIdArrivesAsSpace(a: string, b: string, name: string)
    requires IdText(a) && IdText(b)
    ensures Ids(DecodeTracks(Get(LinkQuery(PlayerTarget([a + "+" + b], Encode(name))), "v"))) == [a + " " + b]
  {
    PlusIdFacts(a, b);
    LinkCarriesIds([a + "+" + b], Encode(name));
  }

  /** The bytes an id of the shape `%41b` stands for. */
  lemma EscapeIdBytes(b: string)
    requires IdText(b)
    ensures DecodeToBytes("%41" + b) == Some(Utf8Bytes("A" + b))
  {
    EncodeIdentity(b);
    EncodeDecodesToUtf8(b);
    DecodePercentByte(0x41, b);
    assert PercentByte(0x41) == "%41";
    assert Utf8Bytes("A" + b) == [0x41] + Utf8Bytes(b);
  }

  /** What the characters of `%41b` are. */
  lemma EscapeIdChars(b: string)
    requires IdText(b)
    ensures FreeOf(["%41" + b], '&') && FreeOf(["%41" + b], '#') && '+' !in "%41" + b
    ensures Filter(Join(["%41" + b], ','), KeptInUrl) == "%41" + b
  {
    var id := "%41" + b;
    assert forall i :: 0 <= i < |id| ==> IsIdChar(id[i]) || id[i] == '%';
    assert Join([id], ',') == id;
    FilterAll(id, KeptInUrl);
  }

  /** How `%41b` decodes. */
  lemma EscapeIdFacts(b: string)
    requires IdText(b)
    ensures FreeOf(["%41" + b], '&') && FreeOf(["%41" + b], '#')
    ensures DecodeValue(Filter(Join(["%41" + b], ','), KeptInUrl)) == "A" + b
  {
    EscapeIdChars(b);
    EscapeIdBytes(b);
    DecodeEscaped("%41" + b);
    Utf8RoundTrip("A" + b);
  }

  /** An id of the shape `%41b` arrives as `Ab`, for example `%41bcdefghij` as the ten characters `Abcdefghij`. */
  lemma EscapeInIdIsDecoded(b: string, name: string)
    requires IdText(b)
    ensures Get(LinkQuery(PlayerTarget(["%41" + b], Encode(name))), "v") == Some("A" + b)
  {
    EscapeIdFacts(b);
    TargetFields(["%41" + b], Encode(name));
  }
}
