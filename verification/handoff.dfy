/**
 * The link that carries a mixtape from the form (or the API route) to the
 * player page: `/player?v=<ids joined by ','>&to=<encoded name>`, and the
 * player's reading of the `v` parameter back into a track list.
 */
module Handoff {
  import opened Nullable
  import opened Seqs
  import opened UriComponent
  import opened SearchParams

  /** The path and the start of the query of every player link. */
  const PlayerPath := "/player?"

  /** The watch page each decoded track points at. */
  const WatchPrefix := "https://www.youtube.com/watch?v="

  /** One entry of the player's tape. */
  datatype Track = Track(id: string, url: string)

  /** The video id of a track, as a function value shared by every use. */
  function TrackId(t: Track): string {
    t.id
  }

  /** The ids of a track list, in order. */
  function Ids(tracks: seq<Track>): (ids: seq<string>)
    ensures |ids| == |tracks|
    ensures forall i :: 0 <= i < |tracks| ==> ids[i] == tracks[i].id
  {
    Map(tracks, TrackId)
  }

  /** The track the player builds for one id. */
  function TrackFor(id: string): Track {
    Track(id, WatchPrefix + id)
  }

  /**
   * The player link for a list of ids and an already encoded recipient name.
   * The query holds exactly two fields, `v` first and `to` second.
   */
  function PlayerTarget(ids: seq<string>, encodedName: string): (r: string)
    ensures |PlayerPath| <= |r| && r[..|PlayerPath|] == PlayerPath
    ensures r[|PlayerPath|..] == Join(["v=" + Join(ids, ','), "to=" + encodedName], '&')
  {
    "/player?v=" + Join(ids, ',') + "&to=" + encodedName
  }

  /** The characters a URL parser drops wherever they occur: tab, line feed and carriage return. */
  function KeptInUrl(c: char): bool {
    c != '\t' && c != '\n' && c != '\r'
  }

  /**
   * The query of a link as the page it leads to reads it: the URL parser
   * drops tabs and newlines, the fragment starts at the first `#`, and the
   * query is what lies between the first `?` and the fragment. (The parser
   * also escapes some characters of the query, which the query decoding
   * undoes byte for byte, and trims spaces and controls at both ends, which
   * a player link, starting with `/` and ending in escaped text, never has.)
   */
  function LinkQuery(link: string): (q: string)
    ensures forall i :: 0 <= i < |q| ==> KeptInUrl(q[i]) && q[i] != '#'
  {
    QueryPart(Filter(link, KeptInUrl))
  }

  /** The text between the first `?` and the first `#` after it, of a link already rid of tabs and newlines. */
  function QueryPart(t: string): (q: string)
    ensures forall i :: 0 <= i < |q| ==> q[i] in t && q[i] != '#'
  {
    var u := t[..FirstFrom(t, 0, Is('#'))];
    var start := FirstFrom(u, 0, Is('?'));
    if start < |u| then
      assert forall i :: start + 1 <= i < |u| ==> u[i] == t[i];
      u[start + 1..]
    else ""
  }

  /**
   * The player's tracks for the `v` parameter: absent gives no tracks,
   * present gives one track per `,`-separated piece, in order, so an empty
   * `v` gives one track with an empty id.
   */
  function DecodeTracks(v: Option<string>): (r: seq<Track>)
    ensures v.None? <==> r == []
    ensures forall i :: 0 <= i < |r| ==> ',' !in r[i].id && r[i].url == WatchPrefix + r[i].id
    ensures v.Some? ==> Join(Ids(r), ',') == v.value
  {
    match v
    case None => []
    case Some(text) =>
      var r := Map(Split(text, ','), TrackFor);
      assert Ids(r) == Split(text, ',');
      JoinSplit(text, ',');
      r
  }

  /** No id of the list contains the separator `sep`. */
  predicate FreeOf(ids: seq<string>, sep: char) {
    forall i :: 0 <= i < |ids| ==> sep !in ids[i]
  }

  /** The player gets back exactly the ids the link was made from, when there is one at least and none holds a comma. */
  lemma HandoffRoundTrip(ids: seq<string>)
    requires |ids| >= 1
    requires FreeOf(ids, ',')
    ensures Ids(DecodeTracks(Some(Join(ids, ',')))) == ids
  {
    SplitJoin(ids, ',');
    var r := DecodeTracks(Some(Join(ids, ',')));
    assert r == Map(ids, TrackFor);
    assert forall i :: 0 <= i < |ids| ==> Ids(r)[i] == ids[i];
  }

  /** A link made from no ids at all reaches the player as one track with an empty id. */
  lemma EmptyHandoffGivesOneBlankTrack()
    ensures DecodeTracks(Some(Join([], ','))) == [Track("", WatchPrefix)]
  {
    assert Join([], ',') == "";
    assert Split("", ',') == [""];
    assert WatchPrefix + "" == WatchPrefix;
    assert Map([""], TrackFor) == [Track("", WatchPrefix)];
  }

  /** An id with a comma reaches the player as more than one track. */
  lemma CommaSplitsId(id: string)
    requires ',' in id
    ensures |DecodeTracks(Some(Join([id], ',')))| > 1
  {
    assert Join([id], ',') == id;
    var r := DecodeTracks(Some(id));
    assert forall i :: 0 <= i < |Ids(r)| ==> ',' !in Ids(r)[i];
  }

  /** Separating the first field off a query. */
  lemma SplitTwoFields(a: string, b: string)
    requires '&' !in a && '&' !in b
    ensures Split(a + "&" + b, '&') == [a, b]
  {
    assert a + "&" + b == a + ['&'] + b;
    SplitCons(a, b, '&');
  }

  /** After the player path, the query runs to the end of a link without `#`. */
  lemma QueryAfterPath(rest: string)
    requires '#' !in rest
    ensures QueryPart(PlayerPath + rest) == rest
  {
    var t := PlayerPath + rest;
    assert forall i :: 0 <= i < |t| ==> t[i] != '#';
    assert t[..FirstFrom(t, 0, Is('#'))] == t;
    assert t[7] == '?';
    assert FirstFrom(t, 0, Is('?')) == 7;
    assert t[8..] == rest;
  }

  /** A leading part without tabs and newlines is kept whole in front of whatever follows. */
  lemma KeptPrefix(p: string, rest: string)
    requires '\t' !in p && '\n' !in p && '\r' !in p
    ensures Filter(p + rest, KeptInUrl) == p + Filter(rest, KeptInUrl)
  {
    FilterAll(p, KeptInUrl);
    FilterAppend(p, rest, KeptInUrl);
  }

  /** Escaped text holds no tab or newline. */
  lemma EncodedKept(encodedName: string)
    requires IsEncodedText(encodedName)
    ensures Filter(encodedName, KeptInUrl) == encodedName
  {
    assert forall i :: 0 <= i < |encodedName| ==> encodedName[i] == '%' || IsUnreserved(encodedName[i]);
    FilterAll(encodedName, KeptInUrl);
  }

  /** The tabs and newlines of a player link are those of its ids. */
  lemma FilteredTarget(ids: seq<string>, encodedName: string)
    requires IsEncodedText(encodedName)
    ensures Filter(PlayerTarget(ids, encodedName), KeptInUrl) ==
            PlayerPath + ("v=" + (Filter(Join(ids, ','), KeptInUrl) + ("&to=" + encodedName)))
  {
    var j := Join(ids, ',');
    var x3 := "&to=" + encodedName;
    var x2 := j + x3;
    var x1 := "v=" + x2;
    assert PlayerTarget(ids, encodedName) == PlayerPath + x1;
    KeptPrefix(PlayerPath, x1);
    KeptPrefix("v=", x2);
    KeptNameField(j, encodedName);
  }

  /** The ids, then the `to` field of an escaped name: only the ids lose characters. */
  lemma KeptNameField(joined: string, encodedName: string)
    requires IsEncodedText(encodedName)
    ensures Filter(joined + ("&to=" + encodedName), KeptInUrl) == Filter(joined, KeptInUrl) + ("&to=" + encodedName)
  {
    EncodedKept(encodedName);
    FilterAppend(joined, "&to=" + encodedName, KeptInUrl);
    KeptPrefix("&to=", encodedName);
  }

  /** The query the player reads from its link: the `v` field, with tabs and newlines gone, then the `to` field. */
  lemma TargetQuery(ids: seq<string>, encodedName: string)
    requires FreeOf(ids, '#')
    requires IsEncodedText(encodedName)
    ensures LinkQuery(PlayerTarget(ids, encodedName)) ==
            "v=" + Filter(Join(ids, ','), KeptInUrl) + "&to=" + encodedName
  {
    var j := Join(ids, ',');
    var fj := Filter(j, KeptInUrl);
    var rest := "v=" + (fj + ("&to=" + encodedName));
    FilteredTarget(ids, encodedName);
    JoinFreeOf(ids, ',', '#');
    FilterMembers(j, KeptInUrl);
    assert '#' !in fj by {
      assert forall i :: 0 <= i < |fj| ==> fj[i] in j;
    }
    assert '#' !in encodedName by {
      assert forall i :: 0 <= i < |encodedName| ==> encodedName[i] == '%' || IsUnreserved(encodedName[i]);
    }
    assert '#' !in rest;
    QueryAfterPath(rest);
    AppendRight("v=", fj, "&to=", encodedName);
  }

  /** The player link's query splits on `&` into its `v` field and its `to` field. */
  lemma TargetSplit(v: string, encodedName: string)
    requires '&' !in v
    requires IsEncodedText(encodedName)
    ensures Split("v=" + v + "&to=" + encodedName, '&') == ["v=" + v, "to=" + encodedName]
  {
    var f1 := "v=" + v;
    var f2 := "to=" + encodedName;
    assert '&' !in f1 by {
      assert forall i :: 2 <= i < |f1| ==> f1[i] == v[i - 2];
    }
    assert '&' !in f2 by {
      assert forall i :: 3 <= i < |f2| ==> f2[i] == encodedName[i - 3];
      assert forall i :: 0 <= i < |encodedName| ==> encodedName[i] == '%' || IsUnreserved(encodedName[i]);
    }
    assert "v=" + v + "&to=" + encodedName == f1 + "&" + f2;
    SplitTwoFields(f1, f2);
  }

  /** The names `v` and `to` need no decoding. */
  lemma PlainNames()
    ensures DecodeValue("v") == "v" && DecodeValue("to") == "to"
  {
    DecodePlain("v");
    DecodePlain("to");
  }

  /** The `v` field, first of the two, is found under `v`, its value decoded. */
  lemma FirstFieldIsV(v: string, other: string)
    ensures Lookup(["v=" + v, other], "v") == Some(DecodeValue(v))
  {
    assert "v" + "=" + v == "v=" + v;
    PairParts("v", v);
    PlainNames();
    assert HasName(["v=" + v, other][0], "v");
  }

  /** The `to` field is found under `to`: the `v` field before it has another name. */
  lemma SecondFieldIsTo(v: string, encodedName: string)
    ensures Lookup(["v=" + v, "to=" + encodedName], "to") == Some(DecodeValue(encodedName))
  {
    var fields := ["v=" + v, "to=" + encodedName];
    assert "v" + "=" + v == "v=" + v;
    assert "to" + "=" + encodedName == "to=" + encodedName;
    PairParts("v", v);
    PairParts("to", encodedName);
    PlainNames();
    assert !HasName(fields[0], "to");
    assert HasName(fields[1], "to");
  }

  /**
   * What the player reads from a link it is sent to: under `v` the joined
   * ids, without tabs and newlines and then decoded; under `to` the decoded
   * name.
   */
  lemma TargetFields(ids: seq<string>, encodedName: string)
    requires FreeOf(ids, '&') && FreeOf(ids, '#')
    requires IsEncodedText(encodedName)
    ensures Get(LinkQuery(PlayerTarget(ids, encodedName)), "v") ==
            Some(DecodeValue(Filter(Join(ids, ','), KeptInUrl)))
    ensures Get(LinkQuery(PlayerTarget(ids, encodedName)), "to") == Some(DecodeValue(encodedName))
  {
    var fj := Filter(Join(ids, ','), KeptInUrl);
    TargetQuery(ids, encodedName);
    JoinFreeOf(ids, ',', '&');
    FilterMembers(Join(ids, ','), KeptInUrl);
    assert '&' !in fj;
    TargetSplit(fj, encodedName);
    FirstFieldIsV(fj, "to=" + encodedName);
    SecondFieldIsTo(fj, encodedName);
  }

  /** What becomes of an id on its way through a link: tabs and newlines are dropped and `+` reads as a space. */
  function Arrived(id: string): string {
    Map(Filter(id, KeptInUrl), PlusAsSpace)
  }

  /** Dropping and reading characters one by one commutes with joining by a comma, which is kept and read as itself. */
  lemma {:induction false} ArrivedJoin(ids: seq<string>)
    requires |ids| >= 1
    ensures Map(Filter(Join(ids, ','), KeptInUrl), PlusAsSpace) == Join(Map(ids, Arrived), ',')
    decreases |ids|
  {
    if |ids| > 1 {
      ArrivedJoin(ids[1..]);
      var rest := Join(ids[1..], ',');
      assert Join(ids, ',') == ids[0] + [','] + rest;
      FilterAppend(ids[0] + [','], rest, KeptInUrl);
      FilterAppend(ids[0], [','], KeptInUrl);
      assert Filter([','], KeptInUrl) == [','];
      var a, b := Filter(ids[0], KeptInUrl), Filter(rest, KeptInUrl);
      MapAppend(a + [','], b, PlusAsSpace);
      MapAppend(a, [','], PlusAsSpace);
      assert Map([','], PlusAsSpace) == [','];
      assert Map(ids, Arrived) == [Arrived(ids[0])] + Map(ids[1..], Arrived);
      JoinCons(Arrived(ids[0]), Map(ids[1..], Arrived), ',');
    }
  }

  /**
   * The player's tracks from a link made of ids without `&`, `#`, `,` and
   * `%`: one per id, each id as it arrives.
   */
  lemma LinkCarriesIds(ids: seq<string>, encodedName: string)
    requires |ids| >= 1
    requires FreeOf(ids, '&') && FreeOf(ids, '#') && FreeOf(ids, ',') && FreeOf(ids, '%')
    requires IsEncodedText(encodedName)
    ensures Ids(DecodeTracks(Get(LinkQuery(PlayerTarget(ids, encodedName)), "v"))) == Map(ids, Arrived)
  {
    TargetFields(ids, encodedName);
    ArrivingValue(ids);
    HandoffRoundTrip(Map(ids, Arrived));
  }

  /** Without `%` the decoded `v` value is the arrived ids joined by commas, none of which holds a comma. */
  lemma ArrivingValue(ids: seq<string>)
    requires |ids| >= 1
    requires FreeOf(ids, ',') && FreeOf(ids, '%')
    ensures DecodeValue(Filter(Join(ids, ','), KeptInUrl)) == Join(Map(ids, Arrived), ',')
    ensures FreeOf(Map(ids, Arrived), ',')
  {
    var fj := Filter(Join(ids, ','), KeptInUrl);
    JoinFreeOf(ids, ',', '%');
    FilterMembers(Join(ids, ','), KeptInUrl);
    assert '%' !in fj;
    DecodeUnescaped(fj);
    ArrivedJoin(ids);
    var arrived := Map(ids, Arrived);
    forall i | 0 <= i < |arrived|
      ensures ',' !in arrived[i]
    {
      FilterMembers(ids[i], KeptInUrl);
    }
  }

  /** Ids without `+`, tabs and newlines as well arrive exactly as they left. */
  lemma LinkCarriesPlainIds(ids: seq<string>, encodedName: string)
    requires |ids| >= 1
    requires FreeOf(ids, '&') && FreeOf(ids, '#') && FreeOf(ids, ',') && FreeOf(ids, '%')
    requires FreeOf(ids, '+') && FreeOf(ids, '\t') && FreeOf(ids, '\n') && FreeOf(ids, '\r')
    requires IsEncodedText(encodedName)
    ensures Ids(DecodeTracks(Get(LinkQuery(PlayerTarget(ids, encodedName)), "v"))) == ids
  {
    LinkCarriesIds(ids, encodedName);
    forall i | 0 <= i < |ids|
      ensures Arrived(ids[i]) == ids[i]
    {
      ArrivedPlain(ids[i]);
    }
  }

  /** An id without `+`, tabs and newlines arrives unchanged. */
  lemma ArrivedPlain(id: string)
    requires '+' !in id && '\t' !in id && '\n' !in id && '\r' !in id
    ensures Arrived(id) == id
  {
    FilterAll(id, KeptInUrl);
    MapIdentity(id, PlusAsSpace);
  }

  /** The player reads the encoded name under `to` as the name itself. */
  lemma LinkCarriesName(ids: seq<string>, name: string)
    requires FreeOf(ids, '&') && FreeOf(ids, '#')
    ensures Get(LinkQuery(PlayerTarget(ids, Encode(name))), "to") == Some(name)
  {
    TargetFields(ids, Encode(name));
    DecodeEncoded(name);
  }

  /** Joining pieces that avoid a character, with a different separator, avoids it too. */
  lemma {:induction false} JoinFreeOf(parts: seq<string>, sep: char, c: char)
    requires sep != c
    requires FreeOf(parts, c)
    ensures c !in Join(parts, sep)
    decreases |parts|
  {
    if |parts| > 1 {
      JoinFreeOf(parts[1..], sep, c);
      var r := Join(parts, sep);
      assert r == parts[0] + [sep] + Join(parts[1..], sep);
      assert c !in parts[0];
    }
  }
}
