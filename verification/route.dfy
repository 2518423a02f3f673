/**
 * The `POST /api/mixtape` handler as a function from the submitted form
 * fields to the response: the same extraction as the form, with its own
 * validation and no default name.
 */
module MixtapeRoute {
  import opened Nullable
  import opened Seqs
  import opened YoutubeId
  import opened UriComponent
  import opened SearchParams
  import opened Handoff
  import opened MixtapeForm

  const MissingFieldsError := "Missing required fields"

  /** The mixtape record the handler returns; `id` and `createdAt` come from the clock. */
  datatype Mixtape = Mixtape(id: string, recipientName: string, tracks: seq<string>, createdAt: string)

  /** The two responses the handler gives to a readable form. */
  datatype Response = BadRequest(error: string) | Success(data: Mixtape, playerUrl: string) {
    /** The HTTP status code. */
    function Status(): int {
      if BadRequest? then 400 else 200
    }
  }

  /** JavaScript's `Boolean(x)` on a nullable string: present and non-empty. */
  function Truthy(o: Option<string>): bool {
    o.Some? && o.value != ""
  }

  /** `urls.map(extract).filter(Boolean)`: the extracted ids in submission order. */
  function RouteIds(urls: seq<string>): (ids: seq<string>)
    ensures |ids| <= |urls|
    ensures forall i :: 0 <= i < |ids| ==> IsExtractedId(ids[i])
  {
    var opts := Map(urls, GetYoutubeId);
    var kept := Filter(opts, Truthy);
    forall k | 0 <= k < |opts| && opts[k].Some? ensures IsExtractedId(opts[k].value) {
      ExtractedIdShape(urls[k]);
    }
    FilterMembers(opts, Truthy);
    forall k | 0 <= k < |kept| && kept[k].Some? ensures IsExtractedId(kept[k].value) {
      var j :| 0 <= j < |opts| && opts[j] == kept[k];
    }
    ValuesKeep(kept, IsExtractedId);
    Values(kept)
  }

  /**
   * The handler: a missing or empty name, or no url field at all, gives 400;
   * otherwise 200 with the ids (possibly none) and the player link of the
   * ids and the encoded name.
   */
  function Post(recipientName: Option<string>, urls: seq<string>, id: string, createdAt: string): (r: Response)
    ensures r.BadRequest? <==> recipientName.None? || recipientName.value == "" || urls == []
    ensures r.BadRequest? ==> r.error == MissingFieldsError && r.Status() == 400
    ensures r.Success? ==>
              r.Status() == 200 &&
              r.data == Mixtape(id, recipientName.value, RouteIds(urls), createdAt) &&
              r.playerUrl == PlayerTarget(RouteIds(urls), Encode(recipientName.value))
  {
    if recipientName.None? || recipientName.value == "" || |urls| == 0 then
      BadRequest(MissingFieldsError)
    else
      var name := recipientName.value;
      var ids := RouteIds(urls);
      Success(Mixtape(id, name, ids, createdAt), PlayerTarget(ids, Encode(name)))
  }

  /**
   * What the player reads from the handler's link: under `v` the ids joined
   * by commas, tabs and newlines dropped, decoded; under `to` the name as
   * submitted.
   */
  lemma PostLinkFields(name: string, urls: seq<string>, id: string, createdAt: string)
    requires name != "" && urls != []
    ensures var link := Post(Some(name), urls, id, createdAt).playerUrl;
            Get(LinkQuery(link), "v") == Some(DecodeValue(Filter(Join(RouteIds(urls), ','), KeptInUrl))) &&
            Get(LinkQuery(link), "to") == Some(name)
  {
    ExtractedIdsFitTheQuery(RouteIds(urls));
    TargetFields(RouteIds(urls), Encode(name));
    LinkCarriesName(RouteIds(urls), name);
  }

  /** `filter(Boolean)` drops exactly the failed extractions: an extracted id is never empty. */
  lemma RouteIdsAreExtractions(urls: seq<string>)
    ensures RouteIds(urls) == Values(Map(urls, GetYoutubeId))
  {
    var opts := Map(urls, GetYoutubeId);
    forall k | 0 <= k < |opts| && opts[k].Some? ensures opts[k].value != "" {
      ExtractedIdShape(urls[k]);
    }
    TruthyDropsOnlyNone(opts);
  }

  lemma {:induction false} TruthyDropsOnlyNone(opts: seq<Option<string>>)
    requires forall k :: 0 <= k < |opts| && opts[k].Some? ==> opts[k].value != ""
    ensures Values(Filter(opts, Truthy)) == Values(opts)
    decreases |opts|
  {
    if opts != [] {
      TruthyDropsOnlyNone(opts[1..]);
      var head := if Truthy(opts[0]) then [opts[0]] else [];
      assert Filter(opts, Truthy) == head + Filter(opts[1..], Truthy);
      ValuesAppend(head, Filter(opts[1..], Truthy));
      assert Values(head) == if opts[0].Some? then [opts[0].value] else [];
    }
  }

  /**
   * Unlike the form, the handler accepts a submission whose urls all fail:
   * it answers 200 with no tracks, and the player then shows one track with
   * an empty id.
   */
  lemma RouteAcceptsNoValidUrl(name: string, urls: seq<string>, id: string, createdAt: string)
    requires name != "" && urls != []
    requires forall i :: 0 <= i < |urls| ==> GetYoutubeId(urls[i]) == None
    ensures var r := Post(Some(name), urls, id, createdAt);
            r.Success? && r.data.tracks == [] &&
            DecodeTracks(Get(LinkQuery(r.playerUrl), "v")) == [Track("", WatchPrefix)]
  {
    RouteIdsAreExtractions(urls);
    NoneValues(Map(urls, GetYoutubeId));
    PostLinkFields(name, urls, id, createdAt);
    assert Join([], ',') == "";
    assert Filter("", KeptInUrl) == "";
    DecodePlain("");
    EmptyHandoffGivesOneBlankTrack();
  }

  lemma {:induction false} NoneValues(opts: seq<Option<string>>)
    requires forall i :: 0 <= i < |opts| ==> opts[i] == None
    ensures Values(opts) == []
    decreases |opts|
  {
    if opts != [] {
      NoneValues(opts[1..]);
    }
  }

  /** The url field of a form row. */
  function UrlOf(row: TrackRow): string {
    row.url
  }

  /**
   * Submitting the form's rows and a non-empty name to the handler yields the
   * very link the form navigates to, whenever the form navigates at all.
   */
  lemma RouteAgreesWithForm(name: string, rows: seq<TrackRow>, id: string, createdAt: string)
    requires name != "" && rows != []
    requires HandleCreateMixtape(name, rows).navigation.Some?
    ensures Post(Some(name), Map(rows, UrlOf), id, createdAt).Success?
    ensures Post(Some(name), Map(rows, UrlOf), id, createdAt).playerUrl ==
            HandleCreateMixtape(name, rows).navigation.value
  {
    SameIds(rows);
  }

  /** The handler and the form extract the same ids from the same urls. */
  lemma SameIds(rows: seq<TrackRow>)
    ensures RouteIds(Map(rows, UrlOf)) == ValidIds(rows)
  {
    var urls := Map(rows, UrlOf);
    assert Map(urls, GetYoutubeId) == Map(rows, RowId);
    RouteIdsAreExtractions(urls);
    ValidIdsIgnoreBlankFilter(rows);
  }

  /** Where the form refuses (no valid url), the handler still answers 200. */
  lemma RouteAcceptsWhatFormRefuses(name: string, rows: seq<TrackRow>, id: string, createdAt: string)
    requires name != "" && rows != []
    requires HandleCreateMixtape(name, rows).navigation.None?
    ensures Post(Some(name), Map(rows, UrlOf), id, createdAt).Success?
    ensures Post(Some(name), Map(rows, UrlOf), id, createdAt).data.tracks == []
  {
    var urls := Map(rows, UrlOf);
    assert urls != [];
    SameIds(rows);
    assert RouteIds(urls) == [];
  }
}
