/** Concrete links and submissions, worked through the model. */
module Scenarios {
  import opened Nullable
  import opened Seqs
  import opened YoutubeId
  import opened YoutubeIdFacts
  import opened UriComponent
  import opened Handoff
  import opened MixtapeForm
  import opened MixtapeRoute

  const SampleId := "dQw4w9WgXcQ"

  lemma SampleIdIsVideoId()
    ensures IsVideoId(SampleId)
  {
  }

  lemma NoLineTerminatorIn(prefix: string)
    requires prefix == "https://" || prefix == "https://www.youtube.com/"
    ensures forall i :: 0 <= i < |prefix| ==> !IsLineTerminator(prefix[i])
  {
  }

  /** A short link with a start time: the id is read and the `?t=30` ignored. */
  lemma ShortLinkWithTime(url: string)
    requires url == "https://" + "youtu.be/" + SampleId + "?t=30"
    ensures GetYoutubeId(url) == Some(SampleId)
  {
    assert IsPlainQuery("?t=30");
    assert IsSpelling("youtu.be/", ShortLink);
    SampleIdIsVideoId();
    NoLineTerminatorIn("https://");
    ExtractsFromLink("https://", "youtu.be/", ShortLink, SampleId, "?t=30");
  }

  /** A full watch link. */
  lemma WatchLink(url: string)
    requires url == "https://www.youtube.com/" + "watch?v=" + SampleId
    ensures GetYoutubeId(url) == Some(SampleId)
  {
    assert IsPlainQuery("");
    assert IsSpelling("watch?v=", Watch);
    SampleIdIsVideoId();
    NoLineTerminatorIn("https://www.youtube.com/");
    ExtractsFromLink("https://www.youtube.com/", "watch?v=", Watch, SampleId, "");
    assert url == "https://www.youtube.com/" + "watch?v=" + SampleId + "";
  }

  /** Text without any of the alternatives yields no id. */
  lemma NotAUrl()
    ensures GetYoutubeId("not a url") == None
  {
    NoIdWithoutAnchor("not a url");
  }

  /** "Sam" is sent as it is: all its characters are unreserved. */
  lemma SamEncodesToItself()
    ensures Encode("Sam") == "Sam"
  {
    EncodeIdentity("Sam");
  }

  /** A watch link and a blank row send the link's id alone. */
  lemma SubmissionIds(link: string, rows: seq<TrackRow>)
    requires link == "https://www.youtube.com/" + "watch?v=" + SampleId
    requires rows == [TrackRow(1, link), TrackRow(2, "")]
    ensures ValidIds(rows) == [SampleId]
  {
    WatchLink(link);
    LinkThenBlank(rows[0], rows[1]);
  }

  /** A row that yields an id followed by a blank row sends that id alone. */
  lemma LinkThenBlank(first: TrackRow, second: TrackRow)
    requires GetYoutubeId(first.url).Some? && second.url == ""
    ensures ValidIds([first, second]) == [GetYoutubeId(first.url).value]
  {
    LinkRowContributes(first);
    assert RowContribution(second) == [];
    TwoRowIds(first, second);
    AppendEmpty([GetYoutubeId(first.url).value]);
  }

  /** The player link for the sample id and the name "Sam". */
  const SampleLink := PlayerTarget([SampleId], "Sam")

  /** The sample link, spelled out. */
  lemma SampleLinkSpelledOut()
    ensures SampleLink == "/player?v=dQw4w9WgXcQ&to=Sam"
  {
    assert Join([SampleId], ',') == SampleId;
  }

  /** The form with a watch link and a blank row, for "Sam", navigates to the sample link. */
  lemma OneValidOneBlank(link: string, rows: seq<TrackRow>)
    requires link == "https://www.youtube.com/" + "watch?v=" + SampleId
    requires rows == [TrackRow(1, link), TrackRow(2, "")]
    ensures HandleCreateMixtape("Sam", rows) == CreateOutcome("", Some(SampleLink))
  {
    SubmissionIds(link, rows);
    SamEncodesToItself();
    assert NameOrDefault("Sam") == "Sam";
  }

  lemma RouteSubmissionIds(link: string)
    requires link == "https://www.youtube.com/" + "watch?v=" + SampleId
    ensures RouteIds([link, ""]) == [SampleId]
  {
    WatchLink(link);
    NoIdWithoutMarkerInitial("");
    RouteIdsAreExtractions([link, ""]);
    assert Map([link, ""], GetYoutubeId) == [Some(SampleId), None];
    ShortTails(Some(SampleId), None);
    assert Values<string>([None]) == [];
  }

  /** The same submission through the API route gives the same ids and link. */
  lemma RouteOneValidOneBlank(link: string, id: string, createdAt: string)
    requires link == "https://www.youtube.com/" + "watch?v=" + SampleId
    ensures Post(Some("Sam"), [link, ""], id, createdAt).Success?
    ensures Post(Some("Sam"), [link, ""], id, createdAt).data.tracks == [SampleId]
    ensures Post(Some("Sam"), [link, ""], id, createdAt).playerUrl == SampleLink
  {
    RouteSubmissionIds(link);
    SamEncodesToItself();
  }

  /** A later `&v=` wins over the `watch?v=` before it. */
  lemma LaterParameterWins(url: string)
    requires url == "https://www.youtube.com/" + "watch?v=" + SampleId + "&v=" + "aaaaaaaaaaa"
    ensures GetYoutubeId(url) == Some("aaaaaaaaaaa")
  {
    SampleIdIsVideoId();
    assert IsVideoId("aaaaaaaaaaa");
    NoLineTerminatorIn("https://www.youtube.com/");
    LaterAmpVOverrides("https://www.youtube.com/", SampleId, "aaaaaaaaaaa");
  }
}
