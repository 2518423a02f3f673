/**
 * The mixtape form of the home page: a list of one to five url rows that the
 * sender edits, and the "create" action that turns the rows into a player link.
 */
module MixtapeForm {
  import opened Nullable
  import opened Seqs
  import opened YoutubeId
  import opened YoutubeIdFacts
  import opened UriComponent
  import opened SearchParams
  import opened Handoff

  /** One url row of the form; `id` is the row's key, a timestamp for added rows. */
  datatype TrackRow = TrackRow(id: int, url: string)

  /** The form never offers more rows than this. */
  const MaxTracks := 5

  /** The name used when the sender leaves the recipient empty. */
  const DefaultName := "MY-MIX"

  const NoValidUrlError := "Please add at least one valid YouTube URL"

  /** The rows of a fresh form: one empty row with key 1. */
  function InitialRows(): (rows: seq<TrackRow>)
    ensures FormValid(rows)
  {
    [TrackRow(1, "")]
  }

  /** No two rows share a key. */
  predicate DistinctIds(rows: seq<TrackRow>) {
    forall i, j :: 0 <= i < j < |rows| ==> rows[i].id != rows[j].id
  }

  /** The shape the form keeps: one to five rows with distinct keys. */
  predicate FormValid(rows: seq<TrackRow>) {
    1 <= |rows| <= MaxTracks && DistinctIds(rows)
  }

  /** Some row has key `id`. */
  predicate HasRow(rows: seq<TrackRow>, id: int) {
    exists i :: 0 <= i < |rows| && rows[i].id == id
  }

  /**
   * `addTrack`: below five rows, append one empty row under the fresh key;
   * at five or more, change nothing.
   */
  function AddTrack(rows: seq<TrackRow>, freshId: int): (r: seq<TrackRow>)
    ensures |rows| >= MaxTracks ==> r == rows
    ensures |rows| < MaxTracks ==> |r| == |rows| + 1 && r[..|rows|] == rows && r[|rows|] == TrackRow(freshId, "")
    ensures |r| <= MaxTracks || r == rows
  {
    if |rows| < MaxTracks then rows + [TrackRow(freshId, "")] else rows
  }

  /** The test "the row's key differs from `id`", as a function value shared by every use. */
  function KeyDiffers(id: int): TrackRow -> bool {
    (row: TrackRow) => row.id != id
  }

  /** `removeTrack`: the rows whose key differs from `id`, in their original order. */
  function RemoveTrack(rows: seq<TrackRow>, id: int): (r: seq<TrackRow>)
    ensures |r| <= |rows|
    ensures forall i :: 0 <= i < |r| ==> r[i].id != id
  {
    Filter(rows, KeyDiffers(id))
  }

  /** Removing keeps every row whose key differs and adds none. */
  lemma RemoveTrackMembers(rows: seq<TrackRow>, id: int)
    ensures forall i :: 0 <= i < |RemoveTrack(rows, id)| ==> RemoveTrack(rows, id)[i] in rows
    ensures forall i :: 0 <= i < |rows| && rows[i].id != id ==> rows[i] in RemoveTrack(rows, id)
  {
    FilterMembers(rows, KeyDiffers(id));
  }

  /** The row with its url replaced when its key is `id`. */
  function Updated(id: int, url: string): TrackRow -> TrackRow {
    (row: TrackRow) => if row.id == id then row.(url := url) else row
  }

  /** `updateTrack`: only the url of rows keyed `id` changes; keys, order and length stay. */
  function UpdateTrack(rows: seq<TrackRow>, id: int, url: string): (r: seq<TrackRow>)
    ensures |r| == |rows|
    ensures forall i :: 0 <= i < |rows| ==> r[i].id == rows[i].id
    ensures forall i :: 0 <= i < |rows| && rows[i].id == id ==> r[i].url == url
    ensures forall i :: 0 <= i < |rows| && rows[i].id != id ==> r[i] == rows[i]
  {
    Map(rows, Updated(id, url))
  }

  /** Removing keeps order: it distributes over concatenation. */
  lemma RemoveTrackKeepsOrder(a: seq<TrackRow>, b: seq<TrackRow>, id: int)
    ensures RemoveTrack(a + b, id) == RemoveTrack(a, id) + RemoveTrack(b, id)
  {
    FilterAppend(a, b, KeyDiffers(id));
  }

  /** Removing a key no row has changes nothing. */
  lemma RemoveAbsentTrack(rows: seq<TrackRow>, id: int)
    requires !HasRow(rows, id)
    ensures RemoveTrack(rows, id) == rows
  {
    FilterAll(rows, KeyDiffers(id));
  }

  /** With distinct keys, no row before row `j` shares its key. */
  lemma NoRowBefore(rows: seq<TrackRow>, j: nat)
    requires DistinctIds(rows)
    requires j < |rows|
    ensures !HasRow(rows[..j], rows[j].id)
  {
    assert forall i :: 0 <= i < j ==> rows[..j][i].id == rows[i].id;
  }

  /** With distinct keys, no row after row `j` shares its key. */
  lemma NoRowAfter(rows: seq<TrackRow>, j: nat)
    requires DistinctIds(rows)
    requires j < |rows|
    ensures !HasRow(rows[j + 1..], rows[j].id)
  {
    var after := rows[j + 1..];
    assert forall i :: 0 <= i < |after| ==> after[i].id == rows[j + 1 + i].id;
  }

  /** With distinct keys, removing the key of row `j` deletes exactly that row. */
  lemma RemoveExactlyOne(rows: seq<TrackRow>, j: nat)
    requires DistinctIds(rows)
    requires j < |rows|
    ensures RemoveTrack(rows, rows[j].id) == rows[..j] + rows[j + 1..]
  {
    var id := rows[j].id;
    var before, mid, after := rows[..j], [rows[j]], rows[j + 1..];
    assert rows == before + (mid + after);
    NoRowBefore(rows, j);
    NoRowAfter(rows, j);
    RemoveAbsentTrack(before, id);
    RemoveAbsentTrack(after, id);
    assert RemoveTrack(mid, id) == [];
    RemoveTrackKeepsOrder(mid, after, id);
    RemoveTrackKeepsOrder(before, mid + after, id);
  }

  /** The last update of a row wins. */
  lemma UpdateTwice(rows: seq<TrackRow>, id: int, u1: string, u2: string)
    ensures UpdateTrack(UpdateTrack(rows, id, u1), id, u2) == UpdateTrack(rows, id, u2)
  {
  }

  /** Writing back a row's own url changes nothing. */
  lemma UpdateWithSameUrl(rows: seq<TrackRow>, j: nat)
    requires DistinctIds(rows)
    requires j < |rows|
    ensures UpdateTrack(rows, rows[j].id, rows[j].url) == rows
  {
    var r := UpdateTrack(rows, rows[j].id, rows[j].url);
    assert forall i :: 0 <= i < |rows| ==> r[i] == rows[i];
  }

  /** One action of the sender on the form. */
  datatype Edit = Add(freshId: int) | Remove(id: int) | Update(id: int, url: string)

  /**
   * The action is one the page offers: the add button shows below five rows
   * (and the new key is fresh), a remove button shows on every row once there
   * are two or more, and every row has its url field.
   */
  predicate Offered(rows: seq<TrackRow>, e: Edit) {
    match e
    case Add(freshId) => |rows| < MaxTracks && !HasRow(rows, freshId)
    case Remove(id) => |rows| > 1 && HasRow(rows, id)
    case Update(id, _) => HasRow(rows, id)
  }

  function ApplyEdit(rows: seq<TrackRow>, e: Edit): seq<TrackRow> {
    match e
    case Add(freshId) => AddTrack(rows, freshId)
    case Remove(id) => RemoveTrack(rows, id)
    case Update(id, url) => UpdateTrack(rows, id, url)
  }

  /** Adding under a fresh key below five rows keeps the form's shape. */
  lemma AddKeepsFormValid(rows: seq<TrackRow>, freshId: int)
    requires FormValid(rows)
    requires |rows| < MaxTracks && !HasRow(rows, freshId)
    ensures FormValid(AddTrack(rows, freshId))
  {
    var r := AddTrack(rows, freshId);
    assert forall i :: 0 <= i < |rows| ==> r[i] == rows[i];
  }

  /** Deleting one row keeps the remaining keys distinct. */
  lemma DeleteKeepsDistinct(rows: seq<TrackRow>, j: nat)
    requires DistinctIds(rows)
    requires j < |rows|
    ensures DistinctIds(rows[..j] + rows[j + 1..])
  {
    var r := rows[..j] + rows[j + 1..];
    assert forall i :: 0 <= i < |r| ==> r[i] == (if i < j then rows[i] else rows[i + 1]);
  }

  /** Removing an existing key from two or more rows keeps the form's shape. */
  lemma RemoveKeepsFormValid(rows: seq<TrackRow>, id: int)
    requires FormValid(rows)
    requires |rows| > 1 && HasRow(rows, id)
    ensures FormValid(RemoveTrack(rows, id))
  {
    var j :| 0 <= j < |rows| && rows[j].id == id;
    RemoveExactlyOne(rows, j);
    DeleteKeepsDistinct(rows, j);
  }

  /** Every offered action keeps one to five rows with distinct keys. */
  lemma OfferedEditKeepsFormValid(rows: seq<TrackRow>, e: Edit)
    requires FormValid(rows)
    requires Offered(rows, e)
    ensures FormValid(ApplyEdit(rows, e))
  {
    match e
    case Add(freshId) => AddKeepsFormValid(rows, freshId);
    case Remove(id) => RemoveKeepsFormValid(rows, id);
    case Update(id, url) =>
  }

  /** The rows after a script of actions, each applied only when the page offers it. */
  function RunEdits(rows: seq<TrackRow>, edits: seq<Edit>): seq<TrackRow>
    decreases |edits|
  {
    if edits == [] then rows
    else RunEdits(if Offered(rows, edits[0]) then ApplyEdit(rows, edits[0]) else rows, edits[1..])
  }

  /** Whatever the sender does, the form keeps one to five rows with distinct keys. */
  lemma {:induction false} FormStaysValid(rows: seq<TrackRow>, edits: seq<Edit>)
    requires FormValid(rows)
    ensures FormValid(RunEdits(rows, edits))
    decreases |edits|
  {
    if edits != [] {
      var next := if Offered(rows, edits[0]) then ApplyEdit(rows, edits[0]) else rows;
      if Offered(rows, edits[0]) {
        OfferedEditKeepsFormValid(rows, edits[0]);
      }
      FormStaysValid(next, edits[1..]);
    }
  }

  /** ECMAScript's WhiteSpace and LineTerminator: what `String.prototype.trim` removes. */
  predicate IsJsWhitespace(c: char) {
    c == '\t' || c == '\U{000B}' || c == '\U{000C}' || c == ' ' || c == '\U{00A0}' || c == '\U{FEFF}' ||
    c == '\U{1680}' || '\U{2000}' <= c <= '\U{200A}' || c == '\U{202F}' || c == '\U{205F}' || c == '\U{3000}' ||
    c == '\n' || c == '\r' || c == '\U{2028}' || c == '\U{2029}'
  }

  /** The string without its leading whitespace. */
  function TrimStart(s: string): (r: string)
    ensures |r| <= |s| && r == s[|s| - |r|..]
    ensures forall i :: 0 <= i < |s| - |r| ==> IsJsWhitespace(s[i])
    ensures r == [] || !IsJsWhitespace(r[0])
    decreases |s|
  {
    if s != [] && IsJsWhitespace(s[0]) then TrimStart(s[1..]) else s
  }

  /** The string without its trailing whitespace. */
  function TrimEnd(s: string): (r: string)
    ensures |r| <= |s| && r == s[..|r|]
    ensures forall i :: |r| <= i < |s| ==> IsJsWhitespace(s[i])
    ensures r == [] || !IsJsWhitespace(r[|r| - 1])
    decreases |s|
  {
    if s != [] && IsJsWhitespace(s[|s| - 1]) then TrimEnd(s[..|s| - 1]) else s
  }

  /** `String.prototype.trim`. */
  function Trim(s: string): string {
    TrimEnd(TrimStart(s))
  }

  /** A string trims to nothing exactly when it is all whitespace. */
  lemma TrimmedEmpty(s: string)
    ensures Trim(s) == "" <==> forall i :: 0 <= i < |s| ==> IsJsWhitespace(s[i])
  {
    var t := TrimStart(s);
    if t != [] {
      assert !IsJsWhitespace(t[0]) && t[0] == s[|s| - |t|];
      assert Trim(s) != [];
    }
  }

  /** A row whose url is not blank (`url.trim() !== ''`). */
  function NonBlank(row: TrackRow): bool {
    Trim(row.url) != ""
  }

  /** The extractor applied to a row's url. */
  function RowId(row: TrackRow): Option<string> {
    GetYoutubeId(row.url)
  }

  /** What every returned id looks like: a `length` of eleven code units, none of `&`, `#` and `?`. */
  predicate IsExtractedId(id: string) {
    Utf16Length(id) == 11 && '&' !in id && '#' !in id && '?' !in id
  }

  lemma ExtractedIdShape(url: string)
    requires GetYoutubeId(url).Some?
    ensures IsExtractedId(GetYoutubeId(url).value)
  {
    var id := GetYoutubeId(url).value;
    assert forall i :: 0 <= i < |id| ==> !IsDelimiter(id[i]);
  }

  /**
   * The ids the create action sends: drop blank rows, extract from each
   * remaining url, drop the failures.
   */
  function ValidIds(rows: seq<TrackRow>): (ids: seq<string>)
    ensures |ids| <= |rows|
    ensures forall i :: 0 <= i < |ids| ==> IsExtractedId(ids[i])
  {
    var kept := Filter(rows, NonBlank);
    var opts := Map(kept, RowId);
    forall k | 0 <= k < |opts| && opts[k].Some? ensures IsExtractedId(opts[k].value) {
      ExtractedIdShape(kept[k].url);
    }
    ValuesKeep(opts, IsExtractedId);
    Values(opts)
  }

  /** What one row contributes to the create action, read independently of the others. */
  function RowContribution(row: TrackRow): seq<string> {
    if Trim(row.url) != "" && GetYoutubeId(row.url).Some? then [GetYoutubeId(row.url).value] else []
  }

  /** The ids row by row, in the rows' order. */
  function IdsRowByRow(rows: seq<TrackRow>): seq<string>
    decreases |rows|
  {
    if rows == [] then [] else RowContribution(rows[0]) + IdsRowByRow(rows[1..])
  }

  /** The first row's contribution comes first, followed by the rest's. */
  lemma ValidIdsCons(rows: seq<TrackRow>)
    requires rows != []
    ensures ValidIds(rows) == RowContribution(rows[0]) + ValidIds(rows[1..])
  {
    var head := if NonBlank(rows[0]) then [rows[0]] else [];
    var tail := Filter(rows[1..], NonBlank);
    assert Filter(rows, NonBlank) == head + tail;
    MapAppend(head, tail, RowId);
    ValuesAppend(Map(head, RowId), Map(tail, RowId));
    if NonBlank(rows[0]) {
      assert Map(head, RowId) == [RowId(rows[0])];
      assert Values([RowId(rows[0])]) == RowContribution(rows[0]);
    } else {
      assert Map(head, RowId) == [];
    }
  }

  /** The filter/map/filter pipeline sends exactly the per-row extractions, in order. */
  lemma {:induction false} ValidIdsRowByRow(rows: seq<TrackRow>)
    ensures ValidIds(rows) == IdsRowByRow(rows)
    decreases |rows|
  {
    if rows != [] {
      ValidIdsRowByRow(rows[1..]);
      ValidIdsCons(rows);
    }
  }

  /** A blank url yields no id, so dropping blank rows first changes nothing. */
  lemma BlankUrlHasNoId(url: string)
    requires Trim(url) == ""
    ensures GetYoutubeId(url) == None
  {
    TrimmedEmpty(url);
    NoIdWithoutMarkerInitial(url);
  }

  /** The extractions of all rows: the first row's, then the rest's. */
  lemma ExtractionsCons(rows: seq<TrackRow>)
    requires rows != []
    ensures Values(Map(rows, RowId)) == RowContribution(rows[0]) + Values(Map(rows[1..], RowId))
  {
    assert rows == [rows[0]] + rows[1..];
    MapAppend([rows[0]], rows[1..], RowId);
    ValuesAppend(Map([rows[0]], RowId), Map(rows[1..], RowId));
    SingleRowValues(rows[0]);
  }

  /** A row whose url yields an id is never blank, so it contributes that id. */
  lemma LinkRowContributes(row: TrackRow)
    requires GetYoutubeId(row.url).Some?
    ensures RowContribution(row) == [GetYoutubeId(row.url).value]
  {
    if Trim(row.url) == "" {
      BlankUrlHasNoId(row.url);
    }
  }

  /** The ids of two rows: the first row's contribution, then the second's. */
  lemma TwoRowIds(first: TrackRow, second: TrackRow)
    ensures ValidIds([first, second]) == RowContribution(first) + RowContribution(second)
  {
    ValidIdsRowByRow([first, second]);
    ShortTails(first, second);
    assert IdsRowByRow([second]) == RowContribution(second) + [];
    AppendEmpty(RowContribution(second));
  }

  /** The create action's ids are the extractions of all urls with the failures dropped. */
  lemma {:induction false} ValidIdsIgnoreBlankFilter(rows: seq<TrackRow>)
    ensures ValidIds(rows) == Values(Map(rows, RowId))
    decreases |rows|
  {
    if rows != [] {
      ValidIdsIgnoreBlankFilter(rows[1..]);
      ValidIdsCons(rows);
      ExtractionsCons(rows);
    }
  }

  /** A single row's extraction is its contribution: a blank url extracts nothing. */
  lemma SingleRowValues(row: TrackRow)
    ensures Values(Map([row], RowId)) == RowContribution(row)
  {
    assert Map([row], RowId) == [RowId(row)];
    if !NonBlank(row) {
      BlankUrlHasNoId(row.url);
    }
  }

  /** The result of pressing "create": the error line and, when it navigates, the target. */
  datatype CreateOutcome = CreateOutcome(error: string, navigation: Option<string>)

  /** The name that goes into the link. */
  function NameOrDefault(name: string): (r: string)
    ensures r != ""
    ensures name != "" ==> r == name
  {
    if name == "" then DefaultName else name
  }

  /**
   * `handleCreateMixtape`: with no id the error is set and nothing happens;
   * otherwise the error is cleared and the page navigates to the player link
   * of the ids and the encoded name (the default name when left empty).
   */
  function HandleCreateMixtape(name: string, rows: seq<TrackRow>): (o: CreateOutcome)
    ensures o.navigation.None? <==> ValidIds(rows) == []
    ensures o.error == if o.navigation.None? then NoValidUrlError else ""
    ensures o.navigation.Some? ==> o.navigation.value == PlayerTarget(ValidIds(rows), Encode(NameOrDefault(name)))
  {
    var ids := ValidIds(rows);
    if |ids| == 0 then CreateOutcome(NoValidUrlError, None)
    else CreateOutcome("", Some(PlayerTarget(ids, Encode(NameOrDefault(name)))))
  }

  /** Extracted ids hold neither `&` nor `#`, so they neither split the query nor cut it short. */
  lemma ExtractedIdsFitTheQuery(ids: seq<string>)
    requires forall i :: 0 <= i < |ids| ==> IsExtractedId(ids[i])
    ensures FreeOf(ids, '&') && FreeOf(ids, '#')
  {
  }

  /**
   * What the player reads from the link the form navigates to: under `v` the
   * ids joined by commas, tabs and newlines dropped, decoded; under `to` the
   * recipient name as typed, or the default name.
   */
  lemma CreateLinkFields(name: string, rows: seq<TrackRow>)
    requires HandleCreateMixtape(name, rows).navigation.Some?
    ensures var link := HandleCreateMixtape(name, rows).navigation.value;
            Get(LinkQuery(link), "v") == Some(DecodeValue(Filter(Join(ValidIds(rows), ','), KeptInUrl))) &&
            Get(LinkQuery(link), "to") == Some(NameOrDefault(name))
  {
    ExtractedIdsFitTheQuery(ValidIds(rows));
    TargetFields(ValidIds(rows), Encode(NameOrDefault(name)));
    LinkCarriesName(ValidIds(rows), NameOrDefault(name));
  }

  /**
   * The player's tracks from the form's link: one per id the form sent, in
   * order, each as it arrives (tabs and newlines dropped, `+` read as a
   * space), when no id holds a comma or a `%`.
   */
  lemma CreateThenOpen(name: string, rows: seq<TrackRow>)
    requires HandleCreateMixtape(name, rows).navigation.Some?
    requires FreeOf(ValidIds(rows), ',') && FreeOf(ValidIds(rows), '%')
    ensures var link := HandleCreateMixtape(name, rows).navigation.value;
            Ids(DecodeTracks(Get(LinkQuery(link), "v"))) == Map(ValidIds(rows), Arrived)
  {
    ExtractedIdsFitTheQuery(ValidIds(rows));
    LinkCarriesIds(ValidIds(rows), Encode(NameOrDefault(name)));
  }

  /** Ids made of characters the link carries unchanged come back exactly as the form sent them. */
  lemma CreateThenOpenPlain(name: string, rows: seq<TrackRow>)
    requires HandleCreateMixtape(name, rows).navigation.Some?
    requires FreeOf(ValidIds(rows), ',') && FreeOf(ValidIds(rows), '%') && FreeOf(ValidIds(rows), '+')
    requires FreeOf(ValidIds(rows), '\t') && FreeOf(ValidIds(rows), '\n') && FreeOf(ValidIds(rows), '\r')
    ensures var link := HandleCreateMixtape(name, rows).navigation.value;
            Ids(DecodeTracks(Get(LinkQuery(link), "v"))) == ValidIds(rows)
  {
    ExtractedIdsFitTheQuery(ValidIds(rows));
    LinkCarriesPlainIds(ValidIds(rows), Encode(NameOrDefault(name)));
  }
}
