/**
 * Decimal numerals, for the track counter the player displays.
 */
module Numerals {

  function DigitChar(d: nat): (c: char)
    requires d < 10
    ensures '0' <= c <= '9'
  {
    ('0' as int + d) as char
  }

  predicate IsDigits(s: string) {
    forall i :: 0 <= i < |s| ==> '0' <= s[i] <= '9'
  }

  /** JavaScript's rendering of a non-negative integer in a template string. */
  function NatToString(n: nat): (r: string)
    ensures |r| >= 1 && IsDigits(r)
    ensures n < 10 <==> |r| == 1
    decreases n
  {
    if n < 10 then [DigitChar(n)] else NatToString(n / 10) + [DigitChar(n % 10)]
  }

  /** The value of a string of decimal digits. */
  function ParseDigits(s: string): nat
    requires IsDigits(s)
    decreases |s|
  {
    if s == [] then 0 else ParseDigits(s[..|s| - 1]) * 10 + (s[|s| - 1] as int - '0' as int)
  }

  /** Reading a rendered number gives the number back. */
  lemma {:induction false} ParseNatToString(n: nat)
    ensures ParseDigits(NatToString(n)) == n
    decreases n
  {
    if n >= 10 {
      ParseNatToString(n / 10);
      var r := NatToString(n);
      assert r[..|r| - 1] == NatToString(n / 10);
    }
  }
}

/**
 * The tape player page as a state machine: every handler and every callback
 * of the embedded video player is one atomic step from a state to a state,
 * with the calls it makes on the video player recorded as effects.
 */
module TapePlayer {
  import opened Nullable
  import opened Seqs
  import opened Handoff
  import opened Numerals
  import opened UriComponent
  import opened SearchParams

  const NotReadyError := "Player not ready. Please try again."
  const InvalidIdError := "Invalid video ID"
  const PlaybackError := "Video playback error. Please try again."
  const InitFailurePrefix := "Failed to initialize player: "

  /** The video player's state codes. */
  const Unstarted := -1
  const Ended := 0
  const Playing := 1
  const Paused := 2
  const Buffering := 3
  const Cued := 5

  /** A call the page makes on the embedded video player. */
  datatype Effect = LoadVideo(id: string) | PauseVideo | PlayVideo | StopVideo

  /**
   * The page's state. `hasPlayer` stands for the `player` reference being
   * set, which happens right after the player is constructed. `initFailed`
   * records that initialisation threw before it reached the construction, so
   * no player will be built for this link.
   */
  datatype PlayerState = PlayerState(
    inserted: bool,
    playing: bool,
    loading: bool,
    currentTrack: nat,
    tracks: seq<Track>,
    recipientName: string,
    error: Option<string>,
    hasPlayer: bool,
    initFailed: bool)

  /** The state after a handler and the player calls it made, in order. */
  datatype Step = Step(state: PlayerState, effects: seq<Effect>)

  /** The current track points into the tape, or is 0 on an empty tape. */
  predicate Valid(s: PlayerState) {
    s.currentTrack == 0 || s.currentTrack < |s.tracks|
  }

  /** The state at the first render, before the link has been read. */
  function FirstRender(): (s: PlayerState)
    ensures Valid(s)
  {
    PlayerState(false, false, false, 0, [], "", None, false, false)
  }

  /**
   * Reading the link as the page means to: the tracks come from `v` and the
   * name is `to`, which `searchParams.get` has already decoded (a missing one
   * reads as ""). Nothing can fail, so the player will be built for any tape
   * with tracks.
   */
  function Open(v: Option<string>, to: Option<string>): (s: PlayerState)
    ensures Valid(s)
    ensures !s.inserted && !s.playing && !s.loading && s.currentTrack == 0 && !s.hasPlayer
    ensures s.tracks == DecodeTracks(v)
    ensures s.tracks == [] <==> v.None?
    ensures v.Some? ==> Join(Ids(s.tracks), ',') == v.value
    ensures s.error.None? && !s.initFailed
    ensures s.recipientName == "" <==> to.None? || to.value == ""
    ensures to.Some? ==> s.recipientName == to.value
  {
    PlayerState(false, false, false, 0, DecodeTracks(v), to.OrElse(""), None, false, false)
  }

  /**
   * Reading the link as the page does: the already-decoded `to` goes through
   * `decodeURIComponent` a second time. When that throws, the tracks are
   * already set, the name stays empty, the failure message is shown, and
   * initialisation stops before the player is constructed. Its retries read
   * the same link and throw the same way, so the outcome stays.
   */
  function OpenAsWritten(v: Option<string>, to: Option<string>): (s: PlayerState)
    ensures Valid(s)
    ensures !s.inserted && !s.playing && !s.loading && s.currentTrack == 0 && !s.hasPlayer
    ensures s.tracks == DecodeTracks(v)
    ensures s.initFailed <==> DecodeComponent(to.OrElse("")).None?
    ensures s.error.None? <==> !s.initFailed
    ensures s.initFailed ==> s.error == Some(InitFailurePrefix + UriMalformed) && s.recipientName == ""
    ensures !s.initFailed ==> s.recipientName == DecodeComponent(to.OrElse("")).value
  {
    var tracks := DecodeTracks(v);
    match DecodeComponent(to.OrElse(""))
    case Some(name) => PlayerState(false, false, false, 0, tracks, name, None, false, false)
    case None =>
      PlayerState(false, false, false, 0, tracks, "", Some(InitFailurePrefix + UriMalformed), false, true)
  }

  /** Opening a link: its query's `v` and `to`. */
  function OpenLink(link: string): PlayerState {
    Open(Get(LinkQuery(link), "v"), Get(LinkQuery(link), "to"))
  }

  /** Opening a link as the page does. */
  function OpenLinkAsWritten(link: string): PlayerState {
    OpenAsWritten(Get(LinkQuery(link), "v"), Get(LinkQuery(link), "to"))
  }

  /**
   * The play/pause button. `reported` is what the video player's
   * `getPlayerState()` answers. Indexing past the tape throws inside the
   * `try`, whose handler only clears `playing`.
   */
  function HandlePlay(s: PlayerState, reported: int): (r: Step)
    ensures !s.inserted ==> r == Step(s, [])
    ensures s.inserted && !s.hasPlayer ==> r == Step(s.(error := Some(NotReadyError)), [])
    ensures s.inserted && s.hasPlayer && s.playing ==> r == Step(s.(playing := false), [PauseVideo])
    ensures s.inserted && s.hasPlayer && !s.playing ==>
              (r.state.playing <==> s.currentTrack < |s.tracks| && s.tracks[s.currentTrack].id != "")
    ensures s.inserted && s.hasPlayer && !s.playing && s.currentTrack < |s.tracks| && s.tracks[s.currentTrack].id == "" ==>
              r == Step(s.(error := Some(InvalidIdError)), [])
    ensures r.state.playing && !s.playing ==>
              r.state == s.(playing := true, loading := false) &&
              |r.effects| > 0 && r.effects[|r.effects| - 1] == PlayVideo &&
              (LoadVideo(s.tracks[s.currentTrack].id) in r.effects <==> reported == Unstarted || reported == Cued)
    ensures r.state.tracks == s.tracks && r.state.currentTrack == s.currentTrack && r.state.inserted == s.inserted
  {
    if !s.inserted then Step(s, [])
    else if !s.hasPlayer then Step(s.(error := Some(NotReadyError)), [])
    else if s.playing then Step(s.(playing := false), [PauseVideo])
    else if s.currentTrack >= |s.tracks| then Step(s.(playing := false), [])
    else
      var id := s.tracks[s.currentTrack].id;
      if id == "" then Step(s.(error := Some(InvalidIdError)), [])
      else
        var load := if reported == Unstarted || reported == Cued then [LoadVideo(id)] else [];
        Step(s.(playing := true, loading := false), load + [PlayVideo])
  }

  /**
   * The next button, reading its guard and the tape from `view` and writing
   * the new track into `s`. The page's own button reads the current state,
   * so `view == s` there.
   */
  function HandleNextFrom(view: PlayerState, s: PlayerState): (r: Step)
    ensures !(view.inserted && view.hasPlayer && view.currentTrack + 1 < |view.tracks|) ==> r == Step(s, [])
    ensures view.inserted && view.hasPlayer && view.currentTrack + 1 < |view.tracks| ==>
              r.state == s.(currentTrack := view.currentTrack + 1) &&
              r.effects == [LoadVideo(view.tracks[view.currentTrack + 1].id)]
  {
    if !view.inserted || view.currentTrack >= |view.tracks| - 1 || !view.hasPlayer then Step(s, [])
    else Step(s.(currentTrack := view.currentTrack + 1), [LoadVideo(view.tracks[view.currentTrack + 1].id)])
  }

  /** The next button: a no-op unless a tape is in, a player exists and a later track exists. */
  function HandleNext(s: PlayerState): (r: Step)
    ensures r.state == s.(currentTrack := r.state.currentTrack)
    ensures r.state.currentTrack != s.currentTrack <==> s.inserted && s.hasPlayer && s.currentTrack + 1 < |s.tracks|
    ensures r.state.currentTrack != s.currentTrack ==>
              r.state.currentTrack == s.currentTrack + 1 &&
              r.effects == [LoadVideo(s.tracks[r.state.currentTrack].id)]
    ensures r.state.currentTrack == s.currentTrack ==> r.effects == []
  {
    HandleNextFrom(s, s)
  }

  /**
   * The previous button: a no-op unless a tape is in, a player exists and
   * the current track is not the first. Past the tape's end, the track is
   * moved but the lookup of the id throws before anything is loaded.
   */
  function HandlePrev(s: PlayerState): (r: Step)
    ensures r.state == s.(currentTrack := r.state.currentTrack)
    ensures r.state.currentTrack != s.currentTrack <==> s.inserted && s.hasPlayer && s.currentTrack > 0
    ensures r.state.currentTrack != s.currentTrack ==>
              r.state.currentTrack + 1 == s.currentTrack &&
              r.effects == if r.state.currentTrack < |s.tracks| then [LoadVideo(s.tracks[r.state.currentTrack].id)] else []
    ensures r.state.currentTrack == s.currentTrack ==> r.effects == []
  {
    if !s.inserted || s.currentTrack <= 0 || !s.hasPlayer then Step(s, [])
    else
      var prev := s.currentTrack - 1;
      Step(s.(currentTrack := prev), if prev < |s.tracks| then [LoadVideo(s.tracks[prev].id)] else [])
  }

  /**
   * Inserting the tape: always in and not loading; with a player and a
   * first track that has an id, that track is cued (loaded, then paused)
   * and becomes current.
   */
  function HandleInsertTape(s: PlayerState): (r: Step)
    ensures r.state.inserted && !r.state.loading
    ensures r.state.playing == s.playing && r.state.tracks == s.tracks && r.state.error == s.error
    ensures r.state.hasPlayer == s.hasPlayer && r.state.recipientName == s.recipientName
    ensures var cues := s.hasPlayer && |s.tracks| > 0 && s.tracks[0].id != "";
            (cues ==> r.state.currentTrack == 0 && r.effects == [LoadVideo(s.tracks[0].id), PauseVideo]) &&
            (!cues ==> r.state.currentTrack == s.currentTrack && r.effects == [])
  {
    var t := s.(inserted := true, loading := false);
    if !s.hasPlayer || |s.tracks| == 0 then Step(t, [])
    else if s.tracks[0].id != "" then Step(t.(currentTrack := 0), [LoadVideo(s.tracks[0].id), PauseVideo])
    else Step(t, [])
  }

  /** Ejecting: out and not playing, nothing else changes; a player is stopped. */
  function HandleEjectTape(s: PlayerState): (r: Step)
    ensures !r.state.inserted && !r.state.playing
    ensures r.state == s.(inserted := false, playing := false)
    ensures r.effects == if s.hasPlayer then [StopVideo] else []
  {
    Step(s.(inserted := false, playing := false), if s.hasPlayer then [StopVideo] else [])
  }

  /** The insert/eject button: it ejects a tape that is in and inserts one that is out. */
  function PressTapeButton(s: PlayerState): (r: Step)
    ensures r.state.inserted != s.inserted
    ensures r.state.tracks == s.tracks && r.state.recipientName == s.recipientName
    ensures s.inserted ==> !r.state.playing
  {
    if s.inserted then HandleEjectTape(s) else HandleInsertTape(s)
  }

  /** Pressing the tape button twice puts the tape back as it was, stopped. */
  lemma TapeButtonTwice(s: PlayerState)
    requires s.inserted
    ensures var t := PressTapeButton(PressTapeButton(s).state).state;
            t.inserted && !t.playing && !t.loading && t.tracks == s.tracks
  {
  }

  /** The label of the tape's sticker: the recipient's mix, or "MY MIX" without a name. */
  function TapeTitle(name: string): string {
    if name != "" then name + "'s MIX" else "MY MIX"
  }

  /**
   * The sticker after opening a link as the page does: the twice-decoded
   * name's mix, and "MY MIX" when the name is empty or could not be decoded.
   */
  lemma OpenedTapeTitle(v: Option<string>, to: Option<string>)
    ensures TapeTitle(OpenAsWritten(v, to).recipientName) ==
            if DecodeComponent(to.OrElse("")).Some? && DecodeComponent(to.OrElse("")).value != ""
            then DecodeComponent(to.OrElse("")).value + "'s MIX" else "MY MIX"
  {
  }

  /**
   * The state-change callback, with the next-track step of `Ended` reading
   * `view`. The corrected page passes the current state; see
   * `OnPlayerStateChange`.
   */
  function OnPlayerStateChangeFrom(view: PlayerState, s: PlayerState, code: int): Step {
    if code == Ended then
      var n := HandleNextFrom(view, s);
      Step(n.state.(loading := false), n.effects)
    else if code == Playing then Step(s.(playing := true, loading := false, error := None), [])
    else if code == Paused then Step(s.(playing := false, loading := false), [])
    else if code == Buffering then Step(s.(loading := true), [])
    else if code == Cued || code == Unstarted then Step(s.(loading := false), [])
    else Step(s, [])
  }

  /**
   * The state-change callback: `Ended` goes to the next track and clears
   * `loading`; `Playing` sets `playing`, clears `loading` and the error;
   * `Paused` clears both flags; `Buffering` sets `loading` only; `Cued` and
   * `Unstarted` clear `loading` only; any other code changes nothing.
   */
  function OnPlayerStateChange(s: PlayerState, code: int): (r: Step)
    ensures code == Ended ==> r == Step(HandleNext(s).state.(loading := false), HandleNext(s).effects)
    ensures code == Playing ==> r == Step(s.(playing := true, loading := false, error := None), [])
    ensures code == Paused ==> r == Step(s.(playing := false, loading := false), [])
    ensures code == Buffering ==> r == Step(s.(loading := true), [])
    ensures code == Cued || code == Unstarted ==> r == Step(s.(loading := false), [])
    ensures code !in {Ended, Playing, Paused, Buffering, Cued, Unstarted} ==> r == Step(s, [])
  {
    OnPlayerStateChangeFrom(s, s, code)
  }

  /**
   * The callback as the page wires it: the player is built once, after the
   * first render, and its state-change handler keeps that render's
   * `onPlayerStateChange`, whose next-track step sees the first render's
   * state.
   */
  function OnPlayerStateChangeAsWired(s: PlayerState, code: int): (r: Step)
    ensures code != Ended ==> r == OnPlayerStateChange(s, code)
  {
    OnPlayerStateChangeFrom(FirstRender(), s, code)
  }

  /** As wired, the end of a video never moves the tape on: it only clears `loading`. */
  lemma EndedAsWiredNeverAdvances(s: PlayerState)
    ensures OnPlayerStateChangeAsWired(s, Ended) == Step(s.(loading := false), [])
  {
  }

  /** A tape of two tracks playing its first: corrected, the end moves to the second; as wired, it stays. */
  lemma EndedAsWiredCounterexample(s: PlayerState)
    requires s.inserted && s.hasPlayer && s.currentTrack == 0
    requires s.tracks == [TrackFor("aaaaaaaaaaa"), TrackFor("bbbbbbbbbbb")]
    ensures OnPlayerStateChange(s, Ended).state.currentTrack == 1
    ensures OnPlayerStateChange(s, Ended).effects == [LoadVideo("bbbbbbbbbbb")]
    ensures OnPlayerStateChangeAsWired(s, Ended).state.currentTrack == 0
    ensures OnPlayerStateChangeAsWired(s, Ended).effects == []
  {
  }

  /** The video player reports an error: the message is shown and playing stops. */
  function OnError(s: PlayerState): (r: Step)
    ensures r.state.error == Some(PlaybackError) && !r.state.playing
    ensures r.state.(error := s.error, playing := s.playing) == s
    ensures r.effects == []
  {
    Step(s.(error := Some(PlaybackError), playing := false), [])
  }

  /**
   * The video player is ready: the reference is set again, the error
   * cleared, loading over. The callback belongs to a constructed player, so
   * without one it cannot fire and changes nothing.
   */
  function OnReady(s: PlayerState): (r: Step)
    ensures r.state.hasPlayer == s.hasPlayer && r.effects == []
    ensures s.hasPlayer ==> r.state.error.None? && !r.state.loading
    ensures s.hasPlayer ==> r.state.(error := s.error, loading := s.loading) == s
    ensures !s.hasPlayer ==> r.state == s
  {
    if s.hasPlayer then Step(s.(error := None, loading := false), []) else Step(s, [])
  }

  /**
   * The player object was constructed; initialisation gets that far only for
   * a tape with tracks and a name that did not throw.
   */
  function OnPlayerCreated(s: PlayerState): (r: Step)
    ensures r.state.hasPlayer <==> s.hasPlayer || (|s.tracks| > 0 && !s.initFailed)
    ensures r.state.(hasPlayer := s.hasPlayer) == s
    ensures r.effects == []
  {
    if |s.tracks| > 0 && !s.initFailed then Step(s.(hasPlayer := true), []) else Step(s, [])
  }

  /** The text of the status display. */
  function StatusText(s: PlayerState): (t: string)
    ensures t == "NO TAPE" <==> !s.inserted
    ensures t == "LOADING..." <==> s.inserted && s.loading
    ensures t == "NO TRACKS" <==> s.inserted && !s.loading && s.tracks == []
  {
    if !s.inserted then "NO TAPE"
    else if s.loading then "LOADING..."
    else if |s.tracks| > 0 then TrackCounter(s.currentTrack + 1, |s.tracks|)
    else "NO TRACKS"
  }

  /** `TRACK k/n`: the word, a space, then the digits of `k` (the other status texts start with `N` or `L`). */
  function TrackCounter(k: nat, n: nat): (t: string)
    ensures |t| > 6 && t[..6] == "TRACK " && '0' <= t[6] <= '9'
  {
    "TRACK " + NatToString(k) + "/" + NatToString(n)
  }

  /** Reads a counter `TRACK k/n` back into its two numbers. */
  function ParseTrackCounter(t: string): Option<(nat, nat)> {
    if |t| < 6 || t[..6] != "TRACK " then None
    else
      var parts := Split(t[6..], '/');
      if |parts| == 2 && parts[0] != [] && parts[1] != [] && IsDigits(parts[0]) && IsDigits(parts[1]) then
        Some((ParseDigits(parts[0]), ParseDigits(parts[1])))
      else None
  }

  /** The counter reads back as the two numbers it was made from. */
  lemma CounterReadsBack(k: nat, n: nat)
    ensures ParseTrackCounter(TrackCounter(k, n)) == Some((k, n))
  {
    var a, b := NatToString(k), NatToString(n);
    var t := TrackCounter(k, n);
    assert t[6..] == a + ['/'] + b;
    assert '/' !in a && '/' !in b by {
      assert forall i :: 0 <= i < |a| ==> '0' <= a[i] <= '9';
      assert forall i :: 0 <= i < |b| ==> '0' <= b[i] <= '9';
    }
    SplitCons(a, b, '/');
    assert Split(t[6..], '/') == [a, b];
    ParseNatToString(k);
    ParseNatToString(n);
  }

  /** On a playable tape, the display shows the 1-based position of the current track and the length of the tape. */
  lemma StatusShowsPosition(s: PlayerState)
    requires Valid(s) && s.inserted && !s.loading && |s.tracks| > 0
    ensures ParseTrackCounter(StatusText(s)) == Some((s.currentTrack + 1, |s.tracks|))
    ensures 1 <= s.currentTrack + 1 <= |s.tracks|
  {
    assert StatusText(s) == TrackCounter(s.currentTrack + 1, |s.tracks|);
    CounterReadsBack(s.currentTrack + 1, |s.tracks|);
  }

  /** The previous button is greyed out when no tape is in or the first track is current. */
  predicate PrevDisabled(s: PlayerState) {
    !s.inserted || s.currentTrack == 0
  }

  /** The play button is greyed out when no tape is in. */
  predicate PlayDisabled(s: PlayerState) {
    !s.inserted
  }

  /** The next button is greyed out when no tape is in or the last track is current. */
  predicate NextDisabled(s: PlayerState) {
    !s.inserted || s.currentTrack as int == |s.tracks| - 1
  }

  /** Once a player exists, the previous button is greyed out exactly when its handler would do nothing. */
  lemma PrevButtonMatchesHandler(s: PlayerState)
    requires s.hasPlayer
    ensures PrevDisabled(s) <==> HandlePrev(s) == Step(s, [])
  {
  }

  /** A greyed-out play button stands for a handler that does nothing; an enabled one on a playable track toggles playing. */
  lemma PlayButtonMatchesHandler(s: PlayerState, reported: int)
    ensures PlayDisabled(s) ==> HandlePlay(s, reported) == Step(s, [])
    ensures !PlayDisabled(s) && s.hasPlayer && s.currentTrack < |s.tracks| && s.tracks[s.currentTrack].id != "" ==>
              HandlePlay(s, reported).state.playing != s.playing
  {
  }

  /**
   * With a player and a non-empty tape, the next button is greyed out
   * exactly when its handler would do nothing.
   */
  lemma NextButtonMatchesHandler(s: PlayerState)
    requires Valid(s) && s.hasPlayer && |s.tracks| > 0
    ensures NextDisabled(s) <==> HandleNext(s) == Step(s, [])
  {
  }

  /** On an empty tape the next button stays enabled although it does nothing. */
  lemma NextEnabledOnEmptyTape(s: PlayerState)
    requires s.inserted && s.tracks == []
    ensures !NextDisabled(s)
    ensures HandleNext(s) == Step(s, [])
  {
  }

  /** Next then previous comes back to the same state. */
  lemma NextThenPrev(s: PlayerState)
    requires s.inserted && s.hasPlayer && s.currentTrack + 1 < |s.tracks|
    ensures HandlePrev(HandleNext(s).state).state == s
    ensures HandlePrev(HandleNext(s).state).effects == [LoadVideo(s.tracks[s.currentTrack].id)]
  {
  }

  /** Previous then next comes back to the same state. */
  lemma PrevThenNext(s: PlayerState)
    requires Valid(s) && s.inserted && s.hasPlayer && s.currentTrack > 0
    ensures HandleNext(HandlePrev(s).state).state == s
    ensures HandleNext(HandlePrev(s).state).effects == [LoadVideo(s.tracks[s.currentTrack].id)]
  {
  }

  /** Pressing play twice on a playable track pauses again and leaves only `loading` cleared. */
  lemma PlayThenPause(s: PlayerState, first: int, second: int)
    requires s.inserted && s.hasPlayer && !s.playing
    requires s.currentTrack < |s.tracks| && s.tracks[s.currentTrack].id != ""
    ensures HandlePlay(HandlePlay(s, first).state, second) == Step(s.(loading := false), [PauseVideo])
  {
  }

  /** Ejecting twice is ejecting once, and an ejected tape ignores play, next and previous. */
  lemma EjectedIgnoresControls(s: PlayerState, reported: int)
    ensures var e := HandleEjectTape(s).state;
            HandleEjectTape(e).state == e &&
            HandlePlay(e, reported) == Step(e, []) &&
            HandleNext(e) == Step(e, []) &&
            HandlePrev(e) == Step(e, [])
  {
  }

  /** `Ended` repeated `k` times. */
  function EndedTimes(s: PlayerState, k: nat): PlayerState
    decreases k
  {
    if k == 0 then s else EndedTimes(OnPlayerStateChange(s, Ended).state, k - 1)
  }

  /** With the callback corrected, each video's end moves the tape on by one track. */
  lemma {:induction false} EndedWalksTheTape(s: PlayerState, k: nat)
    requires s.inserted && s.hasPlayer && s.currentTrack + k < |s.tracks|
    ensures EndedTimes(s, k).currentTrack == s.currentTrack + k
    ensures EndedTimes(s, k).tracks == s.tracks && EndedTimes(s, k).inserted
    decreases k
  {
    if k > 0 {
      var t := OnPlayerStateChange(s, Ended).state;
      assert t.currentTrack == s.currentTrack + 1;
      EndedWalksTheTape(t, k - 1);
    }
  }

  /** Everything that can happen to the page. */
  datatype Event =
    | InsertTape
    | EjectTape
    | PressPlay(reported: int)
    | PressNext
    | PressPrev
    | StateChange(code: int)
    | PlayerError
    | Ready
    | PlayerCreated
    | PressTape

  function Apply(s: PlayerState, e: Event): Step {
    match e
    case InsertTape => HandleInsertTape(s)
    case EjectTape => HandleEjectTape(s)
    case PressPlay(reported) => HandlePlay(s, reported)
    case PressNext => HandleNext(s)
    case PressPrev => HandlePrev(s)
    case StateChange(code) => OnPlayerStateChange(s, code)
    case PlayerError => OnError(s)
    case Ready => OnReady(s)
    case PlayerCreated => OnPlayerCreated(s)
    case PressTape => PressTapeButton(s)
  }

  /** Every video the page asks for is one of the tape's ids. */
  predicate LoadsFromTape(effects: seq<Effect>, tracks: seq<Track>) {
    forall i :: 0 <= i < |effects| && effects[i].LoadVideo? ==> effects[i].id in Ids(tracks)
  }

  /** A step keeps the current track on the tape, leaves the tape alone and loads only from it. */
  predicate KeepsTape(s: PlayerState, r: Step) {
    Valid(r.state) && r.state.tracks == s.tracks && LoadsFromTape(r.effects, s.tracks)
  }

  lemma PlayKeepsTape(s: PlayerState, reported: int)
    requires Valid(s)
    ensures KeepsTape(s, HandlePlay(s, reported))
  {
    if s.currentTrack < |s.tracks| {
      assert s.tracks[s.currentTrack].id == Ids(s.tracks)[s.currentTrack];
    }
  }

  lemma NextKeepsTape(s: PlayerState)
    requires Valid(s)
    ensures KeepsTape(s, HandleNext(s))
    ensures KeepsTape(s, Step(HandleNext(s).state.(loading := false), HandleNext(s).effects))
  {
    if s.currentTrack + 1 < |s.tracks| {
      assert s.tracks[s.currentTrack + 1].id == Ids(s.tracks)[s.currentTrack + 1];
    }
  }

  lemma PrevKeepsTape(s: PlayerState)
    requires Valid(s)
    ensures KeepsTape(s, HandlePrev(s))
  {
    if 0 < s.currentTrack <= |s.tracks| {
      assert s.tracks[s.currentTrack - 1].id == Ids(s.tracks)[s.currentTrack - 1];
    }
  }

  lemma InsertKeepsTape(s: PlayerState)
    requires Valid(s)
    ensures KeepsTape(s, HandleInsertTape(s))
  {
    if |s.tracks| > 0 {
      assert s.tracks[0].id == Ids(s.tracks)[0];
    }
  }

  /** No event changes the tape or moves the current track off it, and every load comes from the tape. */
  lemma EventKeepsValid(s: PlayerState, e: Event)
    requires Valid(s)
    ensures Valid(Apply(s, e).state)
    ensures Apply(s, e).state.tracks == s.tracks
    ensures LoadsFromTape(Apply(s, e).effects, s.tracks)
  {
    match e
    case PressPlay(reported) => PlayKeepsTape(s, reported);
    case PressNext => NextKeepsTape(s);
    case PressPrev => PrevKeepsTape(s);
    case StateChange(code) => NextKeepsTape(s);
    case InsertTape => InsertKeepsTape(s);
    case PressTape => InsertKeepsTape(s);
    case _ =>
  }

  /** A page whose initialisation failed has no player, and no event gives it one. */
  lemma FailedInitEventKeepsNoPlayer(s: PlayerState, e: Event)
    requires s.initFailed && !s.hasPlayer
    ensures Apply(s, e).state.initFailed && !Apply(s, e).state.hasPlayer
  {
  }

  /** The state after a sequence of events. */
  function Run(s: PlayerState, events: seq<Event>): PlayerState
    decreases |events|
  {
    if events == [] then s else Run(Apply(s, events[0]).state, events[1..])
  }

  /** From any opened link, whatever happens, the current track stays on the tape and the tape never changes. */
  lemma {:induction false} RunKeepsValid(s: PlayerState, events: seq<Event>)
    requires Valid(s)
    ensures Valid(Run(s, events))
    ensures Run(s, events).tracks == s.tracks
    decreases |events|
  {
    if events != [] {
      EventKeepsValid(s, events[0]);
      RunKeepsValid(Apply(s, events[0]).state, events[1..]);
    }
  }

  /** After a failed initialisation, whatever happens, no player is ever built. */
  lemma {:induction false} FailedInitNeverBuildsPlayer(s: PlayerState, events: seq<Event>)
    requires s.initFailed && !s.hasPlayer
    ensures Run(s, events).initFailed && !Run(s, events).hasPlayer
    decreases |events|
  {
    if events != [] {
      FailedInitEventKeepsNoPlayer(s, events[0]);
      FailedInitNeverBuildsPlayer(Apply(s, events[0]).state, events[1..]);
    }
  }

  /** The two readings agree on every link whose `to` holds no `%` once decoded. */
  lemma OpenAsWrittenWithoutPercent(v: Option<string>, to: Option<string>)
    requires '%' !in to.OrElse("")
    ensures OpenAsWritten(v, to) == Open(v, to)
  {
    DecodeComponentPlain(to.OrElse(""));
  }

  /**
   * As written, a name ending in `%` (such as "100%") reaches the page as
   * that text, its second decoding throws, and after any events there is
   * still no player: the tape can never play.
   */
  lemma TrailingPercentNeverPlays(ids: seq<string>, p: string, events: seq<Event>)
    requires FreeOf(ids, '&') && FreeOf(ids, '#')
    ensures OpenLinkAsWritten(PlayerTarget(ids, Encode(p + "%"))).error == Some(InitFailurePrefix + UriMalformed)
    ensures !Run(OpenLinkAsWritten(PlayerTarget(ids, Encode(p + "%"))), events).hasPlayer
  {
    LinkCarriesName(ids, p + "%");
    LoneEscapeThrows(p + "%", |p|);
    FailedInitNeverBuildsPlayer(OpenLinkAsWritten(PlayerTarget(ids, Encode(p + "%"))), events);
  }

  /**
   * Read once, the name the form sent is the name the page shows, whatever
   * it holds, and with at least one id the player gets built.
   */
  lemma OpenShowsSentName(ids: seq<string>, name: string)
    requires FreeOf(ids, '&') && FreeOf(ids, '#')
    ensures OpenLink(PlayerTarget(ids, Encode(name))).recipientName == name
    ensures OpenLink(PlayerTarget(ids, Encode(name))).error.None?
    ensures Apply(OpenLink(PlayerTarget(ids, Encode(name))), PlayerCreated).state.hasPlayer
  {
    var link := PlayerTarget(ids, Encode(name));
    LinkCarriesName(ids, name);
    TargetFields(ids, Encode(name));
    OpenedWithTracks(Get(LinkQuery(link), "v"), Get(LinkQuery(link), "to"));
  }

  /** A link with a `v` opens with tracks, and the player then gets built. */
  lemma OpenedWithTracks(v: Option<string>, to: Option<string>)
    requires v.Some?
    ensures Apply(Open(v, to), PlayerCreated).state.hasPlayer
  {
  }
}
