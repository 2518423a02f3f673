/**
 * The video-identifier extractor `getYoutubeId`, written out three times in
 * the repository (the form page, the player page and the mixtape route) with
 * the same regular expression
 *
 *     ^.*(youtu.be\/|v\/|u\/\w\/|embed\/|watch\?v=|&v=)([^#&?]*).*
 *
 * modelled here without a regex engine. The expression has neither the `s`
 * nor the `m` flag, so `^` anchors at the start of the input and `.` matches
 * any character except an ECMAScript line terminator. The greedy leading `.*`
 * backs off from the end of the first line until one of the six alternatives
 * matches, so the match uses the RIGHTMOST marker that starts on the first
 * line; the capture is then the longest run of characters other than `#`,
 * `&` and `?`, and the result is that capture when its `length` is 11, and
 * `null` otherwise. Without the `u` flag the pattern works on UTF-16 code
 * units: the `.` in `youtu.be` is one code unit, and `length` counts a
 * character above U+FFFF twice.
 */
module YoutubeId {
  import opened Nullable
  import opened Seqs

  /** ECMAScript's LineTerminator: the characters `.` does not match. */
  predicate IsLineTerminator(c: char) {
    c == '\n' || c == '\r' || c == '\U{2028}' || c == '\U{2029}'
  }

  /** The class `\w`: ASCII letters, digits and underscore. */
  predicate IsWordChar(c: char) {
    'a' <= c <= 'z' || 'A' <= c <= 'Z' || '0' <= c <= '9' || c == '_'
  }

  /** The three characters the capture class `[^#&?]` excludes. */
  predicate IsDelimiter(c: char) {
    c == '#' || c == '&' || c == '?'
  }

  /**
   * A character of the Basic Multilingual Plane: one UTF-16 code unit. The
   * pattern has no `u` flag, so it sees a string as code units; a character
   * above U+FFFF is two of them, a surrogate pair.
   */
  predicate IsBmp(c: char) {
    (c as int) < 0x10000
  }

  /** The `length` of a string as ECMAScript counts it: UTF-16 code units. */
  function Utf16Length(s: string): (n: nat)
    ensures |s| <= n <= 2 * |s|
  {
    if s == [] then 0 else (if IsBmp(s[0]) then 1 else 2) + Utf16Length(s[1..])
  }

  /** The `length` counts characters exactly when every character is one code unit. */
  lemma {:induction false} Utf16LengthIsCount(s: string)
    ensures Utf16Length(s) == |s| <==> forall i :: 0 <= i < |s| ==> IsBmp(s[i])
    decreases |s|
  {
    if s != [] {
      Utf16LengthIsCount(s[1..]);
      assert forall i :: 1 <= i < |s| ==> s[i] == s[1..][i - 1];
    }
  }

  /** The `length` of a concatenation is the sum of the lengths. */
  lemma {:induction false} Utf16LengthAppend(a: string, b: string)
    ensures Utf16Length(a + b) == Utf16Length(a) + Utf16Length(b)
    decreases |a|
  {
    if a != [] {
      assert (a + b)[0] == a[0];
      assert (a + b)[1..] == a[1..] + b;
      Utf16LengthAppend(a[1..], b);
    } else {
      assert a + b == b;
    }
  }

  /** The six alternatives of the first group, in the order the pattern lists them. */
  datatype Marker = ShortLink | V | User | Embed | Watch | AmpV {
    function Length(): nat {
      match this
      case ShortLink => 9
      case V => 2
      case User => 4
      case Embed => 6
      case Watch => 8
      case AmpV => 3
    }
  }

  /** Alternative `m` matches `s` starting at position `k`. */
  predicate MatchesAt(s: string, k: nat, m: Marker) {
    k + m.Length() <= |s| &&
    match m
    case ShortLink =>        // youtu.be\/  (the `.` is one code unit, not a line terminator)
      s[k..k + 5] == "youtu" && !IsLineTerminator(s[k + 5]) && IsBmp(s[k + 5]) && s[k + 6..k + 9] == "be/"
    case V =>                // v\/
      s[k..k + 2] == "v/"
    case User =>             // u\/\w\/
      s[k] == 'u' && s[k + 1] == '/' && IsWordChar(s[k + 2]) && s[k + 3] == '/'
    case Embed =>            // embed\/
      s[k..k + 6] == "embed/"
    case Watch =>            // watch\?v=
      s[k..k + 8] == "watch?v="
    case AmpV =>             // &v=
      s[k..k + 3] == "&v="
  }

  /** The character every match of `m` begins with. */
  function Initial(m: Marker): char {
    match m
    case ShortLink => 'y'
    case V => 'v'
    case User => 'u'
    case Embed => 'e'
    case Watch => 'w'
    case AmpV => '&'
  }

  lemma MatchBeginsWithInitial(s: string, k: nat, m: Marker)
    requires MatchesAt(s, k, m)
    ensures k < |s| && s[k] == Initial(m)
  {
    match m
    case ShortLink => assert s[k] == s[k..k + 5][0];
    case V => assert s[k] == s[k..k + 2][0];
    case User =>
    case Embed => assert s[k] == s[k..k + 6][0];
    case Watch => assert s[k] == s[k..k + 8][0];
    case AmpV => assert s[k] == s[k..k + 3][0];
  }

  /**
   * The alternative that matches at `k`, trying them in the pattern's order.
   * The six alternatives begin with six different characters, so at most one
   * of them matches at any position and the order never matters.
   */
  function MarkerAt(s: string, k: nat): (r: Option<Marker>)
    ensures r.Some? ==> MatchesAt(s, k, r.value)
    ensures forall m :: MatchesAt(s, k, m) ==> r == Some(m)
  {
    forall m | MatchesAt(s, k, m) ensures Initial(m) == s[k] {
      MatchBeginsWithInitial(s, k, m);
    }
    if MatchesAt(s, k, ShortLink) then Some(ShortLink)
    else if MatchesAt(s, k, V) then Some(V)
    else if MatchesAt(s, k, User) then Some(User)
    else if MatchesAt(s, k, Embed) then Some(Embed)
    else if MatchesAt(s, k, Watch) then Some(Watch)
    else if MatchesAt(s, k, AmpV) then Some(AmpV)
    else None
  }

  /** The end of the first line: how far the leading `.*` can reach. */
  function FirstLineEnd(s: string): (e: nat)
    ensures e <= |s|
    ensures forall i :: 0 <= i < e ==> !IsLineTerminator(s[i])
    ensures e < |s| ==> IsLineTerminator(s[e])
  {
    FirstFrom(s, 0, IsLineTerminator)
  }

  /** The leading `.*` can stop at `k` and an alternative matches there. */
  predicate Candidate(s: string, k: nat) {
    k <= FirstLineEnd(s) && MarkerAt(s, k).Some?
  }

  /** `k` is where the regex's match places the marker: the last candidate. */
  ghost predicate IsMatchPosition(s: string, k: nat) {
    Candidate(s, k) && forall j: nat :: Candidate(s, j) ==> j <= k
  }

  /** The last position at or before `k` where some alternative matches. */
  function LastMarker(s: string, k: nat): (r: Option<nat>)
    ensures r.Some? ==> r.value <= k && MarkerAt(s, r.value).Some?
    ensures forall j: nat :: j <= k && (r.None? || r.value < j) ==> MarkerAt(s, j).None?
    decreases k
  {
    if MarkerAt(s, k).Some? then Some(k)
    else if k == 0 then None
    else LastMarker(s, k - 1)
  }

  /** The backtracking of the greedy `.*`: the position of the marker in the match, if any. */
  function MatchStart(s: string): (r: Option<nat>)
    ensures r.Some? ==> IsMatchPosition(s, r.value)
    ensures r.None? ==> forall j: nat :: !Candidate(s, j)
  {
    LastMarker(s, FirstLineEnd(s))
  }

  /** Where the capture begins when the marker sits at `k`. */
  function GroupStart(s: string, k: nat): (st: nat)
    requires MarkerAt(s, k).Some?
    ensures k < st <= |s|
  {
    k + MarkerAt(s, k).value.Length()
  }

  /** The capture `([^#&?]*)` after the marker at `k`: the longest delimiter-free run. */
  function GroupAt(s: string, k: nat): (g: string)
    requires MarkerAt(s, k).Some?
    ensures GroupStart(s, k) + |g| <= |s|
    ensures g == s[GroupStart(s, k)..GroupStart(s, k) + |g|]
    ensures forall i :: 0 <= i < |g| ==> !IsDelimiter(g[i])
    ensures GroupStart(s, k) + |g| == |s| || IsDelimiter(s[GroupStart(s, k) + |g|])
  {
    var st := GroupStart(s, k);
    s[st..FirstFrom(s, st, IsDelimiter)]
  }

  /** `url.match(regExp)`, reduced to its second group; None when the pattern does not match. */
  function Capture(s: string): Option<string> {
    match MatchStart(s)
    case None => None
    case Some(k) => Some(GroupAt(s, k))
  }

  /** The pattern matches exactly when there is a candidate, and then captures the group after the last one. */
  lemma CaptureIsMatch(s: string)
    ensures Capture(s).Some? <==> exists k: nat :: Candidate(s, k)
    ensures Capture(s).Some? ==> exists k: nat :: IsMatchPosition(s, k) && Capture(s).value == GroupAt(s, k)
  {
  }

  /**
   * `getYoutubeId(url)`: the capture when its `length` is exactly 11 (UTF-16
   * code units), None (the source's `null`) otherwise. Only the rightmost marker on the first
   * line is considered: an 11-character run after an earlier marker does not
   * rescue a later marker whose run has another length.
   */
  function GetYoutubeId(url: string): (r: Option<string>)
    ensures r.Some? ==> Utf16Length(r.value) == 11
    ensures r.Some? ==> forall i :: 0 <= i < |r.value| ==> !IsDelimiter(r.value[i])
  {
    match Capture(url)
    case Some(g) => if Utf16Length(g) == 11 then Some(g) else None
    case None => None
  }

  /**
   * The extractor in terms of the regex's match: an id exactly when the
   * group after the match position has a `length` of 11, and then that group.
   */
  lemma GetYoutubeIdIsMatch(url: string)
    ensures GetYoutubeId(url).Some? <==> exists k: nat :: IsMatchPosition(url, k) && Utf16Length(GroupAt(url, k)) == 11
    ensures forall k: nat :: IsMatchPosition(url, k) && Utf16Length(GroupAt(url, k)) == 11 ==>
              GetYoutubeId(url) == Some(GroupAt(url, k))
  {
    CaptureIsMatch(url);
    forall k: nat | IsMatchPosition(url, k)
      ensures Capture(url) == Some(GroupAt(url, k))
    {
      MatchPositionUnique(url, MatchStart(url).value, k);
    }
  }

  /** The regex's match position, when there is one, is unique. */
  lemma MatchPositionUnique(s: string, k1: nat, k2: nat)
    requires IsMatchPosition(s, k1) && IsMatchPosition(s, k2)
    ensures k1 == k2
  {
  }
}

/** Consequences of the extractor's definition: where a returned id sits, and which links it reads. */
module YoutubeIdFacts {
  import opened Nullable
  import opened YoutubeId
  import opened Seqs

  /** The characters of a real video identifier: `\w` and `-`. */
  predicate IsIdChar(c: char) {
    IsWordChar(c) || c == '-'
  }

  predicate AllIdChars(t: string) {
    forall i :: 0 <= i < |t| ==> IsIdChar(t[i])
  }

  /** Identifier characters are one code unit each, so `length` counts them. */
  lemma IdCharsLength(t: string)
    requires AllIdChars(t)
    ensures Utf16Length(t) == |t|
  {
    Utf16LengthIsCount(t);
  }

  /** An 11-character string of identifier characters. */
  predicate IsVideoId(id: string) {
    |id| == 11 && AllIdChars(id)
  }

  /** The usual spelling of alternative `m` in a link; the `\w` of `u/\w/` is left free but is not `v`. */
  predicate IsSpelling(text: string, m: Marker) {
    match m
    case ShortLink => text == "youtu.be/"
    case V => text == "v/"
    case User => |text| == 4 && text[0] == 'u' && text[1] == '/' && IsWordChar(text[2]) && text[2] != 'v' && text[3] == '/'
    case Embed => text == "embed/"
    case Watch => text == "watch?v="
    case AmpV => text == "&v="
  }

  /** Whether alternative `m` matches at `k` depends only on the text from `k` on. */
  lemma MatchesAtSuffix(s: string, k: nat, m: Marker)
    requires k <= |s|
    ensures MatchesAt(s, k, m) <==> MatchesAt(s[k..], 0, m)
  {
    var t := s[k..];
    if k + m.Length() <= |s| {
      match m
      case ShortLink =>
        assert s[k..k + 5] == t[0..5];
        assert s[k + 6..k + 9] == t[6..9];
      case V => assert s[k..k + 2] == t[0..2];
      case User =>
      case Embed => assert s[k..k + 6] == t[0..6];
      case Watch => assert s[k..k + 8] == t[0..8];
      case AmpV => assert s[k..k + 3] == t[0..3];
    }
  }

  /** Text placed in front of a string moves its markers but does not change them. */
  lemma MarkerAtShift(a: string, t: string, j: nat)
    requires j <= |t|
    ensures MarkerAt(a + t, |a| + j) == MarkerAt(t, j)
  {
    assert (a + t)[|a| + j..] == t[j..];
    forall m: Marker
      ensures MatchesAt(a + t, |a| + j, m) <==> MatchesAt(t, j, m)
    {
      MatchesAtSuffix(a + t, |a| + j, m);
      MatchesAtSuffix(t, j, m);
    }
  }

  /** The same, for an absolute position `j` past the text in front. */
  lemma MarkerAtShiftBack(a: string, t: string, j: nat)
    requires |a| <= j <= |a| + |t|
    ensures MarkerAt(a + t, j) == MarkerAt(t, j - |a|)
  {
    MarkerAtShift(a, t, j - |a|);
  }

  /** The second character of every match of `m`. */
  function Second(m: Marker): char {
    match m
    case ShortLink => 'o'
    case V => '/'
    case User => '/'
    case Embed => 'm'
    case Watch => 'a'
    case AmpV => 'v'
  }

  lemma MatchChars(s: string, k: nat, m: Marker)
    requires MatchesAt(s, k, m)
    ensures k + 1 < |s| && s[k] == Initial(m) && s[k + 1] == Second(m)
    ensures m == User ==> k + 3 < |s| && s[k + 3] == '/'
  {
    MatchBeginsWithInitial(s, k, m);
    match m
    case ShortLink => assert s[k + 1] == s[k..k + 5][1];
    case V => assert s[k + 1] == s[k..k + 2][1];
    case User =>
    case Embed => assert s[k + 1] == s[k..k + 6][1];
    case Watch => assert s[k + 1] == s[k..k + 8][1];
    case AmpV => assert s[k + 1] == s[k..k + 3][1];
  }

  /** No alternative starts strictly inside the usual spelling of a marker followed by an id. */
  lemma NoMarkerInside(text: string, m: Marker, tail: string, o: nat)
    requires IsSpelling(text, m)
    requires 0 < o < |text|
    requires |tail| >= 2 && IsIdChar(tail[0]) && IsIdChar(tail[1])
    ensures MarkerAt(text + tail, o).None?
  {
    var s := text + tail;
    assert s[o] == text[o];
    assert s[o + 1] == if o + 1 < |text| then text[o + 1] else tail[0];
    assert o + 3 < |s| ==> s[o + 3] == if o + 3 < |text| then text[o + 3] else tail[o + 3 - |text|];
    if MarkerAt(s, o).Some? {
      var m' := MarkerAt(s, o).value;
      MatchChars(s, o, m');
      assert false;
    }
  }

  /** Every match of `m` holds a `/`, `?` or `&` at this offset. */
  function Anchor(m: Marker): nat {
    match m
    case ShortLink => 8
    case V => 1
    case User => 1
    case Embed => 5
    case Watch => 5
    case AmpV => 0
  }

  /** The character at the anchor offset of every match of `m`. */
  function AnchorChar(m: Marker): char {
    match m
    case Watch => '?'
    case AmpV => '&'
    case _ => '/'
  }

  lemma MatchHasAnchor(s: string, k: nat, m: Marker)
    requires MatchesAt(s, k, m)
    ensures k + Anchor(m) < |s| && s[k + Anchor(m)] == AnchorChar(m)
    ensures m == Watch ==> s[k + 6] == 'v'
  {
    match m
    case ShortLink => assert s[k + 8] == s[k + 6..k + 9][2];
    case V => assert s[k + 1] == s[k..k + 2][1];
    case User =>
    case Embed => assert s[k + 5] == s[k..k + 6][5];
    case Watch =>
      assert s[k + 5] == s[k..k + 8][5];
      assert s[k + 6] == s[k..k + 8][6];
    case AmpV => assert s[k] == s[k..k + 3][0];
  }

  /** A match of `m` stays a match when text is appended. */
  lemma MatchesAtExtend(t: string, u: string, k: nat, m: Marker)
    requires MatchesAt(t, k, m)
    ensures MatchesAt(t + u, k, m)
  {
    MatchesAtSuffix(t, k, m);
    MatchesAtSuffix(t + u, k, m);
    var n := m.Length();
    assert (t + u)[k..][..n] == t[k..][..n];
    match m
    case ShortLink =>
      assert (t + u)[k..][0..5] == t[k..][0..5];
      assert (t + u)[k..][6..9] == t[k..][6..9];
    case V => assert (t + u)[k..][0..2] == t[k..][0..2];
    case User =>
    case Embed => assert (t + u)[k..][0..6] == t[k..][0..6];
    case Watch => assert (t + u)[k..][0..8] == t[k..][0..8];
    case AmpV => assert (t + u)[k..][0..3] == t[k..][0..3];
  }

  /** The first line reaches past a prefix free of line terminators. */
  lemma FirstLineCoversPrefix(prefix: string, rest: string)
    requires forall i :: 0 <= i < |prefix| ==> !IsLineTerminator(prefix[i])
    ensures |prefix| <= FirstLineEnd(prefix + rest)
  {
    assert forall i :: 0 <= i < |prefix| ==> (prefix + rest)[i] == prefix[i];
  }

  /** The usual spelling of `m`, whatever follows it, matches `m` at its start. */
  lemma SpelledMarkerAt(prefix: string, text: string, m: Marker, tail: string)
    requires IsSpelling(text, m)
    ensures MarkerAt(prefix + (text + tail), |prefix|) == Some(m)
  {
    assert MatchesAt(text, 0, m);
    MatchesAtExtend(text, tail, 0, m);
    MarkerAtShift(prefix, text + tail, 0);
  }

  /** The marker right after a first-line prefix is a candidate. */
  lemma SpelledMarkerIsCandidate(prefix: string, text: string, m: Marker, tail: string)
    requires forall i :: 0 <= i < |prefix| ==> !IsLineTerminator(prefix[i])
    requires IsSpelling(text, m)
    ensures MarkerAt(prefix + (text + tail), |prefix|) == Some(m)
    ensures Candidate(prefix + (text + tail), |prefix|)
  {
    SpelledMarkerAt(prefix, text, m, tail);
    FirstLineCoversPrefix(prefix, text + tail);
  }

  /** The first line of a string, past a prefix, ends no later than the first line of what follows the prefix. */
  lemma FirstLineOfTail(head: string, tail: string)
    requires |head| <= FirstLineEnd(head + tail)
    ensures FirstLineEnd(head + tail) - |head| <= FirstLineEnd(tail)
  {
    var e := FirstLineEnd(tail);
    if e < |tail| {
      assert (head + tail)[|head| + e] == tail[e];
    }
  }

  /** Candidates of the tail are candidates of the whole string, shifted. */
  lemma TailCandidate(head: string, tail: string, j: nat)
    requires |head| <= j
    requires Candidate(head + tail, j)
    ensures Candidate(tail, j - |head|)
  {
    MarkerAtShiftBack(head, tail, j);
    FirstLineOfTail(head, tail);
  }

  /** After a usual marker followed by an id, only the tail can hold a later candidate. */
  lemma NoLaterCandidate(prefix: string, text: string, m: Marker, tail: string, j: nat)
    requires IsSpelling(text, m)
    requires |tail| >= 2 && IsIdChar(tail[0]) && IsIdChar(tail[1])
    requires MatchStart(tail).None?
    requires Candidate(prefix + (text + tail), j)
    ensures j <= |prefix|
  {
    var p := |prefix|;
    if p < j < p + |text| {
      NoCandidateInsideSpelling(prefix, text, m, tail, j);
      assert false;
    } else if p + |text| <= j {
      NoCandidateInTail(prefix, text, tail, j);
      assert false;
    }
  }

  /** No alternative matches strictly inside the usual spelling of a marker followed by an id. */
  lemma NoCandidateInsideSpelling(prefix: string, text: string, m: Marker, tail: string, j: nat)
    requires IsSpelling(text, m)
    requires |tail| >= 2 && IsIdChar(tail[0]) && IsIdChar(tail[1])
    requires |prefix| < j < |prefix| + |text|
    ensures MarkerAt(prefix + (text + tail), j).None?
  {
    NoMarkerInside(text, m, tail, j - |prefix|);
    ShiftedNoMarker(prefix, text + tail, j);
  }

  /** A position of `t` where nothing matches stays such a position when text is placed in front. */
  lemma ShiftedNoMarker(a: string, t: string, j: nat)
    requires |a| <= j <= |a| + |t|
    requires MarkerAt(t, j - |a|).None?
    ensures MarkerAt(a + t, j).None?
  {
    MarkerAtShiftBack(a, t, j);
  }

  /** A tail without a match holds no candidate of the whole string. */
  lemma NoCandidateInTail(prefix: string, text: string, tail: string, j: nat)
    requires MatchStart(tail).None?
    requires |prefix| + |text| <= j
    ensures !Candidate(prefix + (text + tail), j)
  {
    AppendAssoc(prefix, text, tail);
    if Candidate(prefix + text + tail, j) {
      TailCandidate(prefix + text, tail, j);
      assert false;
    }
  }

  /**
   * What typically follows the id in a link: nothing, or a `?` or `#` and then
   * a query or fragment without `/`, `?` or `&` that does not begin with `v`.
   */
  predicate IsPlainQuery(q: string) {
    q == [] ||
    ((q[0] == '?' || q[0] == '#') && (|q| > 1 ==> q[1] != 'v') &&
     forall i :: 1 <= i < |q| ==> q[i] != '/' && q[i] != '?' && q[i] != '&')
  }

  /** Text without `/`, `#`, `&` and `?`: every identifier run is one, and so is any run of letters and emoji. */
  predicate IsPlainRun(t: string) {
    forall i :: 0 <= i < |t| ==> t[i] != '/' && !IsDelimiter(t[i])
  }

  /** A plain run followed by a plain query holds no match. */
  lemma NoMatchAfterRun(run: string, q: string)
    requires IsPlainRun(run)
    requires IsPlainQuery(q)
    ensures MatchStart(run + q).None?
  {
    var t := run + q;
    assert forall i :: 0 <= i < |t| && i != |run| ==> t[i] != '/' && t[i] != '?' && t[i] != '&' by {
      assert forall i :: 0 <= i < |run| ==> t[i] == run[i];
      assert forall i :: |run| < i < |t| ==> t[i] == q[i - |run|];
    }
    assert |run| < |t| ==> t[|run|] == q[0];
    assert |run| + 1 < |t| ==> t[|run| + 1] == q[1];
    forall j: nat ensures MarkerAt(t, j).None? {
      if MarkerAt(t, j).Some? {
        MatchHasAnchor(t, j, MarkerAt(t, j).value);
        assert false;
      }
    }
  }

  /** The capture after a marker, followed by a plain run and a delimiter or the end, is the run. */
  lemma GroupIsRun(s: string, k: nat, run: string, suffix: string)
    requires MarkerAt(s, k).Some?
    requires IsPlainRun(run)
    requires suffix == [] || IsDelimiter(suffix[0])
    requires s[GroupStart(s, k)..] == run + suffix
    ensures GroupAt(s, k) == run
  {
    var st := GroupStart(s, k);
    var g := GroupAt(s, k);
    assert |g| == |run|;
    assert g == s[st..][..|run|] == run;
  }

  /**
   * The capture of a link of the usual shape: any first-line text, a marker
   * spelled the usual way, a plain run that opens with two id characters, then
   * nothing or a `#`, `&` or `?` such that the run and what follows hold no
   * further match.
   */
  lemma LinkCapture(prefix: string, text: string, m: Marker, run: string, suffix: string)
    requires forall i :: 0 <= i < |prefix| ==> !IsLineTerminator(prefix[i])
    requires IsSpelling(text, m)
    requires |run| >= 2 && IsIdChar(run[0]) && IsIdChar(run[1]) && IsPlainRun(run)
    requires suffix == [] || IsDelimiter(suffix[0])
    requires MatchStart(run + suffix).None?
    ensures Capture(prefix + (text + (run + suffix))) == Some(run)
  {
    var tail := run + suffix;
    var s := prefix + (text + tail);
    var p := |prefix|;
    SpelledMarkerIsMatch(prefix, text, m, tail);
    SpellingLength(text, m);
    assert GroupStart(s, p) == p + |text|;
    assert s[p + |text|..] == tail;
    CaptureOfRun(s, p, run, suffix);
  }

  /** When the group after the match position begins with a plain run and a delimiter or the end, the capture is the run. */
  lemma CaptureOfRun(s: string, p: nat, run: string, suffix: string)
    requires IsMatchPosition(s, p)
    requires IsPlainRun(run)
    requires suffix == [] || IsDelimiter(suffix[0])
    requires s[GroupStart(s, p)..] == run + suffix
    ensures Capture(s) == Some(run)
  {
    CaptureAt(s, p);
    GroupIsRun(s, p, run, suffix);
  }

  /** The capture is the group after the match position. */
  lemma CaptureAt(s: string, p: nat)
    requires IsMatchPosition(s, p)
    ensures MarkerAt(s, p).Some?
    ensures Capture(s) == Some(GroupAt(s, p))
  {
    MatchPositionUnique(s, MatchStart(s).value, p);
  }

  /** The usual spelling of `m` is as long as every match of `m`. */
  lemma SpellingLength(text: string, m: Marker)
    requires IsSpelling(text, m)
    ensures |text| == m.Length()
  {
  }

  /** A usual marker after a first-line prefix, followed by an id run and a tail without a match, is the match. */
  lemma SpelledMarkerIsMatch(prefix: string, text: string, m: Marker, tail: string)
    requires forall i :: 0 <= i < |prefix| ==> !IsLineTerminator(prefix[i])
    requires IsSpelling(text, m)
    requires |tail| >= 2 && IsIdChar(tail[0]) && IsIdChar(tail[1])
    requires MatchStart(tail).None?
    ensures IsMatchPosition(prefix + (text + tail), |prefix|)
    ensures MarkerAt(prefix + (text + tail), |prefix|) == Some(m)
  {
    var s := prefix + (text + tail);
    SpelledMarkerIsCandidate(prefix, text, m, tail);
    forall j: nat | Candidate(s, j)
      ensures j <= |prefix|
    {
      NoLaterCandidate(prefix, text, m, tail, j);
    }
  }

  /**
   * A link of the usual shape yields its id: any first-line text, a marker
   * spelled the usual way, the 11-character id, then nothing or a plain query.
   */
  lemma ExtractsFromLink(prefix: string, text: string, m: Marker, id: string, query: string)
    requires forall i :: 0 <= i < |prefix| ==> !IsLineTerminator(prefix[i])
    requires IsSpelling(text, m)
    requires IsVideoId(id)
    requires IsPlainQuery(query)
    ensures GetYoutubeId(prefix + text + id + query) == Some(id)
  {
    NoMatchAfterRun(id, query);
    LinkCapture(prefix, text, m, id, query);
    IdCharsLength(id);
    AppendRight(prefix, text, id, query);
  }

  /** Text of a watch link up to and including its id stays on the first line. */
  lemma WatchLinkOnFirstLine(prefix: string, id: string)
    requires forall i :: 0 <= i < |prefix| ==> !IsLineTerminator(prefix[i])
    requires AllIdChars(id)
    ensures forall i :: 0 <= i < |prefix + "watch?v=" + id| ==> !IsLineTerminator((prefix + "watch?v=" + id)[i])
  {
  }

  /** A later `&v=` overrides an earlier `watch?v=`, even when the earlier id is well formed. */
  lemma LaterAmpVOverrides(prefix: string, first: string, second: string)
    requires forall i :: 0 <= i < |prefix| ==> !IsLineTerminator(prefix[i])
    requires IsVideoId(first) && IsVideoId(second)
    ensures GetYoutubeId(prefix + "watch?v=" + first + "&v=" + second) == Some(second)
  {
    var head := prefix + "watch?v=" + first;
    WatchLinkOnFirstLine(prefix, first);
    assert IsPlainQuery("");
    ExtractsFromLink(head, "&v=", AmpV, second, "");
    assert head + "&v=" + second + "" == head + "&v=" + second;
  }

  /** An earlier well-formed id does not rescue a later marker whose run has the wrong length. */
  lemma LaterShortRunGivesNull(prefix: string, first: string, second: string)
    requires forall i :: 0 <= i < |prefix| ==> !IsLineTerminator(prefix[i])
    requires IsVideoId(first)
    requires |second| >= 2 && |second| != 11 && AllIdChars(second)
    ensures GetYoutubeId(prefix + "watch?v=" + first + "&v=" + second) == None
  {
    var head := prefix + "watch?v=" + first;
    WatchLinkOnFirstLine(prefix, first);
    assert second + "" == second;
    NoMatchAfterRun(second, "");
    LinkCapture(head, "&v=", AmpV, second, "");
    IdCharsLength(second);
    AppendAssoc(head, "&v=", second);
  }

  /**
   * A character above U+FFFF counts twice in `length`: ten characters ending
   * in one, such as nine letters and an emoji, pass the 11-unit check and are
   * returned.
   */
  lemma AstralCharCountsTwice(prefix: string, text: string, m: Marker, run: string, c: char)
    requires forall i :: 0 <= i < |prefix| ==> !IsLineTerminator(prefix[i])
    requires IsSpelling(text, m)
    requires |run| == 9 && AllIdChars(run)
    requires !IsBmp(c)
    ensures GetYoutubeId(prefix + text + (run + [c])) == Some(run + [c])
  {
    var id := run + [c];
    assert id[0] == run[0] && id[1] == run[1];
    assert IsPlainRun(id) by {
      assert forall i :: 0 <= i < |run| ==> id[i] == run[i];
    }
    assert IsPlainQuery("");
    NoMatchAfterRun(id, "");
    assert id + "" == id;
    LinkCapture(prefix, text, m, id, "");
    assert prefix + (text + id) == prefix + text + id;
    IdCharsLength(run);
    Utf16LengthAppend(run, [c]);
  }

  /**
   * The `.` of `youtu.be` is one code unit, so a character above U+FFFF in its
   * place leaves the short-link alternative unmatched, and a text without any
   * other `/`, `#`, `&` or `?` yields no id.
   */
  lemma AstralWildcardGivesNull(prefix: string, c: char, id: string)
    requires IsPlainRun(prefix) && IsPlainRun(id)
    requires !IsBmp(c)
    ensures GetYoutubeId(prefix + ("youtu" + [c] + "be/" + id)) == None
  {
    var p := |prefix|;
    var s := prefix + ("youtu" + [c] + "be/" + id);
    assert forall i :: 0 <= i < p ==> s[i] == prefix[i];
    assert forall i :: p + 9 <= i < |s| ==> s[i] == id[i - p - 9];
    assert s[p + 3] == 't' && s[p + 5] == c && s[p + 7] == 'e' && s[p + 8] == '/';
    forall j: nat ensures MarkerAt(s, j).None? {
      NoMarkerAroundWildcard(s, p + 8, j);
    }
  }

  /**
   * In a text whose only `/`, `#`, `&` or `?` is the `/` of `youtu?be/` with a
   * character above U+FFFF for the `?`, no alternative matches anywhere.
   */
  lemma NoMarkerAroundWildcard(s: string, a: nat, j: nat)
    requires 8 <= a < |s|
    requires forall i :: 0 <= i < |s| && i != a ==> s[i] != '/' && !IsDelimiter(s[i])
    requires s[a - 5] == 't' && !IsBmp(s[a - 3]) && s[a - 1] == 'e' && s[a] == '/'
    ensures MarkerAt(s, j).None?
  {
    if MarkerAt(s, j).Some? {
      var m := MarkerAt(s, j).value;
      MatchHasAnchor(s, j, m);
      MatchChars(s, j, m);
      assert false;
    }
  }

  /**
   * `id` sits in `url` right after a match of `m` at `k`, which starts on the
   * first line, and right before the end of the input or a `#`, `&` or `?`.
   */
  predicate SitsAfterMarker(url: string, k: nat, m: Marker, id: string) {
    k <= FirstLineEnd(url) && MatchesAt(url, k, m) &&
    k + m.Length() + |id| <= |url| &&
    url[k + m.Length()..k + m.Length() + |id|] == id &&
    (k + m.Length() + |id| == |url| || IsDelimiter(url[k + m.Length() + |id|]))
  }

  /** Where a returned id sits: right after the match of one of the six alternatives. */
  lemma IdFollowsMarker(url: string)
    requires GetYoutubeId(url).Some?
    ensures exists k: nat, m: Marker :: SitsAfterMarker(url, k, m, GetYoutubeId(url).value)
  {
    var k := MatchStart(url).value;
    var m := MarkerAt(url, k).value;
    assert GetYoutubeId(url).value == GroupAt(url, k);
    GroupSitsAfterMarker(url, k);
  }

  /** The group after the marker at a candidate position sits right after that marker. */
  lemma GroupSitsAfterMarker(url: string, k: nat)
    requires Candidate(url, k)
    ensures SitsAfterMarker(url, k, MarkerAt(url, k).value, GroupAt(url, k))
  {
  }

  /** Text without `/`, `#`, `&` and `?` yields no id: every alternative holds one of them. */
  lemma NoIdWithoutAnchor(url: string)
    requires IsPlainRun(url)
    ensures GetYoutubeId(url) == None
  {
    forall j: nat ensures MarkerAt(url, j).None? {
      if MarkerAt(url, j).Some? {
        MatchHasAnchor(url, j, MarkerAt(url, j).value);
        assert false;
      }
    }
  }

  /** A character some alternative begins with. */
  predicate IsMarkerInitial(c: char) {
    c == 'y' || c == 'v' || c == 'u' || c == 'e' || c == 'w' || c == '&'
  }

  lemma MatchStartsWithMarkerInitial(s: string, k: nat, m: Marker)
    ensures MatchesAt(s, k, m) ==> k < |s| && IsMarkerInitial(s[k])
  {
    if MatchesAt(s, k, m) {
      MatchBeginsWithInitial(s, k, m);
    }
  }

  /** A url holding none of `y`, `v`, `u`, `e`, `w` and `&` yields no id: no alternative can match in it. */
  lemma NoIdWithoutMarkerInitial(url: string)
    requires forall i :: 0 <= i < |url| ==> !IsMarkerInitial(url[i])
    ensures GetYoutubeId(url) == None
  {
    forall k: nat, m: Marker ensures !MatchesAt(url, k, m) {
      MatchStartsWithMarkerInitial(url, k, m);
    }
  }
}
