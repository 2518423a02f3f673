/** JavaScript's `null`-or-value, as the query reader and the id extractor return it. */
module Nullable {

  datatype Option<T> = None | Some(value: T) {

    /** The held value, else `fallback`: what `x || fallback` gives for a string `x` that may be `null`. */
    function OrElse(fallback: T): T {
      if Some? then value else fallback
    }
  }
}

/**
 * The Array and String methods the mixtape code relies on: `filter`, `map`,
 * `join(',')` and `split(',')`, with ECMAScript's edge cases.
 */
module Seqs {
  import opened Nullable

  /** `Array.prototype.filter`: the elements satisfying `p`, in their original order. */
  function Filter<T>(s: seq<T>, p: T -> bool): (r: seq<T>)
    ensures |r| <= |s|
    ensures forall i :: 0 <= i < |r| ==> p(r[i])
    decreases |s|
  {
    if s == [] then []
    else (if p(s[0]) then [s[0]] else []) + Filter(s[1..], p)
  }

  /** The filter keeps exactly the elements satisfying `p`. */
  lemma {:induction false} FilterMembers<T>(s: seq<T>, p: T -> bool)
    ensures forall i :: 0 <= i < |Filter(s, p)| ==> Filter(s, p)[i] in s
    ensures forall i :: 0 <= i < |s| && p(s[i]) ==> s[i] in Filter(s, p)
    decreases |s|
  {
    if s != [] {
      FilterMembers(s[1..], p);
      var head := if p(s[0]) then [s[0]] else [];
      var r := Filter(s, p);
      assert r == head + Filter(s[1..], p);
      assert forall i :: 0 <= i < |r| ==> r[i] in s by {
        forall i | 0 <= i < |r| ensures r[i] in s {
          if i >= |head| {
            assert r[i] == Filter(s[1..], p)[i - |head|];
            assert r[i] in s[1..];
          }
        }
      }
      forall i | 0 <= i < |s| && p(s[i]) ensures s[i] in r {
        if i > 0 {
          assert s[i] == s[1..][i - 1];
        }
      }
    }
  }

  /** `Array.prototype.map`. */
  function Map<T, U>(s: seq<T>, f: T -> U): (r: seq<U>)
    ensures |r| == |s|
    ensures forall i :: 0 <= i < |s| ==> r[i] == f(s[i])
  {
    seq(|s|, i requires 0 <= i < |s| => f(s[i]))
  }

  /** Regrouping a three-part concatenation to the right. */
  lemma AppendAssoc<T>(a: seq<T>, b: seq<T>, c: seq<T>)
    ensures a + b + c == a + (b + c)
  {
  }

  /** Regrouping a four-part concatenation to the right. */
  lemma AppendRight<T>(a: seq<T>, b: seq<T>, c: seq<T>, d: seq<T>)
    ensures a + b + c + d == a + (b + (c + d))
  {
  }

  /** Mapping distributes over concatenation. */
  lemma MapAppend<T, U>(a: seq<T>, b: seq<T>, f: T -> U)
    ensures Map(a + b, f) == Map(a, f) + Map(b, f)
  {
    var l, r := Map(a + b, f), Map(a, f) + Map(b, f);
    assert |l| == |r|;
    forall i | 0 <= i < |l| ensures l[i] == r[i] {
      if i < |a| {
        assert (a + b)[i] == a[i];
      } else {
        assert (a + b)[i] == b[i - |a|];
      }
    }
  }

  /** Filtering keeps relative order: it distributes over concatenation. */
  lemma {:induction false} FilterAppend<T>(a: seq<T>, b: seq<T>, p: T -> bool)
    ensures Filter(a + b, p) == Filter(a, p) + Filter(b, p)
    decreases |a|
  {
    if a == [] {
      assert a + b == b;
    } else {
      assert (a + b)[1..] == a[1..] + b;
      FilterAppend(a[1..], b, p);
    }
  }

  /** A filter whose predicate holds of every element changes nothing. */
  lemma {:induction false} FilterAll<T>(s: seq<T>, p: T -> bool)
    requires forall i :: 0 <= i < |s| ==> p(s[i])
    ensures Filter(s, p) == s
    decreases |s|
  {
    if s != [] {
      FilterAll(s[1..], p);
    }
  }

  /** Two predicates that agree on every element filter alike. */
  lemma {:induction false} FilterAgree<T>(s: seq<T>, p: T -> bool, q: T -> bool)
    requires forall i :: 0 <= i < |s| ==> p(s[i]) == q(s[i])
    ensures Filter(s, p) == Filter(s, q)
    decreases |s|
  {
    if s != [] {
      FilterAgree(s[1..], p, q);
    }
  }

  /** Filtering after mapping is mapping after filtering with the composed predicate. */
  lemma {:induction false} FilterMap<T, U>(s: seq<T>, f: T -> U, p: U -> bool)
    ensures Filter(Map(s, f), p) == Map(Filter(s, x => p(f(x))), f)
    decreases |s|
  {
    if s != [] {
      assert Map(s, f)[1..] == Map(s[1..], f);
      FilterMap(s[1..], f, p);
    }
  }

  /** The first index at or after `i` whose element satisfies `p`, or `|s|` when there is none. */
  function FirstFrom<T>(s: seq<T>, i: nat, p: T -> bool): (j: nat)
    requires i <= |s|
    ensures i <= j <= |s|
    ensures forall k :: i <= k < j ==> !p(s[k])
    ensures j < |s| ==> p(s[j])
    decreases |s| - i
  {
    if i == |s| || p(s[i]) then i else FirstFrom(s, i + 1, p)
  }

  /** The test "is the character `c`", as a function value shared by every use. */
  function Is(c: char): char -> bool {
    x => x == c
  }

  /** `Array.prototype.join(sep)` on strings: `[]` joins to "", one part joins to itself. */
  function Join(parts: seq<string>, sep: char): (r: string)
    ensures |parts| == 1 ==> r == parts[0]
    decreases |parts|
  {
    if parts == [] then ""
    else if |parts| == 1 then parts[0]
    else parts[0] + [sep] + Join(parts[1..], sep)
  }

  /**
   * `String.prototype.split(sep)` for a one-character separator: the pieces
   * between separators, in order. There is always at least one piece, so the
   * empty string splits into `[""]`.
   */
  function Split(s: string, sep: char): (r: seq<string>)
    ensures |r| >= 1
    ensures forall i :: 0 <= i < |r| ==> sep !in r[i]
    ensures sep !in s ==> r == [s]
    decreases |s|
  {
    var i := FirstFrom(s, 0, Is(sep));
    if i == |s| then [s]
    else [s[..i]] + Split(s[i + 1..], sep)
  }

  /** Splitting a separator-free prefix off a string. */
  lemma SplitCons(a: string, b: string, sep: char)
    requires sep !in a
    ensures Split(a + [sep] + b, sep) == [a] + Split(b, sep)
  {
    var s := a + [sep] + b;
    var i := FirstFrom(s, 0, Is(sep));
    assert s[|a|] == sep;
    assert i == |a|;
    assert s[..i] == a;
    assert s[i + 1..] == b;
  }

  /** Split undoes Join when no part contains the separator and there is at least one part. */
  lemma {:induction false} SplitJoin(parts: seq<string>, sep: char)
    requires |parts| >= 1
    requires forall i :: 0 <= i < |parts| ==> sep !in parts[i]
    ensures Split(Join(parts, sep), sep) == parts
    decreases |parts|
  {
    if |parts| > 1 {
      SplitJoin(parts[1..], sep);
      SplitCons(parts[0], Join(parts[1..], sep), sep);
    }
  }

  /** Joining a part in front of at least one more part puts the separator between them. */
  lemma JoinCons(a: string, rest: seq<string>, sep: char)
    requires rest != []
    ensures Join([a] + rest, sep) == a + [sep] + Join(rest, sep)
  {
    assert ([a] + rest)[1..] == rest;
  }

  /** A string with a separator splits at its first one. */
  lemma SplitAtFirst(s: string, sep: char)
    requires FirstFrom(s, 0, Is(sep)) < |s|
    ensures var i := FirstFrom(s, 0, Is(sep));
            Split(s, sep) == [s[..i]] + Split(s[i + 1..], sep) &&
            s == s[..i] + [sep] + s[i + 1..]
  {
    var i := FirstFrom(s, 0, Is(sep));
    assert Is(sep)(s[i]);
    Around(s, i);
  }

  /** Appending nothing changes nothing, on either side. */
  lemma AppendEmpty<T>(a: seq<T>)
    ensures a + [] == a
    ensures [] + a == a
  {
  }

  /** A non-empty sequence followed by `x` is its head, then its tail followed by `x`. */
  lemma ConsAppend<T>(s: seq<T>, x: seq<T>)
    requires s != []
    ensures [s[0]] + (s[1..] + x) == s + x
  {
  }

  /** The tail of a two-element sequence, and of a one-element sequence. */
  lemma ShortTails<T>(a: T, b: T)
    ensures [a, b][1..] == [b]
    ensures [b][1..] == []
  {
  }

  /** A sequence is the part before position `i`, the element at `i` and the part after. */
  lemma Around<T>(s: seq<T>, i: nat)
    requires i < |s|
    ensures s == s[..i] + [s[i]] + s[i + 1..]
  {
  }

  /** Join undoes Split on every string. */
  lemma {:induction false} JoinSplit(s: string, sep: char)
    ensures Join(Split(s, sep), sep) == s
    decreases |s|
  {
    var i := FirstFrom(s, 0, Is(sep));
    if i < |s| {
      SplitAtFirst(s, sep);
      JoinSplit(s[i + 1..], sep);
      JoinCons(s[..i], Split(s[i + 1..], sep), sep);
    }
  }

  /** The present values of a sequence of nullable values, in order (`filter(x => x !== null)`). */
  function Values<T>(opts: seq<Option<T>>): (r: seq<T>)
    ensures |r| <= |opts|
    decreases |opts|
  {
    if opts == [] then []
    else (if opts[0].Some? then [opts[0].value] else []) + Values(opts[1..])
  }

  /** Every present value is kept and nothing else appears. */
  lemma {:induction false} ValuesMembers<T>(opts: seq<Option<T>>)
    ensures forall i :: 0 <= i < |Values(opts)| ==> Some(Values(opts)[i]) in opts
    ensures forall i :: 0 <= i < |opts| && opts[i].Some? ==> opts[i].value in Values(opts)
    decreases |opts|
  {
    if opts != [] {
      ValuesMembers(opts[1..]);
      var head := if opts[0].Some? then [opts[0].value] else [];
      var r := Values(opts);
      assert r == head + Values(opts[1..]);
      forall i | 0 <= i < |r| ensures Some(r[i]) in opts {
        if i >= |head| {
          assert r[i] == Values(opts[1..])[i - |head|];
          assert Some(r[i]) in opts[1..];
        }
      }
      forall i | 0 <= i < |opts| && opts[i].Some? ensures opts[i].value in r {
        if i > 0 {
          assert opts[i] == opts[1..][i - 1];
        }
      }
    }
  }

  /** Dropping the absent values keeps order: it distributes over concatenation. */
  lemma {:induction false} ValuesAppend<T>(a: seq<Option<T>>, b: seq<Option<T>>)
    ensures Values(a + b) == Values(a) + Values(b)
    decreases |a|
  {
    if a == [] {
      assert a + b == b;
    } else {
      var head := if a[0].Some? then [a[0].value] else [];
      assert (a + b)[0] == a[0];
      assert (a + b)[1..] == a[1..] + b;
      assert Values(a + b) == head + Values(a[1..] + b);
      ValuesAppend(a[1..], b);
      assert Values(a) == head + Values(a[1..]);
    }
  }

  /** A property every present value has, every kept value has. */
  lemma {:induction false} ValuesKeep<T>(opts: seq<Option<T>>, p: T -> bool)
    requires forall i :: 0 <= i < |opts| && opts[i].Some? ==> p(opts[i].value)
    ensures forall i :: 0 <= i < |Values(opts)| ==> p(Values(opts)[i])
    decreases |opts|
  {
    if opts != [] {
      ValuesKeep(opts[1..], p);
      var head := if opts[0].Some? then [opts[0].value] else [];
      assert Values(opts) == head + Values(opts[1..]);
    }
  }
}
