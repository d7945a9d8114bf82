/**
 * The ECMAScript string built-ins the review handler relies on:
 * `String.prototype.trim`, `String.prototype.split` with a non-empty string
 * separator and no limit, and `String.prototype.replace` with a global literal
 * pattern and the empty replacement. A string is a sequence of characters.
 */
module JsString {
  import opened Wrappers

  /** The WhiteSpace and LineTerminator code points of ECMAScript, which `trim` removes. */
  predicate IsWS(c: char) {
    || c == '\t' || c == '\U{B}' || c == '\U{C}' || c == ' ' || c == '\U{A0}' || c == '\U{FEFF}'
    || c == '\U{1680}' || ('\U{2000}' <= c <= '\U{200A}') || c == '\U{202F}' || c == '\U{205F}'
    || c == '\U{3000}'
    || c == '\n' || c == '\r' || c == '\U{2028}' || c == '\U{2029}'
  }

  ghost predicate AllWS(s: string) {
    forall k :: 0 <= k < |s| ==> IsWS(s[k])
  }

  /** `p` occurs in `s` starting at index `i`. */
  ghost predicate Occurs(s: string, p: string, i: int) {
    0 <= i && i + |p| <= |s| && s[i..i + |p|] == p
  }

  ghost predicate Contains(s: string, p: string) {
    exists i :: Occurs(s, p, i)
  }

  /** `i` is the leftmost occurrence of `p` in `s`. */
  ghost predicate FirstOccurrence(s: string, p: string, i: int) {
    Occurs(s, p, i) && forall j :: 0 <= j < i ==> !Occurs(s, p, j)
  }

  /** `r` is `s` with a white-space prefix of length `i` and a white-space suffix taken off. */
  ghost predicate Framed(s: string, r: string, i: int) {
    0 <= i <= |s| - |r| && r == s[i..i + |r|] && AllWS(s[..i]) && AllWS(s[i + |r|..])
  }

  /** Neither end of `r` is white space. */
  ghost predicate Stripped(r: string) {
    r == [] || (!IsWS(r[0]) && !IsWS(r[|r| - 1]))
  }

  /** The end of the white-space run of `s` that starts at `from`. */
  function WhiteSpaceRunEnd(s: string, from: nat): (n: nat)
    requires from <= |s|
    ensures from <= n <= |s|
    ensures forall k :: from <= k < n ==> IsWS(s[k])
    ensures n == |s| || !IsWS(s[n])
    decreases |s| - from
  {
    if from < |s| && IsWS(s[from]) then WhiteSpaceRunEnd(s, from + 1) else from
  }

  /** The start of the white-space run of `s` that ends at `to`. */
  function WhiteSpaceRunStart(s: string, to: nat): (n: nat)
    requires to <= |s|
    ensures n <= to
    ensures forall k :: n <= k < to ==> IsWS(s[k])
    ensures n == 0 || !IsWS(s[n - 1])
  {
    if 0 < to && IsWS(s[to - 1]) then WhiteSpaceRunStart(s, to - 1) else to
  }

  /** `s` after its leading white space. */
  function TrimStart(s: string): (r: string)
    ensures |r| <= |s| && r == s[|s| - |r|..]
    ensures AllWS(s[..|s| - |r|])
    ensures r == [] || !IsWS(r[0])
  {
    s[WhiteSpaceRunEnd(s, 0)..]
  }

  /** `s` before its trailing white space. */
  function TrimEnd(s: string): (r: string)
    ensures |r| <= |s| && r == s[..|r|]
    ensures AllWS(s[|r|..])
    ensures r == [] || !IsWS(r[|r| - 1])
  {
    s[..WhiteSpaceRunStart(s, |s|)]
  }

  /** `String.prototype.trim`: white space is taken off both ends. */
  function Trim(s: string): (r: string)
    ensures Stripped(r)
  {
    TrimEnd(TrimStart(s))
  }

  /** ... and nothing else changes: `Trim(s)` is `s` less a white-space prefix and suffix. */
  lemma {:induction false} TrimTakesOffWhiteSpace(s: string)
    ensures Framed(s, Trim(s), |s| - |TrimStart(s)|)
    ensures Trim(s) == [] <==> AllWS(s)
  {
    var t := TrimStart(s);
    var r := TrimEnd(t);
    assert Trim(s) == r;
    TrimFramed(s, t, r, |s| - |t|);
  }

  /** Taking white space off the front and then off the back frames the result. */
  lemma {:induction false} TrimFramed(s: string, t: string, r: string, k: int)
    requires 0 <= k <= |s| && t == s[k..] && AllWS(s[..k]) && (t == [] || !IsWS(t[0]))
    requires |r| <= |t| && r == t[..|r|] && AllWS(t[|r|..])
    ensures Framed(s, r, k)
    ensures r == [] <==> AllWS(s)
  {
    assert s[k..][..|r|] == s[k..k + |r|];
    assert s[k + |r|..] == t[|r|..];
    if r == [] {
      assert t[|r|..] == t;
      AllWSConcat(s[..k], t);
      assert s[..k] + t == s;
    } else {
      NotAllWS(s, k);
    }
  }

  lemma {:induction false} NotAllWS(s: string, i: int)
    requires 0 <= i < |s| && !IsWS(s[i])
    ensures !AllWS(s)
  {
  }

  lemma {:induction false} AllWSConcat(a: string, b: string)
    requires AllWS(a) && AllWS(b)
    ensures AllWS(a + b)
  {
  }

  /**
   * The leftmost occurrence of `p` in `s` at or after `from` (`None` for no
   * match): StringIndexOf inside `split`, and for a literal global pattern
   * the same match the regular-expression scan inside `replace` finds.
   */
  function IndexOf(s: string, p: string, from: nat): (r: Option<nat>)
    requires from <= |s|
    ensures r.Some? ==> from <= r.value && Occurs(s, p, r.value)
    ensures r.Some? ==> forall j :: from <= j < r.value ==> !Occurs(s, p, j)
    ensures r.None? ==> forall j :: from <= j ==> !Occurs(s, p, j)
    decreases |s| - from
  {
    if from + |p| > |s| then None
    else if s[from..from + |p|] == p then Some(from)
    // Never taken (a mismatch needs a non-empty `p`, so `from < |s|`); it only shows termination.
    else if from == |s| then None
    else IndexOf(s, p, from + 1)
  }

  /** `Array.prototype.join`: the parts with `sep` between neighbours. */
  function Join(parts: seq<string>, sep: string): (r: string)
  {
    if |parts| == 0 then []
    else if |parts| == 1 then parts[0]
    else parts[0] + sep + Join(parts[1..], sep)
  }

  /**
   * Every part but the last is followed in the joined string by the leftmost
   * occurrence of `sep` after it, and the last part holds none.
   */
  ghost predicate CutAtFirstMatches(parts: seq<string>, sep: string) {
    && (forall k :: 0 <= k < |parts| - 1 ==> FirstOccurrence(parts[k] + sep, sep, |parts[k]|))
    && (|parts| > 0 ==> !Contains(parts[|parts| - 1], sep))
  }

  /**
   * `String.prototype.split(sep)` for a non-empty separator and no limit: the
   * string is cut at the leftmost occurrence of `sep`, and the rest after that
   * occurrence is cut again.
   */
  function Split(s: string, sep: string): (parts: seq<string>)
    requires sep != []
    ensures |parts| >= 1
    ensures Join(parts, sep) == s
    decreases |s|
  {
    match IndexOf(s, sep, 0)
    case None => [s]
    case Some(i) =>
      var rest := Split(s[i + |sep|..], sep);
      assert s[..i] + sep + s[i + |sep|..] == s by {
        assert s[..i + |sep|] == s[..i] + sep;
      }
      var parts := [s[..i]] + rest;
      assert parts[0] == s[..i] && parts[1..] == rest;
      assert Join(parts, sep) == s[..i] + sep + Join(rest, sep);
      parts
  }

  /** `Split` cuts at leftmost occurrences only: together with the round trip this pins it down. */
  lemma {:induction false} SplitCutsAtFirstMatches(s: string, sep: string)
    requires sep != []
    ensures CutAtFirstMatches(Split(s, sep), sep)
    decreases |s|
  {
    match IndexOf(s, sep, 0)
    case None =>
    case Some(i) =>
      var rest := s[i + |sep|..];
      SplitCutsAtFirstMatches(rest, sep);
      FirstOccurrenceOfPrefix(s, sep, i);
      var parts := Split(s, sep);
      var tail := Split(rest, sep);
      assert parts == [s[..i]] + tail;
      assert FirstOccurrence(parts[0] + sep, sep, |parts[0]|);
      forall k | 0 <= k < |parts| - 1
        ensures FirstOccurrence(parts[k] + sep, sep, |parts[k]|)
      {
        if k > 0 {
          assert parts[k] == tail[k - 1];
          assert FirstOccurrence(tail[k - 1] + sep, sep, |tail[k - 1]|);
        }
      }
      assert parts[|parts| - 1] == tail[|tail| - 1];
      assert !Contains(tail[|tail| - 1], sep);
  }

  /**
   * `s.replace(/pat/g, "")` for a pattern of plain characters: the global
   * match restarts at the end of each match, so matches never overlap.
   */
  function RemoveAll(s: string, pat: string): (r: string)
    requires pat != []
    ensures |r| <= |s|
    decreases |s|
  {
    match IndexOf(s, pat, 0)
    case None => s
    case Some(i) => s[..i] + RemoveAll(s[i + |pat|..], pat)
  }

  /** A first occurrence in `s` stays the first one in the prefix of `s` that ends with it. */
  lemma {:induction false} FirstOccurrenceOfPrefix(s: string, p: string, i: nat)
    requires FirstOccurrence(s, p, i)
    ensures s[..i] + p == s[..i + |p|]
    ensures FirstOccurrence(s[..i] + p, p, i)
  {
    var t := s[..i + |p|];
    assert s[..i] + p == t;
    forall j | 0 <= j < i
      ensures !Occurs(t, p, j)
    {
      assert !Occurs(s, p, j);
      assert t[j..j + |p|] == s[j..j + |p|];
    }
  }

  /** ... and conversely, a first occurrence in a prefix stays the first one in every extension. */
  lemma {:induction false} FirstOccurrenceExtends(a: string, b: string, p: string, i: nat)
    requires FirstOccurrence(a, p, i)
    ensures FirstOccurrence(a + b, p, i)
  {
    var s := a + b;
    assert s[i..i + |p|] == a[i..i + |p|];
    forall j | 0 <= j < i
      ensures !Occurs(s, p, j)
    {
      assert !Occurs(a, p, j);
      assert s[j..j + |p|] == a[j..j + |p|];
    }
  }

  lemma {:induction false} FirstOccurrenceUnique(s: string, p: string, i: int, j: int)
    requires FirstOccurrence(s, p, i) && FirstOccurrence(s, p, j)
    ensures i == j
  {
  }

  /** `IndexOf` from the start finds the first occurrence. */
  lemma {:induction false} IndexOfFindsFirst(s: string, p: string, i: int)
    requires FirstOccurrence(s, p, i)
    ensures IndexOf(s, p, 0) == Some(i)
  {
    match IndexOf(s, p, 0)
    case None =>
      assert false;
    case Some(k) =>
      FirstOccurrenceUnique(s, p, i, k);
  }

  /** `s` with the prefix `head` and the suffix `tail` taken off, if it has both. */
  function Unwrap(s: string, head: string, tail: string): (r: Option<string>)
    ensures r.Some? ==> head + r.value + tail == s
  {
    if |s| >= |head| + |tail| && s[..|head|] == head && s[|s| - |tail|..] == tail then
      var mid := s[|head|..|s| - |tail|];
      assert s == s[..|head|] + mid + s[|s| - |tail|..];
      Some(mid)
    else
      None
  }

  lemma {:induction false} UnwrapWrapped(head: string, mid: string, tail: string)
    ensures Unwrap(head + mid + tail, head, tail) == Some(mid)
  {
    var s := head + mid + tail;
    assert s[..|head|] == head;
    assert s[|s| - |tail|..] == tail;
    assert s[|head|..|s| - |tail|] == mid;
  }

  /** At a first occurrence, `Split` makes one cut and splits the rest. */
  lemma {:induction false} SplitAtFirst(s: string, sep: string, i: int)
    requires sep != [] && FirstOccurrence(s, sep, i)
    ensures Split(s, sep) == [s[..i]] + Split(s[i + |sep|..], sep)
  {
    IndexOfFindsFirst(s, sep, i);
  }

  /** No proper suffix of `p` is also a prefix of it, so two occurrences of `p` never overlap. */
  ghost predicate Unbordered(p: string) {
    forall d :: 0 < d < |p| ==> p[d..] != p[..|p| - d]
  }

  /** An unbordered separator placed right after separator-free text is the first occurrence. */
  lemma {:induction false} FirstAfterFreeText(a: string, sep: string, t: string)
    requires Unbordered(sep) && !Contains(a, sep)
    ensures FirstOccurrence(a + sep + t, sep, |a|)
  {
    var s := a + sep + t;
    var m := |sep|;
    assert s[|a|..|a| + m] == sep;
    forall j | 0 <= j < |a|
      ensures !Occurs(s, sep, j)
    {
      if j + m <= |a| {
        assert !Occurs(a, sep, j);
        assert s[j..j + m] == a[j..j + m];
      } else {
        var d := |a| - j;
        assert sep[d..] != sep[..m - d];
        assert s[j..j + m][d..] == sep[..m - d];
      }
    }
  }

  /** Splitting separator-free text, an unbordered separator and more cuts right after the text. */
  lemma {:induction false} SplitAfterFreeText(a: string, sep: string, t: string)
    requires sep != [] && Unbordered(sep) && !Contains(a, sep)
    ensures Split(a + sep + t, sep) == [a] + Split(t, sep)
  {
    var s := a + sep + t;
    FirstAfterFreeText(a, sep, t);
    SplitAtFirst(s, sep, |a|);
    assert s[..|a|] == a;
    assert s[|a| + |sep|..] == t;
  }

  /** Cutting an occurrence-free string gives back the string whole. */
  lemma {:induction false} SplitWithoutSeparator(s: string, sep: string)
    requires sep != [] && !Contains(s, sep)
    ensures Split(s, sep) == [s]
  {
    match IndexOf(s, sep, 0)
    case None =>
    case Some(i) => assert false;
  }

  /**
   * Split is the only way to cut `s` at leftmost occurrences of `sep`: any
   * parts that join to `s` and are cut at first matches are `Split(s, sep)`.
   */
  lemma {:induction false} SplitUnique(s: string, sep: string, parts: seq<string>)
    requires sep != [] && |parts| >= 1
    requires Join(parts, sep) == s && CutAtFirstMatches(parts, sep)
    ensures Split(s, sep) == parts
    decreases |parts|
  {
    if |parts| == 1 {
      SplitWithoutSeparator(s, sep);
    } else {
      var p0 := parts[0];
      var tail := parts[1..];
      assert s == (p0 + sep) + Join(tail, sep);
      FirstOccurrenceExtends(p0 + sep, Join(tail, sep), sep, |p0|);
      assert Occurs(s, sep, |p0|);
      match IndexOf(s, sep, 0)
      case None =>
        assert false;
      case Some(i) =>
        FirstOccurrenceUnique(s, sep, i, |p0|);
        assert s[..i] == p0;
        assert s[i + |sep|..] == Join(tail, sep);
        assert CutAtFirstMatches(tail, sep) by {
          forall k | 0 <= k < |tail| - 1
            ensures FirstOccurrence(tail[k] + sep, sep, |tail[k]|)
          {
            assert tail[k] == parts[k + 1];
          }
        }
        SplitUnique(Join(tail, sep), sep, tail);
    }
  }

  /** No part of a split holds the separator. */
  lemma {:induction false} SplitPartFree(parts: seq<string>, sep: string, k: int)
    requires sep != [] && CutAtFirstMatches(parts, sep) && 0 <= k < |parts|
    ensures !Contains(parts[k], sep)
  {
    if k < |parts| - 1 {
      var a := parts[k];
      assert FirstOccurrence(a + sep, sep, |a|);
      forall j
        ensures !Occurs(a, sep, j)
      {
        if 0 <= j && j + |sep| <= |a| {
          assert !Occurs(a + sep, sep, j);
          assert (a + sep)[j..j + |sep|] == a[j..j + |sep|];
        }
      }
    }
  }

  /** Global removal is the same as splitting on the pattern and joining with nothing. */
  lemma {:induction false} RemoveAllIsSplitJoin(s: string, pat: string)
    requires pat != []
    ensures RemoveAll(s, pat) == Join(Split(s, pat), [])
    decreases |s|
  {
    match IndexOf(s, pat, 0)
    case None =>
    case Some(i) =>
      var rest := s[i + |pat|..];
      RemoveAllIsSplitJoin(rest, pat);
      var tail := Split(rest, pat);
      var parts := [s[..i]] + tail;
      assert Split(s, pat) == parts;
      assert |parts| >= 2 && parts[0] == s[..i] && parts[1..] == tail;
      assert Join(parts, []) == s[..i] + [] + Join(tail, []);
      assert s[..i] + [] == s[..i];
  }

  /** At the first match, `RemoveAll` keeps the text before it and goes on after it. */
  lemma {:induction false} RemoveAllAt(s: string, pat: string, i: int)
    requires pat != [] && IndexOf(s, pat, 0) == Some(i)
    ensures RemoveAll(s, pat) == s[..i] + RemoveAll(s[i + |pat|..], pat)
  {
  }

  /** Removal changes the string exactly when the pattern occurs in it. */
  lemma {:induction false} RemoveAllUnchangedIff(s: string, pat: string)
    requires pat != []
    ensures RemoveAll(s, pat) == s <==> !Contains(s, pat)
  {
    match IndexOf(s, pat, 0)
    case None =>
    case Some(i) =>
      RemoveAllAt(s, pat, i);
      assert |RemoveAll(s, pat)| < |s|;
  }

  /** A pattern at the very start is removed, and removal goes on after it. */
  lemma {:induction false} RemoveAllLeading(p: string, t: string)
    requires p != []
    ensures RemoveAll(p + t, p) == RemoveAll(t, p)
  {
    var s := p + t;
    assert s[0..|p|] == p;
    assert IndexOf(s, p, 0) == Some(0);
    RemoveAllAt(s, p, 0);
    assert s[|p|..] == t;
  }

  /** A first character that cannot start the pattern is kept, and removal goes on after it. */
  lemma {:induction false} RemoveAllCons(c: char, t: string, p: string)
    requires p != [] && c != p[0]
    ensures RemoveAll([c] + t, p) == [c] + RemoveAll(t, p)
  {
    match IndexOf(t, p, 0)
    case None =>
      RemoveAllConsFree(c, t, p);
    case Some(i) =>
      assert FirstOccurrence(t, p, i);
      RemoveAllConsAt(c, t, p, i);
  }

  /** Helper: `RemoveAllCons` when `t` holds no match. */
  lemma {:induction false} RemoveAllConsFree(c: char, t: string, p: string)
    requires p != [] && c != p[0] && IndexOf(t, p, 0) == None
    ensures RemoveAll([c] + t, p) == [c] + RemoveAll(t, p)
  {
    assert !Contains(t, p);
    ConsFree(c, t, p);
    RemoveAllUnchangedIff([c] + t, p);
    RemoveAllUnchangedIff(t, p);
  }

  /** Helper: `RemoveAllCons` when the first match in `t` is at `i`. */
  lemma {:induction false} RemoveAllConsAt(c: char, t: string, p: string, i: int)
    requires p != [] && c != p[0] && FirstOccurrence(t, p, i)
    ensures RemoveAll([c] + t, p) == [c] + RemoveAll(t, p)
  {
    ConsFirstOccurrence(c, t, p, i);
    RemoveAllFirst([c] + t, p, i + 1);
    RemoveAllFirst(t, p, i);
    assert ([c] + t)[i + 1 + |p|..] == t[i + |p|..];
    ConsCombine(c, t, i, |p|, RemoveAll([c] + t, p), RemoveAll(t, p),
                RemoveAll(([c] + t)[i + 1 + |p|..], p));
  }

  /** Helper: `RemoveAllAt` stated for the first occurrence. */
  lemma {:induction false} RemoveAllFirst(s: string, p: string, i: int)
    requires p != [] && FirstOccurrence(s, p, i)
    ensures i + |p| <= |s| && RemoveAll(s, p) == s[..i] + RemoveAll(s[i + |p|..], p)
  {
    IndexOfFindsFirst(s, p, i);
    RemoveAllAt(s, p, i);
  }

  /** Helper: the text kept before a match, one character longer, followed by the same rest. */
  lemma {:induction false} ConsCombine(c: char, t: string, i: int, n: nat, a: string, b: string, rest: string)
    requires 0 <= i && i + n <= |t|
    requires a == ([c] + t)[..i + 1] + rest && b == t[..i] + rest
    ensures a == [c] + b
  {
    assert ([c] + t)[..i + 1] == [c] + t[..i];
  }

  /** Helper: the search in `[c] + t` finds the match one place on. */
  lemma {:induction false} ConsIndexOf(c: char, t: string, p: string, i: int)
    requires p != [] && c != p[0] && IndexOf(t, p, 0) == Some(i)
    ensures IndexOf([c] + t, p, 0) == Some(i + 1)
  {
    IndexOfFindsFirst(t, p, i);
    ConsFirstOccurrence(c, t, p, i);
    IndexOfFindsFirst([c] + t, p, i + 1);
  }

  /** Helper: a window of `[c] + t` past its first place is a window of `t`. */
  lemma {:induction false} ConsWindow(c: char, t: string, p: string, j: int)
    requires 0 < j && j + |p| <= |t| + 1
    ensures Occurs([c] + t, p, j) <==> Occurs(t, p, j - 1)
  {
    assert ([c] + t)[j..j + |p|] == t[j - 1..j - 1 + |p|];
  }

  /** Helper: a character that cannot start `p` adds no occurrence in front. */
  lemma {:induction false} ConsFree(c: char, t: string, p: string)
    requires p != [] && c != p[0] && !Contains(t, p)
    ensures !Contains([c] + t, p)
  {
    var s := [c] + t;
    forall j
      ensures !Occurs(s, p, j)
    {
      if 0 <= j && j + |p| <= |s| {
        if j == 0 {
          assert s[0..|p|][0] == c;
        } else {
          ConsWindow(c, t, p, j);
        }
      }
    }
  }

  /** Helper: ... and moves the first occurrence one place on. */
  lemma {:induction false} ConsFirstOccurrence(c: char, t: string, p: string, i: int)
    requires p != [] && c != p[0] && FirstOccurrence(t, p, i)
    ensures FirstOccurrence([c] + t, p, i + 1)
  {
    var s := [c] + t;
    ConsWindow(c, t, p, i + 1);
    forall j | 0 <= j < i + 1
      ensures !Occurs(s, p, j)
    {
      if j + |p| <= |s| {
        if j == 0 {
          assert s[0..|p|][0] == c;
        } else {
          ConsWindow(c, t, p, j);
        }
      }
    }
  }

  /** A window of `s[a..b]` is a window of `s`, so a string free of `p` has free substrings. */
  lemma {:induction false} SubstringFree(s: string, p: string, a: int, b: int)
    requires 0 <= a <= b <= |s| && !Contains(s, p)
    ensures !Contains(s[a..b], p)
  {
    forall j
      ensures !Occurs(s[a..b], p, j)
    {
      if 0 <= j && j + |p| <= b - a {
        assert !Occurs(s, p, a + j);
        SliceOfSlice(s, a, b, j, |p|);
      }
    }
  }

  /** A window of a slice is the matching window of the whole. */
  lemma {:induction false} SliceOfSlice(s: string, a: int, b: int, j: int, n: int)
    requires 0 <= a <= b <= |s| && 0 <= j && 0 <= n && j + n <= b - a
    ensures s[a..b][j..j + n] == s[a + j..a + j + n]
  {
    var window, whole := s[a..b][j..j + n], s[a + j..a + j + n];
    forall k | 0 <= k < n
      ensures window[k] == whole[k]
    {
      assert window[k] == s[a..b][j + k] == s[a + j + k];
    }
  }

  lemma {:induction false} TrimFree(s: string, p: string)
    requires !Contains(s, p)
    ensures !Contains(Trim(s), p)
  {
    var r := Trim(s);
    var i := |s| - |TrimStart(s)|;
    TrimTakesOffWhiteSpace(s);
    SubstringFree(s, p, i, i + |r|);
  }

  /** Trimming a trimmed string changes nothing. */
  lemma {:induction false} TrimIdempotent(s: string)
    ensures Trim(Trim(s)) == Trim(s)
  {
    var r := Trim(s);
    assert TrimStart(r) == r;
    assert TrimEnd(r) == r;
  }

  /** A pattern made of one repeated character, such as a code fence. */
  ghost predicate Uniform(p: string) {
    p != [] && forall k :: 0 <= k < |p| ==> p[k] == p[0]
  }

  /**
   * Joining two strings free of a uniform pattern cannot create it, as long as
   * the left one does not end with the pattern's character.
   */
  lemma {:induction false} ConcatUniformFree(a: string, b: string, p: string)
    requires Uniform(p) && !Contains(a, p) && !Contains(b, p)
    requires a == [] || a[|a| - 1] != p[0]
    ensures !Contains(a + b, p)
  {
    var s := a + b;
    forall j
      ensures !Occurs(s, p, j)
    {
      if 0 <= j && j + |p| <= |s| {
        if j + |p| <= |a| {
          assert !Occurs(a, p, j);
          assert s[j..j + |p|] == a[j..j + |p|];
        } else if j >= |a| {
          assert !Occurs(b, p, j - |a|);
          assert s[j..j + |p|] == b[j - |a|..j - |a| + |p|];
        } else {
          var k := |a| - 1 - j;
          assert s[j + k] == a[|a| - 1];
          assert p[k] == p[0];
          assert s[j..j + |p|][k] != p[k];
        }
      }
    }
  }

  /**
   * Left-to-right non-overlapping removal of a uniform pattern leaves none of
   * it behind: the text before a leftmost match never ends with the pattern's
   * character, so no removal boundary can close up into a new match.
   */
  lemma {:induction false} RemoveAllUniformFree(s: string, p: string)
    requires Uniform(p)
    ensures !Contains(RemoveAll(s, p), p)
    decreases |s|
  {
    match IndexOf(s, p, 0)
    case None =>
    case Some(i) =>
      var a, rest := s[..i], s[i + |p|..];
      var b := RemoveAll(rest, p);
      RemoveAllAt(s, p, i);
      assert !Contains(a + b, p) by {
        assert FirstOccurrence(s, p, i);
        RemoveAllUniformFree(rest, p);
        TextBeforeFirstFree(s, p, i);
        if i > 0 {
          CharBeforeFirstUniform(s, p, i);
          assert a[|a| - 1] == s[i - 1];
        }
        ConcatUniformFree(a, b, p);
      }
  }

  /** The text before a leftmost occurrence holds none. */
  lemma {:induction false} TextBeforeFirstFree(s: string, p: string, i: int)
    requires p != [] && FirstOccurrence(s, p, i)
    ensures !Contains(s[..i], p)
  {
    var a := s[..i];
    forall j
      ensures !Occurs(a, p, j)
    {
      if 0 <= j && j + |p| <= |a| {
        assert !Occurs(s, p, j);
        assert a[j..j + |p|] == s[j..j + |p|];
      }
    }
  }

  /**
   * Just before a leftmost occurrence of a uniform pattern stands a different
   * character: the window one place to the left is not an occurrence, and past
   * its first character it agrees with the pattern.
   */
  lemma {:induction false} CharBeforeFirstUniform(s: string, p: string, i: int)
    requires Uniform(p) && FirstOccurrence(s, p, i) && i > 0
    ensures s[i - 1] != p[0]
  {
    var n := |p|;
    assert !Occurs(s, p, i - 1);
    var window := s[i - 1..i - 1 + n];
    assert s[i..i + n] == p;
    assert s[i..i + n - 1] == p[..n - 1];
    assert window == [s[i - 1]] + s[i..i + n - 1];
    assert p == [p[0]] + p[..n - 1] by {
      forall k | 0 <= k < n ensures p[k] == ([p[0]] + p[..n - 1])[k] {
      }
    }
  }
}
