/** The title canonicaliser `clean` (server.js:34-43): seven rewrites applied in a
    fixed order, each a left-to-right scan of the string. Every rewrite comes with a
    predicate saying its pattern no longer occurs; the rewrite's output satisfies it
    and the rewrite leaves any input that satisfies it unchanged. */
module Canonicalizer {
  import opened Optional
  import opened Chars

  /** Every character of `r` already occurs in `s`. */
  predicate CharsFrom(r: string, s: string) {
    forall c :: c in r ==> c in s
  }

  predicate NoAsciiUpper(s: string) {
    forall c :: c in s ==> !IsAsciiUpper(c)
  }

  // ---------------------------------------------------------------------------
  // Step 1: toLowerCase()

  /** Each ASCII capital becomes the letter 32 code points above it, the
      matching small letter; every other character is kept in place. */
  function LowerAll(s: string): (r: string)
    ensures |r| == |s|
    ensures forall i :: 0 <= i < |s| && IsAsciiUpper(s[i]) ==> r[i] as int == s[i] as int + 32
    ensures forall i :: 0 <= i < |s| && !IsAsciiUpper(s[i]) ==> r[i] == s[i]
    ensures NoAsciiUpper(r)
    ensures NoAsciiUpper(s) ==> r == s
  {
    seq(|s|, i requires 0 <= i < |s| => Lower(s[i]))
  }

  // ---------------------------------------------------------------------------
  // Step 2: replace(/<[^>]+>/g, "")

  /** Index of the first `c` in `s` at or after `from`. */
  function IndexOf(s: string, c: char, from: nat): (r: Option<nat>)
    requires from <= |s|
    ensures r.Some? ==> from <= r.value < |s| && s[r.value] == c && c !in s[from..r.value]
    ensures r.None? ==> c !in s[from..]
    decreases |s| - from
  {
    if from == |s| then None
    else if s[from] == c then Some(from)
    else
      var r := IndexOf(s, c, from + 1);
      assert s[from..] == [s[from]] + s[from + 1..];
      assert r.Some? ==> s[from..r.value] == [s[from]] + s[from + 1..r.value];
      r
  }

  /** Where a match of `<[^>]+>` that starts at the beginning of `s` ends
      (exclusive), if there is one. `[^>]+` cannot cross a `>`, so the match ends
      at the first `>` after the `<`, and that `>` must not be the very next
      character. */
  function TagEnd(s: string): (r: Option<nat>)
    ensures r.Some? ==> 3 <= r.value <= |s| && s[0] == '<' && s[r.value - 1] == '>'
                        && '>' !in s[1..r.value - 1]
    ensures r.None? ==> |s| < 2 || s[0] != '<' || s[1] == '>' || '>' !in s[1..]
  {
    if |s| >= 2 && s[0] == '<' && s[1] != '>' then
      match IndexOf(s, '>', 2)
      case Some(k) => Some(k + 1)
      case None =>
        assert s[1..] == [s[1]] + s[2..];
        None
    else None
  }

  /** No position of `s` starts a match of `<[^>]+>`. */
  predicate NoTag(s: string) {
    forall i :: 0 <= i < |s| ==> TagEnd(s[i..]).None?
  }

  /** A string without `<` holds no tag. */
  lemma NoAngleNoTag(s: string)
    requires '<' !in s
    ensures NoTag(s)
  {
    forall i | 0 <= i < |s| ensures TagEnd(s[i..]).None? {
      assert s[i..][0] == s[i];
    }
  }

  function StripTags(s: string): (r: string)
    ensures |r| <= |s|
    ensures CharsFrom(r, s)
    decreases |s|
  {
    if s == [] then []
    else match TagEnd(s)
      case Some(e) =>
        assert s[0..] == s;
        StripTags(s[e..])
      case None =>
        [s[0]] + StripTags(s[1..])
  }

  /** A string with no match is left unchanged. */
  lemma {:induction false} StripTagsIdentity(s: string)
    requires NoTag(s)
    ensures StripTags(s) == s
    decreases |s|
  {
    if s != [] {
      assert TagEnd(s[0..]).None?;
      assert s[0..] == s;
      assert NoTag(s[1..]) by {
        forall i | 0 <= i < |s| - 1 ensures TagEnd(s[1..][i..]).None? {
          assert s[1..][i..] == s[i + 1..];
        }
      }
      StripTagsIdentity(s[1..]);
    }
  }

  /** The output of `StripTags` contains no further tag, so the step is idempotent. */
  lemma {:induction false} StripTagsLeavesNoTag(s: string)
    ensures NoTag(StripTags(s))
    decreases |s|
  {
    if s != [] {
      match TagEnd(s)
      case Some(e) =>
        StripTagsLeavesNoTag(s[e..]);
      case None =>
        var rest := StripTags(s[1..]);
        var r := [s[0]] + rest;
        StripTagsLeavesNoTag(s[1..]);
        forall i | 0 <= i < |r| ensures TagEnd(r[i..]).None? {
          if i > 0 {
            assert r[i..] == rest[i - 1..];
          } else if s[0] == '<' && |r| >= 2 {
            if s[1] == '>' {
              assert TagEnd(s[1..]).None?;
              assert rest[0] == '>';
            } else {
              assert '>' !in s[1..];
              assert '>' !in rest;
              assert '>' !in r[1..];
            }
          }
        }
    }
  }

  /** A string that does not start with a tag keeps its first character. */
  lemma StripTagsStep(s: string)
    requires s != [] && TagEnd(s).None?
    ensures StripTags(s) == [s[0]] + StripTags(s[1..])
  {
  }

  /** Text in which no tag starts passes through tag removal unchanged, in
      front of what removal makes of the rest: a `<` that opens no tag, such
      as one directly followed by `>`, is kept even when a tag follows. */
  lemma StripTagsKeepsPlain(x: string, y: string)
    requires forall i :: 0 <= i < |x| ==> TagEnd((x + y)[i..]).None?
    ensures StripTags(x + y) == x + StripTags(y)
  {
    var s := x + y;
    forall i | 0 <= i < |x| ensures TagEnd(s[i..]).None? { }
    StripTagsKeepsUnmatched(s, |x|);
    assert s[..|x|] == x;
    assert s[|x|..] == y;
  }

  /** `StripTagsKeepsPlain` on one string: when no tag starts in the first `n`
      positions, they are kept in front of what removal makes of the rest. */
  lemma {:induction false} StripTagsKeepsUnmatched(s: string, n: nat)
    requires n <= |s|
    requires forall i :: 0 <= i < n ==> TagEnd(s[i..]).None?
    ensures StripTags(s) == s[..n] + StripTags(s[n..])
    decreases n
  {
    if n == 0 {
      assert s[n..] == s;
    } else {
      var t := s[n - 1..];
      assert t[1..] == s[n..];
      calc {
        StripTags(s);
        { StripTagsKeepsUnmatched(s, n - 1); }
        s[..n - 1] + StripTags(t);
        { StripTagsStep(t); }
        s[..n - 1] + ([s[n - 1]] + StripTags(s[n..]));
        (s[..n - 1] + [s[n - 1]]) + StripTags(s[n..]);
        { assert s[..n - 1] + [s[n - 1]] == s[..n]; }
        s[..n] + StripTags(s[n..]);
      }
    }
  }

  /** A whole tag `<inner>` at the front is removed and nothing else with it. */
  lemma StripTagsDropsTag(inner: string, y: string)
    requires inner != [] && '>' !in inner
    ensures StripTags(['<'] + inner + ['>'] + y) == StripTags(y)
  {
    var s := ['<'] + inner + ['>'] + y;
    var k := |inner| + 1;
    assert s[1] == inner[0] && s[k] == '>';
    forall j | 2 <= j < k ensures s[j] != '>' {
      assert s[j] == inner[j - 1];
    }
    IndexOfFinds(s, '>', 2, k);
    assert TagEnd(s) == Some(k + 1);
    assert s[k + 1..] == y;
  }

  /** `IndexOf` finds the first occurrence. */
  lemma {:induction false} IndexOfFinds(s: string, c: char, from: nat, k: nat)
    requires from <= k < |s| && s[k] == c
    requires forall j :: from <= j < k ==> s[j] != c
    ensures IndexOf(s, c, from) == Some(k)
    decreases k - from
  {
    if from < k {
      IndexOfFinds(s, c, from + 1, k);
    }
  }

  // ---------------------------------------------------------------------------
  // Step 3: replace(/https?:\/\/\S+/g, "")

  /** The first index at or after `from` that holds whitespace, or `|s|`. */
  function SpaceFrom(s: string, from: nat): (r: nat)
    requires from <= |s|
    ensures from <= r <= |s|
    ensures r < |s| ==> IsSpace(s[r])
    ensures forall j :: from <= j < r ==> !IsSpace(s[j])
    decreases |s| - from
  {
    if from == |s| || IsSpace(s[from]) then from else SpaceFrom(s, from + 1)
  }

  /** `SpaceFrom` stops at the first whitespace, or at the end. */
  lemma {:induction false} SpaceFromStops(s: string, from: nat, e: nat)
    requires from <= e <= |s|
    requires forall j :: from <= j < e ==> !IsSpace(s[j])
    requires e == |s| || IsSpace(s[e])
    ensures SpaceFrom(s, from) == e
    decreases e - from
  {
    if from < e {
      SpaceFromStops(s, from + 1, e);
    }
  }

  /** Length of the scheme prefix `http://` or `https://` that `s` starts with,
      or 0. Backtracking over `s?` cannot rescue `https` followed by anything but
      `://`, since `s` is not `:`. */
  function SchemeLength(s: string): (n: nat)
    ensures n == 0 || n == 7 || n == 8
    ensures n == 7 <==> |s| >= 7 && s[..7] == "http://"
    ensures n == 8 <==> |s| >= 8 && s[..8] == "https://"
    ensures n > 0 ==> n <= |s| && s[0] == 'h' && s[n - 3] == ':'
    ensures n > 0 ==> forall j :: 0 <= j < n ==> !IsSpace(s[j])
  {
    if |s| >= 7 && s[0] == 'h' && s[1] == 't' && s[2] == 't' && s[3] == 'p' then
      if s[4] == ':' && s[5] == '/' && s[6] == '/' then 7
      else if |s| >= 8 && s[4] == 's' && s[5] == ':' && s[6] == '/' && s[7] == '/' then 8
      else 0
    else 0
  }

  /** Where a match of `https?://\S+` that starts at the beginning of `s` ends
      (exclusive): the greedy `\S+` runs to the next whitespace or the end. */
  function UrlEnd(s: string): (r: Option<nat>)
    ensures r.Some? ==> 8 <= r.value <= |s| && ':' in s
    ensures r.Some? ==> SchemeLength(s) < r.value
    ensures r.Some? ==> forall j :: 0 <= j < r.value ==> !IsSpace(s[j])
    ensures r.Some? ==> r.value == |s| || IsSpace(s[r.value])
    ensures r.None? <==> SchemeLength(s) == 0 || SchemeLength(s) == |s| || IsSpace(s[SchemeLength(s)])
  {
    var n := SchemeLength(s);
    if n > 0 && n < |s| && !IsSpace(s[n]) then Some(SpaceFrom(s, n)) else None
  }

  /** No position of `s` starts a match of `https?://\S+`. */
  predicate NoUrl(s: string) {
    forall i :: 0 <= i < |s| ==> UrlEnd(s[i..]).None?
  }

  /** A match needs at least the scheme and one more character, so a string
      shorter than eight characters holds no URL. */
  lemma ShortHasNoUrl(s: string)
    requires |s| < 8
    ensures NoUrl(s)
  {
    forall i | 0 <= i < |s| ensures UrlEnd(s[i..]).None? {
      assert |s[i..]| < 8;
    }
  }

  function StripUrls(s: string): (r: string)
    ensures |r| <= |s|
    ensures CharsFrom(r, s)
    decreases |s|
  {
    if s == [] then []
    else match UrlEnd(s)
      case Some(e) =>
        assert s[0..] == s;
        StripUrls(s[e..])
      case None =>
        [s[0]] + StripUrls(s[1..])
  }

  /** A string with no match is left unchanged. */
  lemma {:induction false} StripUrlsIdentity(s: string)
    requires NoUrl(s)
    ensures StripUrls(s) == s
    decreases |s|
  {
    if s != [] {
      assert UrlEnd(s[0..]).None?;
      assert s[0..] == s;
      assert NoUrl(s[1..]) by {
        forall i | 0 <= i < |s| - 1 ensures UrlEnd(s[1..][i..]).None? {
          assert s[1..][i..] == s[i + 1..];
        }
      }
      StripUrlsIdentity(s[1..]);
    }
  }

  /** A string that does not start with a URL keeps its first character. */
  lemma StripUrlsStep(s: string)
    requires s != [] && UrlEnd(s).None?
    ensures StripUrls(s) == [s[0]] + StripUrls(s[1..])
  {
  }

  /** Text in which no URL starts passes through URL removal unchanged, in
      front of what removal makes of the rest: an `h` that opens no URL is
      kept even when a URL follows. */
  lemma StripUrlsKeepsPlain(x: string, y: string)
    requires forall i :: 0 <= i < |x| ==> UrlEnd((x + y)[i..]).None?
    ensures StripUrls(x + y) == x + StripUrls(y)
  {
    var s := x + y;
    forall i | 0 <= i < |x| ensures UrlEnd(s[i..]).None? { }
    StripUrlsKeepsUnmatched(s, |x|);
    assert s[..|x|] == x;
    assert s[|x|..] == y;
  }

  /** `StripUrlsKeepsPlain` on one string: when no URL starts in the first `n`
      positions, they are kept in front of what removal makes of the rest. */
  lemma {:induction false} StripUrlsKeepsUnmatched(s: string, n: nat)
    requires n <= |s|
    requires forall i :: 0 <= i < n ==> UrlEnd(s[i..]).None?
    ensures StripUrls(s) == s[..n] + StripUrls(s[n..])
    decreases n
  {
    if n == 0 {
      assert s[n..] == s;
    } else {
      var t := s[n - 1..];
      assert t[1..] == s[n..];
      calc {
        StripUrls(s);
        { StripUrlsKeepsUnmatched(s, n - 1); }
        s[..n - 1] + StripUrls(t);
        { StripUrlsStep(t); }
        s[..n - 1] + ([s[n - 1]] + StripUrls(s[n..]));
        (s[..n - 1] + [s[n - 1]]) + StripUrls(s[n..]);
        { assert s[..n - 1] + [s[n - 1]] == s[..n]; }
        s[..n] + StripUrls(s[n..]);
      }
    }
  }

  /** A whole URL, a scheme followed by a non-empty run of non-whitespace up
      to whitespace or the end, is removed and nothing else with it. */
  lemma StripUrlsDropsUrl(scheme: string, rest: string, y: string)
    requires scheme == "http://" || scheme == "https://"
    requires rest != [] && forall c :: c in rest ==> !IsSpace(c)
    requires y == [] || IsSpace(y[0])
    ensures StripUrls(scheme + rest + y) == StripUrls(y)
  {
    var s := scheme + rest + y;
    var n := |scheme|;
    var e := n + |rest|;
    assert s[..n] == scheme;
    assert SchemeLength(s) == n;
    assert s[n] == rest[0];
    forall j | n <= j < e ensures !IsSpace(s[j]) {
      assert s[j] == rest[j - n];
      assert s[j] in rest;
    }
    SpaceFromStops(s, n, e);
    assert UrlEnd(s) == Some(e);
    assert s[e..] == y;
  }

  /** A string without `:` holds no URL. */
  lemma NoColonNoUrl(s: string)
    requires ':' !in s
    ensures NoUrl(s)
  {
    forall i | 0 <= i < |s| ensures UrlEnd(s[i..]).None? {
      if UrlEnd(s[i..]).Some? {
        assert false;
      }
    }
  }

  /** A string that starts with whitespace keeps that character in front. */
  lemma StripUrlsSpaceStart(u: string)
    requires u != [] && IsSpace(u[0])
    ensures StripUrls(u) != [] && StripUrls(u)[0] == u[0]
  {
    assert UrlEnd(u).None?;
  }

  /** A non-whitespace prefix of length `m` of `[c] + rest` leaves a
      non-whitespace prefix of length `m - 1` of `rest`. */
  lemma NoSpaceShift(r: string, rest: string, c: char, m: nat)
    requires r == [c] + rest && 0 < m <= |r|
    requires forall j :: 0 <= j < m ==> !IsSpace(r[j])
    ensures forall j :: 0 <= j < m - 1 ==> !IsSpace(rest[j])
  {
    forall j | 0 <= j < m - 1 ensures !IsSpace(rest[j]) {
      assert rest[j] == r[j + 1];
    }
  }

  /** `StripUrls` never starts its output inside a removed URL: an output that
      begins with `m` non-whitespace characters begins exactly as its input does. */
  lemma {:induction false} StripUrlsKeepsPrefix(t: string, m: nat)
    requires m <= |StripUrls(t)|
    requires forall j :: 0 <= j < m ==> !IsSpace(StripUrls(t)[j])
    ensures m <= |t|
    ensures forall j :: 0 <= j < m ==> t[j] == StripUrls(t)[j]
    decreases |t|
  {
    if m > 0 {
      assert t != [];
      var r := StripUrls(t);
      match UrlEnd(t)
      case Some(e) =>
        var u := t[e..];
        assert r == StripUrls(u);
        assert u != [];
        StripUrlsSpaceStart(u);
        assert false;
      case None =>
        var rest := StripUrls(t[1..]);
        assert r == [t[0]] + rest;
        NoSpaceShift(r, rest, t[0], m);
        StripUrlsKeepsPrefix(t[1..], m - 1);
        forall j | 0 < j < m ensures t[j] == r[j] {
          assert t[j] == t[1..][j - 1] && r[j] == rest[j - 1];
        }
    }
  }

  /** The output of `StripUrls` contains no further URL, so the step is idempotent. */
  lemma {:induction false} StripUrlsLeavesNoUrl(s: string)
    ensures NoUrl(StripUrls(s))
    decreases |s|
  {
    if s != [] {
      match UrlEnd(s)
      case Some(e) =>
        StripUrlsLeavesNoUrl(s[e..]);
      case None =>
        var rest := StripUrls(s[1..]);
        var r := [s[0]] + rest;
        StripUrlsLeavesNoUrl(s[1..]);
        forall i | 0 <= i < |r| ensures UrlEnd(r[i..]).None? {
          if i > 0 {
            assert r[i..] == rest[i - 1..];
          } else {
            var e := UrlEnd(r);
            if e.Some? {
              // r agrees with s on its first n + 1 characters, none of them
              // whitespace, so s would have started a URL too
              var n := SchemeLength(r);
              NoSpaceShift(r, rest, s[0], n + 1);
              StripUrlsKeepsPrefix(s[1..], n);
              assert false;
            }
          }
        }
    }
  }

  // ---------------------------------------------------------------------------
  // Steps 4 and 5: replace(/[0-9]/g, "") and replace(/[^\w\s]/g, "")

  /** The characters of `s` that `keep` accepts, in order. */
  function Filter(s: string, keep: char -> bool): (r: string)
    ensures |r| <= |s|
    ensures forall c :: c in r <==> c in s && keep(c)
    ensures (forall c :: c in s ==> keep(c)) ==> r == s
  {
    if s == [] then []
    else (if keep(s[0]) then [s[0]] else []) + Filter(s[1..], keep)
  }

  lemma {:induction false} FilterAppend(a: string, b: string, keep: char -> bool)
    ensures Filter(a + b, keep) == Filter(a, keep) + Filter(b, keep)
  {
    if a != [] {
      assert (a + b)[1..] == a[1..] + b;
      FilterAppend(a[1..], b, keep);
    } else {
      assert a + b == b;
    }
  }

  /** Nothing is kept when `keep` accepts no character of `s`. */
  lemma {:induction false} FilterNone(s: string, keep: char -> bool)
    requires forall c :: c in s ==> !keep(c)
    ensures Filter(s, keep) == []
  {
    if s != [] {
      FilterNone(s[1..], keep);
    }
  }

  function StripDigits(s: string): (r: string)
    ensures forall c :: c in r <==> c in s && !IsDigit(c)
    ensures (forall c :: c in s ==> !IsDigit(c)) ==> r == s
  {
    Filter(s, IsNotDigit)
  }

  function StripPunctuation(s: string): (r: string)
    ensures forall c :: c in r <==> c in s && IsWordOrSpace(c)
    ensures (forall c :: c in s ==> IsWordOrSpace(c)) ==> r == s
  {
    Filter(s, IsWordOrSpace)
  }

  // ---------------------------------------------------------------------------
  // Steps 6 and 7: replace(/\s+/g, " ") and trim()

  /** Every whitespace character is a plain space, and none is followed by
      whitespace. */
  predicate SingleSpaced(s: string) {
    forall i :: 0 <= i < |s| && IsSpace(s[i]) ==> s[i] == ' ' && (i + 1 == |s| || !IsSpace(s[i + 1]))
  }

  /** The first index at or after `from` that holds a non-whitespace
      character, or `|s|`. */
  function NonSpaceFrom(s: string, from: nat): (r: nat)
    requires from <= |s|
    ensures from <= r <= |s|
    ensures r < |s| ==> !IsSpace(s[r])
    ensures forall j :: from <= j < r ==> IsSpace(s[j])
    decreases |s| - from
  {
    if from == |s| || !IsSpace(s[from]) then from else NonSpaceFrom(s, from + 1)
  }

  /** The end of the last non-whitespace character before `end`, or 0. */
  function NonSpaceBefore(s: string, end: nat): (r: nat)
    requires end <= |s|
    ensures r <= end
    ensures r > 0 ==> !IsSpace(s[r - 1])
    ensures forall j :: r <= j < end ==> IsSpace(s[j])
    decreases end
  {
    if end == 0 || !IsSpace(s[end - 1]) then end else NonSpaceBefore(s, end - 1)
  }

  /** Any contiguous piece of a single-spaced string is single-spaced. */
  lemma SingleSpacedSlice(s: string, i: nat, j: nat)
    requires i <= j <= |s|
    requires SingleSpaced(s)
    ensures SingleSpaced(s[i..j])
  {
    var t := s[i..j];
    forall k | 0 <= k < |t| && IsSpace(t[k])
      ensures t[k] == ' ' && (k + 1 == |t| || !IsSpace(t[k + 1]))
    {
      assert t[k] == s[i + k];
      if k + 1 < |t| {
        assert t[k + 1] == s[i + k + 1];
      }
    }
  }

  /** `trim()`: drop the whitespace at both ends; what is left neither starts
      nor ends with whitespace. */
  function Trim(s: string): (r: string)
    ensures |r| <= |s|
    ensures r != [] ==> !IsSpace(r[0]) && !IsSpace(r[|r| - 1])
  {
    var i := NonSpaceFrom(s, 0);
    var j := NonSpaceBefore(s, |s|);
    if i < j then s[i..j] else []
  }

  /** What is left after trimming: the non-whitespace characters of `s` and
      nothing else, single spacing kept, and nothing changed when there was
      nothing to trim. */
  lemma TrimShape(s: string)
    ensures CharsFrom(Trim(s), s)
    ensures forall c :: !IsSpace(c) ==> (c in Trim(s) <==> c in s)
    ensures SingleSpaced(s) ==> SingleSpaced(Trim(s))
    ensures (s == [] || (!IsSpace(s[0]) && !IsSpace(s[|s| - 1]))) ==> Trim(s) == s
  {
    TrimUntouched(s);
    var i := NonSpaceFrom(s, 0);
    var j := NonSpaceBefore(s, |s|);
    if i < j {
      TrimmedPiece(s, i, j);
    } else {
      TrimKeepsInterior(s, j, []);
    }
  }

  /** `r` is the piece of `s` that starts at `i`, with only whitespace on
      either side of it. */
  predicate SliceWithin(s: string, i: int, r: string) {
    0 <= i && i + |r| <= |s| && r == s[i..i + |r|]
    && (forall k :: 0 <= k < i ==> IsSpace(s[k]))
    && (forall k :: i + |r| <= k < |s| ==> IsSpace(s[k]))
  }

  /** The trimmed string is one contiguous piece of the input, and everything
      outside that piece is whitespace. */
  lemma TrimIsSlice(s: string)
    ensures exists i :: SliceWithin(s, i, Trim(s))
  {
    var i := NonSpaceFrom(s, 0);
    var j := NonSpaceBefore(s, |s|);
    if i < j {
      assert Trim(s) == s[i..j];
      assert SliceWithin(s, i, Trim(s));
    } else {
      assert Trim(s) == [];
      assert SliceWithin(s, j, Trim(s));
    }
  }

  /** The converse: whitespace around a piece that neither starts nor ends
      with whitespace is exactly what trimming removes. */
  lemma TrimPadded(w1: string, t: string, w2: string)
    requires forall c :: c in w1 ==> IsSpace(c)
    requires forall c :: c in w2 ==> IsSpace(c)
    requires t != [] ==> !IsSpace(t[0]) && !IsSpace(t[|t| - 1])
    ensures Trim(w1 + t + w2) == t
  {
    var s := w1 + t + w2;
    var a := |w1|;
    var b := |w1| + |t|;
    forall k | 0 <= k < a ensures IsSpace(s[k]) {
      assert s[k] == w1[k];
    }
    forall k | b <= k < |s| ensures IsSpace(s[k]) {
      assert s[k] == w2[k - b];
    }
    var i := NonSpaceFrom(s, 0);
    var j := NonSpaceBefore(s, |s|);
    if t == [] {
      assert i == |s|;
    } else {
      assert s[a] == t[0] && s[b - 1] == t[|t| - 1];
      assert i == a;
      assert j == b;
      assert s[a..b] == t;
    }
  }

  /** The piece between the first and the last non-whitespace character. */
  lemma TrimmedPiece(s: string, i: nat, j: nat)
    requires i < j <= |s|
    requires forall k :: 0 <= k < i ==> IsSpace(s[k])
    requires forall k :: j <= k < |s| ==> IsSpace(s[k])
    ensures CharsFrom(s[i..j], s)
    ensures forall c :: !IsSpace(c) ==> (c in s[i..j] <==> c in s)
    ensures SingleSpaced(s) ==> SingleSpaced(s[i..j])
  {
    TrimKeepsInterior(s, i, s[i..j]);
  }

  /** Trimming a string with no whitespace at its ends changes nothing. */
  lemma TrimUntouched(s: string)
    ensures (s == [] || (!IsSpace(s[0]) && !IsSpace(s[|s| - 1]))) ==> Trim(s) == s
  {
    if s != [] && !IsSpace(s[0]) && !IsSpace(s[|s| - 1]) {
      assert NonSpaceFrom(s, 0) == 0;
      assert NonSpaceBefore(s, |s|) == |s|;
    }
  }

  /** What `Trim` needs about a piece `r` of `s` that starts at `i` and leaves
      only whitespace outside it. */
  lemma TrimKeepsInterior(s: string, i: nat, r: string)
    requires i + |r| <= |s|
    requires forall k :: 0 <= k < |r| ==> r[k] == s[i + k]
    requires forall j :: 0 <= j < i ==> IsSpace(s[j])
    requires forall j :: i + |r| <= j < |s| ==> IsSpace(s[j])
    ensures CharsFrom(r, s)
    ensures forall c :: !IsSpace(c) ==> (c in r <==> c in s)
    ensures SingleSpaced(s) ==> SingleSpaced(r)
  {
    forall c | !IsSpace(c) && c in s ensures c in r {
      var j :| 0 <= j < |s| && s[j] == c;
      assert r[j - i] == c;
    }
    if SingleSpaced(s) {
      SingleSpacedSlice(s, i, i + |r|);
      assert r == s[i..i + |r|];
    }
  }

  /** A character in front of a single-spaced string keeps it single-spaced
      when it is a plain space before a non-space, or not a space at all. */
  lemma ConsSingleSpaced(c: char, t: string)
    requires SingleSpaced(t)
    requires IsSpace(c) ==> c == ' ' && (t == [] || !IsSpace(t[0]))
    ensures SingleSpaced([c] + t)
  {
    var r := [c] + t;
    forall i | 0 <= i < |r| && IsSpace(r[i])
      ensures r[i] == ' ' && (i + 1 == |r| || !IsSpace(r[i + 1]))
    {
      if i > 0 {
        assert r[i] == t[i - 1];
        if i + 1 < |r| {
          assert r[i + 1] == t[i];
        }
      }
    }
  }

  /** Replace every maximal whitespace run by one space: a whitespace
      character followed by more whitespace is dropped, the last one of a run
      becomes `' '`. */
  function Collapse(s: string): (r: string)
    ensures SingleSpaced(r)
    ensures |r| <= |s|
    ensures forall c :: !IsSpace(c) ==> (c in r <==> c in s)
    ensures forall c :: c in r && IsSpace(c) ==> c == ' '
    ensures s != [] ==> r != [] && (IsSpace(s[0]) <==> IsSpace(r[0]))
    ensures s != [] && !IsSpace(s[0]) ==> r[0] == s[0]
    decreases |s|
  {
    if s == [] then []
    else
      var tail := Collapse(s[1..]);
      if IsSpace(s[0]) && |s| > 1 && IsSpace(s[1]) then
        tail
      else if IsSpace(s[0]) then
        ConsSingleSpaced(' ', tail);
        [' '] + tail
      else
        ConsSingleSpaced(s[0], tail);
        [s[0]] + tail
  }

  /** A single-spaced string has no run to collapse and comes back as it
      was. */
  lemma {:induction false} CollapseIdentity(s: string)
    requires SingleSpaced(s)
    ensures Collapse(s) == s
    decreases |s|
  {
    if s != [] {
      SingleSpacedSlice(s, 1, |s|);
      assert s[1..|s|] == s[1..];
      CollapseIdentity(s[1..]);
      assert [s[0]] + s[1..] == s;
    }
  }

  /** One step of `Collapse` on a non-whitespace first character. */
  lemma CollapseStep(s: string)
    requires s != [] && !IsSpace(s[0])
    ensures Collapse(s) == [s[0]] + Collapse(s[1..])
  {
  }

  /** Text without whitespace passes through `Collapse` unchanged, and so
      does its order relative to what follows. */
  lemma CollapseKeepsWord(x: string, y: string)
    requires forall k :: 0 <= k < |x| ==> !IsSpace(x[k])
    ensures Collapse(x + y) == x + Collapse(y)
  {
    var s := x + y;
    CollapseKeepsPrefix(s, |x|);
    assert s[..|x|] == x;
    assert s[|x|..] == y;
  }

  /** `CollapseKeepsWord` on one string: a whitespace-free prefix of length
      `n` is kept in front of what `Collapse` makes of the rest. */
  lemma {:induction false} CollapseKeepsPrefix(s: string, n: nat)
    requires n <= |s|
    requires forall k :: 0 <= k < n ==> !IsSpace(s[k])
    ensures Collapse(s) == s[..n] + Collapse(s[n..])
    decreases n
  {
    if n == 0 {
      assert s[n..] == s;
    } else {
      CollapseKeepsPrefix(s, n - 1);
      CollapseShiftOne(s, n);
    }
  }

  /** The inductive step of `CollapseKeepsPrefix`: one more non-whitespace
      character moves from the collapsed rest into the kept prefix. */
  lemma CollapseShiftOne(s: string, n: nat)
    requires 0 < n <= |s| && !IsSpace(s[n - 1])
    ensures s[..n - 1] + Collapse(s[n - 1..]) == s[..n] + Collapse(s[n..])
  {
    var t := s[n - 1..];
    var c := Collapse(s[n..]);
    assert t[1..] == s[n..];
    CollapseStep(t);
    assert s[..n - 1] + ([s[n - 1]] + c) == s[..n] + c;
  }

  /** A whole whitespace run, however long and whichever whitespace
      characters it holds, becomes one plain space. */
  lemma {:induction false} CollapseRun(w: string, y: string)
    requires w != [] && forall k :: 0 <= k < |w| ==> IsSpace(w[k])
    requires y == [] || !IsSpace(y[0])
    ensures Collapse(w + y) == [' '] + Collapse(y)
    decreases |w|
  {
    var s := w + y;
    assert s[0] == w[0];
    assert s[1..] == w[1..] + y;
    if |w| == 1 {
      assert s[1..] == y;
    } else {
      assert s[1] == w[1];
      CollapseRun(w[1..], y);
    }
  }

  // ---------------------------------------------------------------------------
  // The whole pipeline

  predicate IsCanonicalChar(c: char) {
    IsAsciiLower(c) || c == '_' || c == ' '
  }

  /** The shape of a canonical title: lower-case ASCII letters, underscores and
      single spaces between them, with no space at either end. */
  predicate Canonical(t: string) {
    && (forall i :: 0 <= i < |t| ==> IsCanonicalChar(t[i]))
    && (forall i :: 0 <= i < |t| - 1 ==> !(t[i] == ' ' && t[i + 1] == ' '))
    && (t != [] ==> t[0] != ' ' && t[|t| - 1] != ' ')
  }

  /** `clean(t)` for a string `t`. */
  function Clean(s: string): (r: string)
    ensures Canonical(r)
  {
    var a := LowerAll(s);
    var b := StripTags(a);
    var c := StripUrls(b);
    var d := StripDigits(c);
    var e := StripPunctuation(d);
    var f := Collapse(e);
    var g := Trim(f);
    TrimShape(f);
    assert NoAsciiUpper(c);
    PunctuationLeavesLowerWords(c, e);
    CollapseLeavesCanonicalChars(e, f);
    TrimLeavesCanonical(f, g);
    g
  }

  /** After lower-casing, digit removal and punctuation removal only lower-case
      letters, underscores and whitespace remain. */
  lemma PunctuationLeavesLowerWords(c: string, e: string)
    requires NoAsciiUpper(c)
    requires e == StripPunctuation(StripDigits(c))
    ensures forall x :: x in e ==> IsAsciiLower(x) || x == '_' || IsSpace(x)
  {
    forall x | x in e ensures IsAsciiLower(x) || x == '_' || IsSpace(x) {
      assert x in c && !IsDigit(x) && IsWordOrSpace(x);
    }
  }

  lemma CollapseLeavesCanonicalChars(e: string, f: string)
    requires forall x :: x in e ==> IsAsciiLower(x) || x == '_' || IsSpace(x)
    requires f == Collapse(e)
    ensures forall x :: x in f ==> IsCanonicalChar(x)
    ensures SingleSpaced(f)
  {
    forall x | x in f ensures IsCanonicalChar(x) {
      if !IsSpace(x) {
        assert x in e;
      }
    }
  }

  lemma TrimLeavesCanonical(f: string, g: string)
    requires forall x :: x in f ==> IsCanonicalChar(x)
    requires CharsFrom(g, f) && SingleSpaced(g)
    requires g == [] || (!IsSpace(g[0]) && !IsSpace(g[|g| - 1]))
    ensures Canonical(g)
  {
    forall i | 0 <= i < |g| ensures IsCanonicalChar(g[i]) {
      assert g[i] in g;
    }
    forall i | 0 <= i < |g| - 1 ensures !(g[i] == ' ' && g[i + 1] == ' ') {
      if g[i] == ' ' {
        assert IsSpace(g[i]);
      }
    }
  }

  /** `clean(t = "")`: an absent title is read as the empty string. */
  function CleanOrEmpty(t: Option<string>): (r: string)
    ensures Canonical(r)
    ensures t.None? ==> r == ""
    ensures t.Some? ==> r == Clean(t.value)
  {
    Clean(t.GetOr(""))
  }

  /** The facts about a canonical string that make each step a no-op on it. */
  lemma CanonicalFacts(t: string)
    requires Canonical(t)
    ensures NoAsciiUpper(t)
    ensures NoTag(t)
    ensures NoUrl(t)
    ensures forall c :: c in t ==> !IsDigit(c) && IsWordOrSpace(c)
    ensures SingleSpaced(t)
    ensures t == [] || (!IsSpace(t[0]) && !IsSpace(t[|t| - 1]))
  {
    assert forall c :: c in t ==> IsCanonicalChar(c);
    forall i | 0 <= i < |t| ensures TagEnd(t[i..]).None? {
      assert t[i..][0] == t[i];
    }
    assert ':' !in t;
    NoColonNoUrl(t);
    forall i | 0 <= i < |t| && IsSpace(t[i])
      ensures t[i] == ' ' && (i + 1 == |t| || !IsSpace(t[i + 1]))
    {
      assert IsCanonicalChar(t[i]);
      if i + 1 < |t| {
        assert IsCanonicalChar(t[i + 1]);
      }
    }
  }

  /** A canonical string passes unchanged through every step. */
  lemma CanonicalIsFixed(t: string)
    requires Canonical(t)
    ensures Clean(t) == t
  {
    CanonicalFacts(t);
    var a := LowerAll(t);
    assert a == t;
    var b := StripTags(a);
    StripTagsIdentity(t);
    assert b == t;
    var c := StripUrls(b);
    StripUrlsIdentity(t);
    assert c == t;
    var d := StripDigits(c);
    assert d == t;
    var e := StripPunctuation(d);
    assert e == t;
    var f := Collapse(e);
    CollapseIdentity(e);
    assert f == t;
    var g := Trim(f);
    TrimShape(f);
    assert g == t;
  }

  /** When the first five steps already yield a canonical string, collapsing
      and trimming leave it alone and it is the result. */
  lemma CleanThrough(s: string, e: string)
    requires StripPunctuation(StripDigits(StripUrls(StripTags(LowerAll(s))))) == e
    requires Canonical(e)
    ensures Clean(s) == e
  {
    CanonicalFacts(e);
    CollapseIdentity(e);
    TrimShape(e);
  }

  /** The canonical strings are exactly the strings `clean` leaves alone. */
  lemma FixedPointsAreCanonical(t: string)
    ensures Clean(t) == t <==> Canonical(t)
  {
    if Canonical(t) {
      CanonicalIsFixed(t);
    }
  }

  /** `clean` is idempotent. */
  lemma CleanIdempotent(s: string)
    ensures Clean(Clean(s)) == Clean(s)
  {
    CanonicalIsFixed(Clean(s));
  }

  /** Case does not matter: lower-casing a title first does not change its
      canonical form. */
  lemma CleanIgnoresCase(s: string)
    ensures Clean(LowerAll(s)) == Clean(s)
  {
    assert LowerAll(LowerAll(s)) == LowerAll(s);
  }
}
