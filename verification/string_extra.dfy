/** String helpers of `args::core::common`: search-and-replace, removal,
    tokenising, joining, trimming and the C-string counters.  `std::string`
    becomes `string` (a `seq<char>`), a NUL-terminated `const char*` becomes a
    `string` that contains a NUL, and `std::string::npos` becomes `None` (or
    the constant `Npos` where the source does arithmetic on it). */
module StringExtra {
  import opened Base

  const Nul: char := 0 as char

  /** `std::string::npos` as the 64-bit value the source compares against. */
  const Npos: nat := 0xFFFF_FFFF_FFFF_FFFF

  // ---------------------------------------------------------------------------
  // Searching
  // ---------------------------------------------------------------------------

  /** Does `pat` occur in `s` starting at index `p`? */
  predicate MatchAt(s: string, pat: string, p: nat) {
    p + |pat| <= |s| && s[p..p + |pat|] == pat
  }

  /** `s.find(pat, from)`: the first index at or after `from` where `pat`
      occurs; `None` is `npos`. */
  function Find(s: string, pat: string, from: nat): (r: Option<nat>)
    ensures r.Some? ==> from <= r.value && MatchAt(s, pat, r.value)
    ensures r.Some? ==> forall p: nat :: from <= p < r.value ==> !MatchAt(s, pat, p)
    ensures r.None? <==> forall p: nat :: from <= p ==> !MatchAt(s, pat, p)
    decreases |s| - from
  {
    if from + |pat| > |s| then None
    else if MatchAt(s, pat, from) then Some(from)
    else Find(s, pat, from + 1)
  }

  /** A match in a suffix is a match in the whole string, shifted. */
  lemma MatchShift(s: string, pat: string, n: nat, j: nat)
    requires n <= |s|
    ensures MatchAt(s[n..], pat, j) <==> MatchAt(s, pat, n + j)
  {
    if n + j + |pat| <= |s| {
      assert s[n..][j..j + |pat|] == s[n + j..n + j + |pat|];
    }
  }

  // ---------------------------------------------------------------------------
  // replace_items
  // ---------------------------------------------------------------------------

  /** Reference semantics of replacing every occurrence of `item` by `value`:
      scan the ORIGINAL text left to right, replacing each non-overlapping
      match.  Returns the new text and the number of replacements. */
  function ReplaceAllRef(s: string, item: string, value: string): (string, nat)
    requires |item| > 0
    decreases |s|
  {
    if |s| < |item| then (s, 0)
    else if s[..|item|] == item then
      var rest := ReplaceAllRef(s[|item|..], item, value);
      (value + rest.0, rest.1 + 1)
    else
      var rest := ReplaceAllRef(s[1..], item, value);
      ([s[0]] + rest.0, rest.1)
  }

  /** A text without any occurrence of `item` is left as it is. */
  lemma {:induction false} ReplaceAllNoMatch(t: string, item: string, value: string)
    requires |item| > 0
    requires forall p: nat :: !MatchAt(t, item, p)
    ensures ReplaceAllRef(t, item, value) == (t, 0)
    decreases |t|
  {
    if |t| >= |item| {
      assert !MatchAt(t, item, 0);
      forall p: nat ensures !MatchAt(t[1..], item, p) {
        MatchShift(t, item, 1, p);
      }
      ReplaceAllNoMatch(t[1..], item, value);
      assert [t[0]] + t[1..] == t;
    }
  }

  /** The reference's step when `t` does not start with `item`. */
  lemma ReplaceAllSkip(t: string, item: string, value: string)
    requires |item| > 0 && |t| >= |item| && !MatchAt(t, item, 0)
    ensures ReplaceAllRef(t, item, value)
         == ([t[0]] + ReplaceAllRef(t[1..], item, value).0, ReplaceAllRef(t[1..], item, value).1)
  {
  }

  /** The reference's step when `t` starts with `item`. */
  lemma ReplaceAllHit(t: string, item: string, value: string)
    requires |item| > 0 && MatchAt(t, item, 0)
    ensures ReplaceAllRef(t, item, value)
         == (value + ReplaceAllRef(t[|item|..], item, value).0, ReplaceAllRef(t[|item|..], item, value).1 + 1)
  {
    assert t[..|item|] == item;
  }

  /** When the first occurrence of `item` in `t` is at `q`, the reference
      copies `t[..q]`, emits `value` and continues after the match. */
  lemma {:induction false} ReplaceAllFirstMatch(t: string, item: string, value: string, q: nat)
    requires |item| > 0
    requires MatchAt(t, item, q)
    requires forall p: nat :: p < q ==> !MatchAt(t, item, p)
    ensures ReplaceAllRef(t, item, value).0
         == t[..q] + value + ReplaceAllRef(t[q + |item|..], item, value).0
    ensures ReplaceAllRef(t, item, value).1 == ReplaceAllRef(t[q + |item|..], item, value).1 + 1
    decreases q
  {
    if q == 0 {
      ReplaceAllHit(t, item, value);
      assert t[..0] == [];
    } else {
      ReplaceAllSkip(t, item, value);
      ReplaceAllFirstMatchTail(t, item, value, q);
      assert t[..q] == [t[0]] + t[1..q];
    }
  }

  lemma {:induction false} ReplaceAllFirstMatchTail(t: string, item: string, value: string, q: nat)
    requires |item| > 0 && 0 < q
    requires MatchAt(t, item, q)
    requires forall p: nat :: p < q ==> !MatchAt(t, item, p)
    ensures ReplaceAllRef(t[1..], item, value).0
         == t[1..q] + value + ReplaceAllRef(t[q + |item|..], item, value).0
    ensures ReplaceAllRef(t[1..], item, value).1 == ReplaceAllRef(t[q + |item|..], item, value).1 + 1
    decreases q, 0
  {
    MatchShift(t, item, 1, q - 1);
    forall p: nat | p < q - 1 ensures !MatchAt(t[1..], item, p) {
      MatchShift(t, item, 1, p);
    }
    ReplaceAllFirstMatch(t[1..], item, value, q - 1);
    assert t[1..][q - 1 + |item|..] == t[q + |item|..];
    assert t[1..][..q - 1] == t[1..q];
  }

  /** Each replacement changes the length by `|value| - |item|`. */
  lemma {:induction false} ReplaceAllLength(s: string, item: string, value: string)
    requires |item| > 0
    ensures var r := ReplaceAllRef(s, item, value);
      |r.0| == |s| + r.1 * (|value| - |item|)
    decreases |s|
  {
    if |s| < |item| {
    } else if s[..|item|] == item {
      var rest := ReplaceAllRef(s[|item|..], item, value);
      ReplaceAllLength(s[|item|..], item, value);
      assert (rest.1 + 1) * (|value| - |item|) == rest.1 * (|value| - |item|) + (|value| - |item|);
    } else {
      ReplaceAllLength(s[1..], item, value);
    }
  }

  /** A zero count means nothing was replaced. */
  lemma {:induction false} ReplaceAllZeroCount(s: string, item: string, value: string)
    requires |item| > 0
    ensures ReplaceAllRef(s, item, value).1 == 0 ==> ReplaceAllRef(s, item, value).0 == s
    decreases |s|
  {
    if |s| < |item| {
    } else if s[..|item|] == item {
    } else {
      ReplaceAllZeroCount(s[1..], item, value);
      assert [s[0]] + s[1..] == s;
    }
  }

  /** Loop invariant of `replace_items`: the text before the search position
      `n` is the reference output for the consumed prefix `source[..k]`, and
      the text from `n` on is the untouched rest of the source. */
  ghost predicate ReplaceInvariant(source: string, item: string, value: string,
                                   result: string, n: nat, k: nat, count: nat)
    requires |item| > 0
  {
    && n <= |result| && k <= |source|
    && result[n..] == source[k..]
    && result[..n] + ReplaceAllRef(source[k..], item, value).0 == ReplaceAllRef(source, item, value).0
    && count + ReplaceAllRef(source[k..], item, value).1 == ReplaceAllRef(source, item, value).1
  }

  /** One iteration of `replace_items` keeps the invariant. */
  lemma ReplaceStep(source: string, item: string, value: string,
                    result: string, n: nat, k: nat, count: nat, p: nat)
    requires |item| > 0
    requires ReplaceInvariant(source, item, value, result, n, k, count)
    requires Find(result, item, n) == Some(p)
    ensures ReplaceInvariant(source, item, value,
              result[..p] + value + result[p + |item|..], p + |value|,
              k + (p - n) + |item|, count + 1)
  {
    var t := source[k..];
    FirstMatchInSuffix(result, item, n, p);
    var k' := k + (p - n) + |item|;
    ReplaceStepText(source, item, value, result, n, k, count, p, k');
  }

  /** The first match found from `n` is the first match of the suffix. */
  lemma FirstMatchInSuffix(s: string, item: string, n: nat, p: nat)
    requires n <= |s|
    requires Find(s, item, n) == Some(p)
    ensures n <= p && MatchAt(s[n..], item, p - n)
    ensures forall j: nat :: j < p - n ==> !MatchAt(s[n..], item, j)
  {
    forall j: nat | j < p - n ensures !MatchAt(s[n..], item, j) {
      MatchShift(s, item, n, j);
    }
    MatchShift(s, item, n, p - n);
  }

  lemma ReplaceStepText(source: string, item: string, value: string,
                        result: string, n: nat, k: nat, count: nat, p: nat, k': nat)
    requires |item| > 0
    requires ReplaceInvariant(source, item, value, result, n, k, count)
    requires n <= p && MatchAt(result[n..], item, p - n)
    requires forall j: nat :: j < p - n ==> !MatchAt(result[n..], item, j)
    requires k' == k + (p - n) + |item|
    ensures ReplaceInvariant(source, item, value,
              result[..p] + value + result[p + |item|..], p + |value|, k', count + 1)
  {
    var t := source[k..];
    ReplaceAllFirstMatch(t, item, value, p - n);
    assert t[p - n + |item|..] == source[k'..];
    ReplaceSplice(result, value, n, p, |item|, t);
    var next := result[..p] + value + result[p + |item|..];
    var rt := ReplaceAllRef(t, item, value);
    var rs := ReplaceAllRef(source[k'..], item, value);
    assert rt.0 == t[..p - n] + value + rs.0;
    ConcatAssoc(result[..n], t[..p - n], value, rs.0);
  }

  lemma ConcatAssoc(a: string, b: string, c: string, d: string)
    ensures a + b + c + d == a + (b + c + d)
  {
  }

  /** Text bookkeeping of one replacement in the rewritten string. */
  lemma ReplaceSplice(result: string, value: string, n: nat, p: nat, len: nat, t: string)
    requires n <= p && p + len <= |result|
    requires result[n..] == t
    ensures var next := result[..p] + value + result[p + len..];
      && next[..p + |value|] == result[..n] + t[..p - n] + value
      && next[p + |value|..] == t[p - n + len..]
  {
    assert result[n..p] == t[..p - n];
    assert result[p + len..] == t[p - n + len..];
  }

  /** When no further match exists the loop has produced the reference text. */
  lemma ReplaceDone(source: string, item: string, value: string,
                    result: string, n: nat, k: nat, count: nat)
    requires |item| > 0
    requires ReplaceInvariant(source, item, value, result, n, k, count)
    requires Find(result, item, n).None?
    ensures (result, count) == ReplaceAllRef(source, item, value)
  {
    forall p: nat ensures !MatchAt(source[k..], item, p) {
      MatchShift(result, item, n, p);
    }
    ReplaceAllNoMatch(source[k..], item, value);
    assert result == result[..n] + result[n..];
  }

  /** `replace_items`: the in-place loop of the source, which searches the
      partly rewritten text and resumes after each inserted `value`.  An empty
      `item` makes the source loop forever, hence `|item| > 0`. */
  method ReplaceItems(source: string, item: string, value: string) returns (result: string, count: nat)
    requires |item| > 0
    ensures (result, count) == ReplaceAllRef(source, item, value)
    ensures |result| == |source| + count * (|value| - |item|)
    ensures count == 0 <==> forall p: nat :: !MatchAt(source, item, p)
    ensures count == 0 ==> result == source
  {
    result := source;
    count := 0;
    var n: nat := 0;
    ghost var k: nat := 0;
    while true
      invariant ReplaceInvariant(source, item, value, result, n, k, count)
      decreases |result| - n
    {
      var found := Find(result, item, n);
      if found.None? {
        ReplaceDone(source, item, value, result, n, k, count);
        break;
      }
      var p := found.value;
      ReplaceStep(source, item, value, result, n, k, count, p);
      result := result[..p] + value + result[p + |item|..];
      count := count + 1;
      k := k + (p - n) + |item|;
      n := p + |value|;
    }
    ReplaceAllLength(source, item, value);
    ReplaceAllZeroCount(source, item, value);
    ReplaceAllCountZeroIff(source, item, value);
  }

  /** The reference counts zero replacements exactly when there is no match. */
  lemma {:induction false} ReplaceAllCountZeroIff(s: string, item: string, value: string)
    requires |item| > 0
    ensures ReplaceAllRef(s, item, value).1 == 0 <==> forall p: nat :: !MatchAt(s, item, p)
    decreases |s|
  {
    if |s| < |item| {
    } else if s[..|item|] == item {
      assert MatchAt(s, item, 0);
    } else {
      ReplaceAllCountZeroIff(s[1..], item, value);
      forall p: nat ensures MatchAt(s[1..], item, p) <==> MatchAt(s, item, 1 + p) {
        MatchShift(s, item, 1, p);
      }
      if ReplaceAllRef(s[1..], item, value).1 != 0 {
        var p: nat :| MatchAt(s[1..], item, p);
        assert MatchAt(s, item, 1 + p);
      } else {
        forall p: nat ensures !MatchAt(s, item, p) {
          if p > 0 {
            assert !MatchAt(s[1..], item, p - 1);
          }
        }
      }
    }
  }

  // ---------------------------------------------------------------------------
  // find_and_remove_at / locate_and_delete_at
  // ---------------------------------------------------------------------------

  /** `find_and_remove_at(src, search, offset)`: erase the first occurrence of
      `search` at or after `offset`; the flag says whether one was found. */
  function FindAndRemoveAt(src: string, search: string, offset: nat): (r: (bool, string))
    ensures !r.0 <==> forall p: nat :: offset <= p ==> !MatchAt(src, search, p)
    ensures !r.0 ==> r.1 == src
    ensures r.0 ==> exists loc :: offset <= loc && MatchAt(src, search, loc)
                      && (forall p: nat :: offset <= p < loc ==> !MatchAt(src, search, p))
                      && r.1 == src[..loc] + src[loc + |search|..]
  {
    match Find(src, search, offset)
    case None => (false, src)
    case Some(loc) => (true, src[..loc] + src[loc + |search|..])
  }

  /** `locate_and_delete_at(src, search, offset)`: as `find_and_remove_at`,
      but returns the index of the erased occurrence (`None` is `npos`). */
  function LocateAndDeleteAt(src: string, search: string, offset: nat): (r: (Option<nat>, string))
    ensures r.0.None? <==> forall p: nat :: offset <= p ==> !MatchAt(src, search, p)
    ensures r.0.None? ==> r.1 == src
    ensures r.0.Some? ==> offset <= r.0.value && MatchAt(src, search, r.0.value)
    ensures r.0.Some? ==> forall p: nat :: offset <= p < r.0.value ==> !MatchAt(src, search, p)
    ensures r.0.Some? ==> r.1 == src[..r.0.value] + src[r.0.value + |search|..]
  {
    var loc := Find(src, search, offset);
    match loc
    case None => (None, src)
    case Some(l) => (loc, src[..l] + src[l + |search|..])
  }

  // ---------------------------------------------------------------------------
  // NUL-terminated strings: cstrptr_length, count_delimiter, isChars
  // ---------------------------------------------------------------------------

  /** `cstrptr_length(str)`: the index of the first NUL. */
  function CStrLength(s: string): (n: nat)
    requires Nul in s
    ensures n < |s| && s[n] == Nul
    ensures Nul !in s[..n]
    decreases |s|
  {
    if s[0] == Nul then 0
    else
      assert Nul in s[1..] by { var i :| 0 <= i < |s| && s[i] == Nul; assert s[1..][i - 1] == Nul; }
      var n := 1 + CStrLength(s[1..]);
      assert s[..n] == [s[0]] + s[1..][..n - 1];
      n
  }

  /** The characters of a C string, without the terminator. */
  function CStr(s: string): string
    requires Nul in s
  {
    s[..CStrLength(s)]
  }

  /** `count_delimiter<D>(str)`: how often `d` occurs before the first NUL. */
  function CountDelimiter(s: string, d: char): (r: nat)
    requires Nul in s
    ensures r == multiset(CStr(s))[d]
    decreases |s|
  {
    if s[0] == Nul then 0
    else
      assert Nul in s[1..] by { var i :| 0 <= i < |s| && s[i] == Nul; assert s[1..][i - 1] == Nul; }
      assert CStr(s) == [s[0]] + CStr(s[1..]);
      if s[0] == d then CountDelimiter(s[1..], d) + 1 else CountDelimiter(s[1..], d)
  }

  /** `isChars(chars)(c)`: does `c` occur in the NUL-terminated set `chars`?
      The terminator itself is never compared, so NUL is never a member. */
  function IsChars(chars: string, c: char): (r: bool)
    requires Nul in chars
    ensures r <==> c in CStr(chars)
    decreases |chars|
  {
    if chars[0] == Nul then false
    else
      assert Nul in chars[1..] by {
        var i :| 0 <= i < |chars| && chars[i] == Nul; assert chars[1..][i - 1] == Nul;
      }
      assert CStr(chars) == [chars[0]] + CStr(chars[1..]);
      if chars[0] == c then true else IsChars(chars[1..], c)
  }

  // ---------------------------------------------------------------------------
  // split_string_at
  // ---------------------------------------------------------------------------

  /** The classic "C" locale `isspace` set: space, \t, \n, \v, \f, \r. */
  predicate IsSpace(c: char) {
    c == ' ' || c == '\t' || c == '\n' || c == 11 as char || c == 12 as char || c == '\r'
  }

  /** A character the tokenising locale of `split_string_at<tokens...>`
      classifies as space: one of the tokens or a classic space. */
  predicate IsSeparator(c: char, tokens: seq<char>) {
    c in tokens || IsSpace(c)
  }

  /** Characters of `s` that are not separators, in order. */
  function Strip(s: string, tokens: seq<char>): string {
    if s == [] then []
    else if IsSeparator(s[0], tokens) then Strip(s[1..], tokens)
    else [s[0]] + Strip(s[1..], tokens)
  }

  lemma {:induction false} StripAppend(a: string, b: string, tokens: seq<char>)
    ensures Strip(a + b, tokens) == Strip(a, tokens) + Strip(b, tokens)
    decreases |a|
  {
    if a != [] {
      assert (a + b)[0] == a[0];
      assert (a + b)[1..] == a[1..] + b;
      StripAppend(a[1..], b, tokens);
    } else {
      assert a + b == b;
    }
  }

  /** Flattening a list of strings. */
  function Concat(xs: seq<string>): string {
    if xs == [] then "" else xs[0] + Concat(xs[1..])
  }

  /** Length of the maximal separator-free prefix of `s`. */
  function TokenLength(s: string, tokens: seq<char>): (k: nat)
    ensures k <= |s|
    ensures forall i :: 0 <= i < k ==> !IsSeparator(s[i], tokens)
    ensures k < |s| ==> IsSeparator(s[k], tokens)
    decreases |s|
  {
    if s == [] || IsSeparator(s[0], tokens) then 0
    else 1 + TokenLength(s[1..], tokens)
  }

  /** `split_string_at<tokens...>(s)`: the words an `istream` extracts when
      the tokens are classified as white space, i.e. the maximal runs of
      non-separator characters, in input order. */
  function SplitStringAt(s: string, tokens: seq<char>): (r: seq<string>)
    ensures forall i :: 0 <= i < |r| ==> |r[i]| > 0
    ensures forall i, j :: 0 <= i < |r| && 0 <= j < |r[i]| ==> !IsSeparator(r[i][j], tokens)
    ensures Concat(r) == Strip(s, tokens)
    decreases |s|
  {
    if s == [] then []
    else if IsSeparator(s[0], tokens) then SplitStringAt(s[1..], tokens)
    else
      var k := TokenLength(s, tokens);
      var rest := SplitStringAt(s[k..], tokens);
      StripTokenPrefix(s, k, tokens);
      assert Concat([s[..k]] + rest) == s[..k] + Concat(rest) by {
        assert ([s[..k]] + rest)[1..] == rest;
      }
      [s[..k]] + rest
  }

  /** Stripping a separator-free prefix keeps it whole. */
  lemma StripTokenPrefix(s: string, k: nat, tokens: seq<char>)
    requires k <= |s|
    requires forall i :: 0 <= i < k ==> !IsSeparator(s[i], tokens)
    ensures Strip(s, tokens) == s[..k] + Strip(s[k..], tokens)
  {
    assert s == s[..k] + s[k..];
    StripAppend(s[..k], s[k..], tokens);
    StripNoSeparator(s[..k], tokens);
  }

  lemma {:induction false} StripNoSeparator(a: string, tokens: seq<char>)
    requires forall i :: 0 <= i < |a| ==> !IsSeparator(a[i], tokens)
    ensures Strip(a, tokens) == a
    decreases |a|
  {
    if a != [] {
      StripNoSeparator(a[1..], tokens);
    }
  }

  // ---------------------------------------------------------------------------
  // join_strings_with
  // ---------------------------------------------------------------------------

  /** What `std::copy` into an `ostream_iterator(os, delim)` writes: every
      element followed by the delimiter. */
  function WriteEachWithDelim(xs: seq<string>, delim: string): string {
    if xs == [] then "" else xs[0] + delim + WriteEachWithDelim(xs[1..], delim)
  }

  /** `join_strings_with(elements, delim)`, where `delim` holds the characters
      of the C string before its terminator: all but the last element are
      copied with a trailing delimiter, then the last element is written. */
  function JoinStringsWith(xs: seq<string>, delim: string): (r: string)
    ensures |xs| == 0 ==> r == ""
    ensures |xs| == 1 ==> r == xs[0]
  {
    if xs == [] then ""
    else WriteEachWithDelim(xs[..|xs| - 1], delim) + xs[|xs| - 1]
  }

  /** `join_strings_with(elements, char delim)`: the delimiter is the C string
      `{delim, 0}`, so a NUL delimiter joins with nothing in between. */
  function JoinStringsWithChar(xs: seq<string>, delim: char): (r: string)
    ensures r == JoinStringsWith(xs, if delim == Nul then "" else [delim])
  {
    var promoter := [delim, Nul];
    assert CStr(promoter) == (if delim == Nul then "" else [delim]) by {
      if delim != Nul { assert promoter[..1] == [delim]; }
    }
    JoinStringsWith(xs, CStr(promoter))
  }

  /** Independent, front-to-back definition of "the delimiter goes exactly
      between consecutive elements". */
  function Interleave(xs: seq<string>, delim: string): string
    requires |xs| > 0
  {
    if |xs| == 1 then xs[0] else xs[0] + delim + Interleave(xs[1..], delim)
  }

  /** The source's back-split join agrees with the interleaving. */
  lemma {:induction false} JoinStringsWithInterleaves(xs: seq<string>, delim: string)
    requires |xs| > 0
    ensures JoinStringsWith(xs, delim) == Interleave(xs, delim)
    decreases |xs|
  {
    if |xs| > 1 {
      JoinStringsWithInterleaves(xs[1..], delim);
      assert xs[..|xs| - 1][1..] == xs[1..][..|xs[1..]| - 1];
      assert xs[1..][|xs[1..]| - 1] == xs[|xs| - 1];
    }
  }

  /** The joined length is the total length plus one delimiter per gap. */
  lemma {:induction false} InterleaveLength(xs: seq<string>, delim: string)
    requires |xs| > 0
    ensures |Interleave(xs, delim)| == |Concat(xs)| + (|xs| - 1) * |delim|
    decreases |xs|
  {
    if |xs| > 1 {
      InterleaveLength(xs[1..], delim);
    }
  }

  /** Splitting a join round-trips: joining separator-free, non-empty words
      with a separator character and splitting again gives the words back. */
  lemma SplitJoinRoundTrip(words: seq<string>, sep: char, tokens: seq<char>)
    requires |words| > 0
    requires IsSeparator(sep, tokens)
    requires forall i :: 0 <= i < |words| ==> |words[i]| > 0
    requires forall i, j :: 0 <= i < |words| && 0 <= j < |words[i]| ==> !IsSeparator(words[i][j], tokens)
    ensures SplitStringAt(JoinStringsWith(words, [sep]), tokens) == words
  {
    JoinStringsWithInterleaves(words, [sep]);
    SplitInterleave(words, sep, tokens);
  }

  lemma {:induction false} SplitInterleave(words: seq<string>, sep: char, tokens: seq<char>)
    requires |words| > 0
    requires IsSeparator(sep, tokens)
    requires forall i :: 0 <= i < |words| ==> |words[i]| > 0
    requires forall i, j :: 0 <= i < |words| && 0 <= j < |words[i]| ==> !IsSeparator(words[i][j], tokens)
    ensures SplitStringAt(Interleave(words, [sep]), tokens) == words
    decreases |words|
  {
    var w := words[0];
    if |words| == 1 {
      SplitWord(w, "", tokens);
      assert w + "" == w;
    } else {
      var rest := Interleave(words[1..], [sep]);
      assert Interleave(words, [sep]) == w + ([sep] + rest);
      SplitWord(w, [sep] + rest, tokens);
      assert ([sep] + rest)[1..] == rest;
      SplitInterleave(words[1..], sep, tokens);
      assert [w] + words[1..] == words;
    }
  }

  /** Splitting a word followed by a separator (or nothing) yields the word
      first, then the split of what follows. */
  lemma SplitWord(w: string, t: string, tokens: seq<char>)
    requires |w| > 0
    requires forall j :: 0 <= j < |w| ==> !IsSeparator(w[j], tokens)
    requires t == [] || IsSeparator(t[0], tokens)
    ensures SplitStringAt(w + t, tokens)
         == [w] + (if t == [] then [] else SplitStringAt(t[1..], tokens))
  {
    var s := w + t;
    TokenLengthOfWord(w, t, tokens);
    assert s[..|w|] == w;
    assert s[|w|..] == t;
  }

  lemma {:induction false} TokenLengthOfWord(w: string, t: string, tokens: seq<char>)
    requires forall j :: 0 <= j < |w| ==> !IsSeparator(w[j], tokens)
    requires t == [] || IsSeparator(t[0], tokens)
    ensures TokenLength(w + t, tokens) == |w|
    decreases |w|
  {
    if |w| > 0 {
      assert (w + t)[1..] == w[1..] + t;
      TokenLengthOfWord(w[1..], t, tokens);
    } else {
      assert w + t == t;
    }
  }

  // ---------------------------------------------------------------------------
  // Trimming
  // ---------------------------------------------------------------------------

  /** Length of the maximal prefix whose characters satisfy `p`. */
  function LeadingRun(s: string, p: char -> bool): (k: nat)
    ensures k <= |s|
    ensures forall i :: 0 <= i < k ==> p(s[i])
    ensures k < |s| ==> !p(s[k])
    decreases |s|
  {
    if s == [] || !p(s[0]) then 0 else 1 + LeadingRun(s[1..], p)
  }

  /** Length of the maximal suffix whose characters satisfy `p`. */
  function TrailingRun(s: string, p: char -> bool): (k: nat)
    ensures k <= |s|
    ensures forall i :: |s| - k <= i < |s| ==> p(s[i])
    ensures k < |s| ==> !p(s[|s| - k - 1])
    decreases |s|
  {
    if s == [] || !p(s[|s| - 1]) then 0 else 1 + TrailingRun(s[..|s| - 1], p)
  }

  /** `ltrim(s, t)` with a Trimmer predicate, corrected: erase the leading
      run of characters the trimmer accepts. */
  function LTrimWith(s: string, t: char -> bool): (r: string)
    ensures |r| <= |s| && r == s[|s| - |r|..]
    ensures forall i :: 0 <= i < |s| - |r| ==> t(s[i])
    ensures |r| > 0 ==> !t(r[0])
  {
    s[LeadingRun(s, t)..]
  }

  /** `rtrim(s, t)`: erase the trailing run of characters the trimmer accepts. */
  function RTrimWith(s: string, t: char -> bool): (r: string)
    ensures |r| <= |s| && r == s[..|r|]
    ensures forall i :: |r| <= i < |s| ==> t(s[i])
    ensures |r| > 0 ==> !t(r[|r| - 1])
  {
    s[..|s| - TrailingRun(s, t)]
  }

  /** `ltrim(s)` / `ltrim_copy(s)`: drop the leading `isspace` run.  Strings
      are values here, so the in-place and copying variants coincide. */
  function LTrim(s: string): (r: string)
    ensures |r| <= |s| && r == s[|s| - |r|..]
    ensures forall i :: 0 <= i < |s| - |r| ==> IsSpace(s[i])
    ensures |r| > 0 ==> !IsSpace(r[0])
  {
    LTrimWith(s, IsSpace)
  }

  /** `rtrim(s)` / `rtrim_copy(s)`: drop the trailing `isspace` run. */
  function RTrim(s: string): (r: string)
    ensures |r| <= |s| && r == s[..|r|]
    ensures forall i :: |r| <= i < |s| ==> IsSpace(s[i])
    ensures |r| > 0 ==> !IsSpace(r[|r| - 1])
  {
    RTrimWith(s, IsSpace)
  }

  /** `trim(s)` / `trim_copy(s)`: `ltrim` then `rtrim`. */
  function Trim(s: string): (r: string)
    ensures |r| > 0 ==> !IsSpace(r[0]) && !IsSpace(r[|r| - 1])
    ensures exists i, j :: 0 <= i <= j <= |s| && r == s[i..j]
                && (forall k :: 0 <= k < i ==> IsSpace(s[k]))
                && (forall k :: j <= k < |s| ==> IsSpace(s[k]))
  {
    var l := LTrim(s);
    var r := RTrim(l);
    var i := |s| - |l|;
    assert r == s[i..i + |r|];
    r
  }

  /** Trimming is idempotent. */
  lemma TrimIdempotent(s: string)
    ensures Trim(Trim(s)) == Trim(s)
  {
    var t := Trim(s);
    if |t| > 0 {
      assert LeadingRun(t, IsSpace) == 0;
      assert LTrim(t) == t;
      assert TrailingRun(t, IsSpace) == 0;
    }
  }

  // ---------------------------------------------------------------------------
  // Source defects kept as written (see README "Findings")
  // ---------------------------------------------------------------------------

  /** `ltrim(s, t)` AS WRITTEN: it erases from the first non-trimmed character
      to the end, so it keeps only the leading trimmed run. */
  function LTrimWithAsWritten(s: string, t: char -> bool): (r: string)
    ensures |r| <= |s| && r == s[..|r|]
    ensures forall i :: 0 <= i < |r| ==> t(r[i])
  {
    s[..LeadingRun(s, t)]
  }

  /** `trim(s, t)` AS WRITTEN: the faulty `ltrim` leaves only trimmable
      characters, which `rtrim` then removes, so the result is always empty. */
  lemma TrimWithAsWrittenIsEmpty(s: string, t: char -> bool)
    ensures RTrimWith(LTrimWithAsWritten(s, t), t) == ""
  {
  }

  /** Concrete witness: trimming spaces off " a " with the Trimmer overload
      yields "" instead of "a". */
  lemma TrimWithAsWrittenWitness()
    ensures RTrimWith(LTrimWithAsWritten(" a ", IsSpace), IsSpace) == ""
    ensures RTrimWith(LTrimWith(" a ", IsSpace), IsSpace) == "a"
  {
    TrimWithAsWrittenIsEmpty(" a ", IsSpace);
    assert LeadingRun(" a ", IsSpace) == 1;
    assert LTrimWith(" a ", IsSpace) == "a ";
    assert TrailingRun("a ", IsSpace) == 1;
  }

  /** `s.find(c, offset)` for a single character, with `npos` as `Npos`. */
  function FindChar(s: string, c: char, offset: nat): (r: nat)
    requires |s| < Npos
    ensures r == Npos || (offset <= r < |s| && s[r] == c)
    ensures forall i :: offset <= i < |s| && i < r ==> s[i] != c
    decreases |s| - offset
  {
    if offset >= |s| then Npos
    else if s[offset] == c then offset
    else FindChar(s, c, offset + 1)
  }

  /** Smallest element of a non-empty sequence (`*min_element`). */
  function MinOf(xs: seq<nat>): (m: nat)
    requires |xs| > 0
    ensures m in xs
    ensures forall i :: 0 <= i < |xs| ==> m <= xs[i]
  {
    if |xs| == 1 then xs[0]
    else
      var rest := MinOf(xs[1..]);
      assert rest in xs;
      if xs[0] <= rest then xs[0] else rest
  }

  /** The per-token search results, in token order. */
  function FindEach(s: string, tokens: seq<char>, offset: nat): (r: seq<nat>)
    requires |s| < Npos
    ensures |r| == |tokens|
    ensures forall i :: 0 <= i < |r| ==> r[i] == FindChar(s, tokens[i], offset)
  {
    if tokens == [] then [] else [FindChar(s, tokens[0], offset)] + FindEach(s, tokens[1..], offset)
  }

  /** `nearest_of_any_at<tokens...>(s, offset)` AS WRITTEN: the locations
      vector is constructed with one zero per token and the search results are
      pushed after them, so the minimum is always 0. */
  function NearestOfAnyAtAsWritten(s: string, tokens: seq<char>, offset: nat): (r: nat)
    requires |tokens| > 0 && |s| < Npos
    ensures r == 0
  {
    var locations := seq(|tokens|, _ => 0) + FindEach(s, tokens, offset);
    assert locations[0] == 0;
    MinOf(locations)
  }

  /** `nearest_of_any_at` as evidently intended: the earliest index at or
      after `offset` holding any of the tokens, `Npos` when there is none. */
  function NearestOfAnyAt(s: string, tokens: seq<char>, offset: nat): (r: nat)
    requires |tokens| > 0 && |s| < Npos
    ensures r == Npos || (offset <= r < |s| && s[r] in tokens)
    ensures forall i :: offset <= i < |s| && i < r ==> s[i] !in tokens
  {
    var found := FindEach(s, tokens, offset);
    var m := MinOf(found);
    m
  }

  /** Concrete witness: in "a,b" the nearest ',' from offset 0 is at 1, while
      the source's version answers 0. */
  lemma NearestOfAnyAtWitness()
    ensures NearestOfAnyAtAsWritten("a,b", [','], 0) == 0
    ensures NearestOfAnyAt("a,b", [','], 0) == 1
  {
    assert FindChar("a,b", ',', 0) == 1;
  }
}
