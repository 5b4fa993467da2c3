/** String primitives shared by the Rust command layer and the Python SDK model:
    whitespace classes, trimming, searching, splitting, joining, replacing and
    decimal formatting, each with the property that pins it down. */
module Text {
  import opened Wrappers

  /** Rust's `char::is_whitespace`, which is also the regex crate's Unicode `\s`:
      the characters with the Unicode White_Space property. */
  predicate IsSpace(c: char) {
    ('\U{0009}' <= c <= '\U{000D}') || c == ' ' || c == '\U{0085}' || c == '\U{00A0}'
    || c == '\U{1680}' || ('\U{2000}' <= c <= '\U{200A}') || c == '\U{2028}' || c == '\U{2029}'
    || c == '\U{202F}' || c == '\U{205F}' || c == '\U{3000}'
  }

  /** Python's `str.isspace` (and `\s` of its `re` module on `str` patterns): the
      Rust class plus the four information separators U+001C..U+001F. */
  predicate IsPySpace(c: char) {
    IsSpace(c) || ('\U{001C}' <= c <= '\U{001F}')
  }

  predicate AllSpace(s: string) {
    forall i :: 0 <= i < |s| ==> IsSpace(s[i])
  }

  predicate QuoteFree(s: string) {
    forall i :: 0 <= i < |s| ==> s[i] != '"'
  }

  /** Length of the longest prefix of `s` whose characters all satisfy `p`. */
  function SpanWhile(s: string, p: char -> bool): (n: nat)
    ensures n <= |s|
    ensures forall i :: 0 <= i < n ==> p(s[i])
    ensures n < |s| ==> !p(s[n])
  {
    if s == [] || !p(s[0]) then 0 else 1 + SpanWhile(s[1..], p)
  }

  /** Length of the longest suffix of `s` whose characters all satisfy `p`. */
  function SpanWhileBack(s: string, p: char -> bool): (n: nat)
    ensures n <= |s|
    ensures forall i :: |s| - n <= i < |s| ==> p(s[i])
    ensures n < |s| ==> !p(s[|s| - 1 - n])
  {
    if s == [] || !p(s[|s| - 1]) then 0 else 1 + SpanWhileBack(s[..|s| - 1], p)
  }

  /** The prefix-span of `w + r` is exactly `w` when every character of `w`
      satisfies `p` and `r` does not start with one that does. */
  lemma SpanWhileOf(w: string, r: string, p: char -> bool)
    requires forall i :: 0 <= i < |w| ==> p(w[i])
    requires r == [] || !p(r[0])
    ensures SpanWhile(w + r, p) == |w|
  {
    assert forall i :: 0 <= i < |w| ==> (w + r)[i] == w[i];
    if r != [] {
      assert (w + r)[|w|] == r[0];
    }
  }

  /** The suffix-span of `r + w` is exactly `w` when every character of `w`
      satisfies `p` and `r` does not end with one that does. */
  lemma SpanWhileBackOf(r: string, w: string, p: char -> bool)
    requires forall i :: 0 <= i < |w| ==> p(w[i])
    requires r == [] || !p(r[|r| - 1])
    ensures SpanWhileBack(r + w, p) == |w|
  {
    assert forall i :: |r| <= i < |r| + |w| ==> (r + w)[i] == w[i - |r|];
    if r != [] {
      assert (r + w)[|r| - 1] == r[|r| - 1];
    }
  }

  /** Rust's `trim_start` / Python's `lstrip(chars)` for the class `p`. */
  function TrimStartBy(s: string, p: char -> bool): (r: string)
    ensures r == s[SpanWhile(s, p)..]
  {
    s[SpanWhile(s, p)..]
  }

  /** Rust's `trim_end` / Python's `rstrip(chars)` for the class `p`. */
  function TrimEndBy(s: string, p: char -> bool): (r: string)
    ensures r == s[..|s| - SpanWhileBack(s, p)]
  {
    s[..|s| - SpanWhileBack(s, p)]
  }

  /** Rust's `trim` / Python's `strip(chars)` for the class `p`: both ends. */
  function TrimBy(s: string, p: char -> bool): (r: string)
    ensures r == TrimStartBy(TrimEndBy(s, p), p)
  {
    TrimStartBy(TrimEndBy(s, p), p)
  }

  /** A trim removes exactly a run of `p`-characters at each end and keeps a
      middle that neither starts nor ends with one. */
  lemma TrimByShape(s: string, p: char -> bool)
    ensures var r := TrimBy(s, p);
      exists i, j :: 0 <= i <= j <= |s| && r == s[i..j]
        && (forall k :: 0 <= k < i ==> p(s[k]))
        && (forall k :: j <= k < |s| ==> p(s[k]))
        && (r != [] ==> !p(r[0]) && !p(r[|r| - 1]))
  {
    var e := TrimEndBy(s, p);
    var j := |s| - SpanWhileBack(s, p);
    var i := SpanWhile(e, p);
    assert e == s[..j];
    var r := TrimBy(s, p);
    assert r == s[i..j];
    if r != [] {
      assert r[|r| - 1] == s[j - 1];
      assert !p(s[|s| - 1 - SpanWhileBack(s, p)]);
    }
  }

  /** The whitespace a trim removes at each end, named. */
  lemma TrimSplit(s: string) returns (w1: string, w2: string)
    ensures AllSpace(w1) && AllSpace(w2) && s == w1 + Trim(s) + w2
  {
    var j := |s| - SpanWhileBack(s, IsSpace);
    var e := TrimEndBy(s, IsSpace);
    assert e == s[..j];
    var i := SpanWhile(e, IsSpace);
    w1, w2 := s[..i], s[j..];
    assert Trim(s) == s[i..j];
    assert s == s[..i] + s[i..j] + s[j..];
  }

  /** Trimming something already trimmed changes nothing. */
  lemma TrimByIdempotent(s: string, p: char -> bool)
    ensures TrimBy(TrimBy(s, p), p) == TrimBy(s, p)
  {
    TrimByShape(s, p);
    var r := TrimBy(s, p);
    if r != [] {
      assert SpanWhileBack(r, p) == 0;
      assert TrimEndBy(r, p) == r;
      assert SpanWhile(r, p) == 0;
    }
  }

  /** Rust's `str::trim`. */
  function Trim(s: string): string {
    TrimBy(s, IsSpace)
  }

  /** Trimming text padded with whitespace on both sides returns the text, when
      the text neither starts nor ends with whitespace. */
  lemma TrimPadded(w1: string, u: string, w2: string)
    requires AllSpace(w1) && AllSpace(w2)
    requires u != [] ==> !IsSpace(u[0]) && !IsSpace(u[|u| - 1])
    ensures Trim(w1 + u + w2) == u
  {
    var s := w1 + u + w2;
    var n := SpanWhileBack(s, IsSpace);
    assert forall i :: |w1| + |u| <= i < |s| ==> s[i] == w2[i - |w1| - |u|];
    if u == [] {
      assert AllSpace(s);
      assert TrimEndBy(s, IsSpace) == [];
    } else {
      assert s[|s| - 1 - |w2|] == u[|u| - 1];
      assert n == |w2|;
      assert TrimEndBy(s, IsSpace) == w1 + u;
      SpanWhileOf(w1, u, IsSpace);
    }
  }

  /** Concatenation regroups; stated once so that proofs need not rediscover it. */
  lemma AppendAssoc(a: string, b: string, c: string)
    ensures (a + b) + c == a + (b + c)
  {
  }

  /** A slice of a slice is a slice of the whole. */
  lemma SliceOfSlice(b: string, i: nat, j: nat, k: nat, l: nat)
    requires i <= j <= |b| && k <= l <= j - i
    ensures b[i..j][k..l] == b[i + k..i + l]
  {
    var u, v := b[i..j][k..l], b[i + k..i + l];
    forall x | 0 <= x < |u|
      ensures u[x] == v[x]
    {
      assert u[x] == b[i..j][k + x];
    }
  }

  /** Does `t` occur in `s` at position `i`? */
  predicate OccursAt(s: string, t: string, i: nat) {
    i + |t| <= |s| && s[i..i + |t|] == t
  }

  /** Python's `s.find(t)` / Rust's `s.find(t)`: the first occurrence, if any. */
  function IndexOf(s: string, t: string, from: nat := 0): (r: Option<nat>)
    requires from <= |s| + 1
    decreases |s| + 1 - from
    ensures r.Some? ==> (from <= r.value && OccursAt(s, t, r.value)
                         && forall j :: from <= j < r.value ==> !OccursAt(s, t, j))
    ensures r.None? ==> forall j :: from <= j <= |s| ==> !OccursAt(s, t, j)
  {
    if from > |s| then None
    else if OccursAt(s, t, from) then Some(from)
    else IndexOf(s, t, from + 1)
  }

  /** `s.starts_with(p)` / `s.startswith(p)`. */
  predicate StartsWith(s: string, p: string) {
    |p| <= |s| && s[..|p|] == p
  }

  /** Python's `t in s`. */
  predicate Contains(s: string, t: string) {
    IndexOf(s, t).Some?
  }

  lemma ContainsAt(s: string, t: string, i: nat)
    requires OccursAt(s, t, i)
    ensures Contains(s, t)
  {
  }

  /** Python's `s.rfind(t)`: the last occurrence, if any. */
  function LastIndexOf(s: string, t: string, upto: int): (r: Option<nat>)
    requires upto <= |s|
    decreases upto + 1
    ensures r.Some? ==> (r.value <= upto && OccursAt(s, t, r.value)
                         && forall j :: r.value < j <= upto ==> !OccursAt(s, t, j))
    ensures r.None? ==> forall j :: 0 <= j <= upto ==> !OccursAt(s, t, j)
  {
    if upto < 0 then None
    else if OccursAt(s, t, upto) then Some(upto)
    else LastIndexOf(s, t, upto - 1)
  }

  /** `str.split(sep)` (Python) and `str::split(sep)` (Rust): cut at every
      non-overlapping occurrence of `sep`, scanning left to right. */
  function SplitOn(s: string, sep: string): (parts: seq<string>)
    requires sep != []
    decreases |s|
    ensures parts != []
  {
    match IndexOf(s, sep)
    case None => [s]
    case Some(i) => [s[..i]] + SplitOn(s[i + |sep|..], sep)
  }

  /** `sep.join(parts)`. */
  function JoinWith(parts: seq<string>, sep: string): string {
    if parts == [] then []
    else if |parts| == 1 then parts[0]
    else parts[0] + sep + JoinWith(parts[1..], sep)
  }

  /** Splitting and joining back with the same separator restores the text. */
  lemma {:induction false} JoinSplit(s: string, sep: string)
    requires sep != []
    ensures JoinWith(SplitOn(s, sep), sep) == s
    decreases |s|
  {
    match IndexOf(s, sep)
    case None =>
    case Some(i) =>
      var rest := s[i + |sep|..];
      JoinSplit(rest, sep);
      SplitJoinCons(s, sep, sep, i);
      assert s == s[..i] + s[i..i + |sep|] + rest;
  }

  /** Where the first separator is at `i`, joining the split with `rep` puts
      `rep` after the first part. */
  lemma SplitJoinCons(s: string, sep: string, rep: string, i: nat)
    requires sep != [] && IndexOf(s, sep) == Some(i)
    ensures JoinWith(SplitOn(s, sep), rep) == s[..i] + rep + JoinWith(SplitOn(s[i + |sep|..], sep), rep)
  {
    var tail := SplitOn(s[i + |sep|..], sep);
    assert SplitOn(s, sep) == [s[..i]] + tail;
    JoinCons(s[..i], tail, rep);
  }

  /** Joining a part in front of at least one more adds it and a separator. */
  lemma JoinCons(x: string, tail: seq<string>, sep: string)
    requires tail != []
    ensures JoinWith([x] + tail, sep) == x + sep + JoinWith(tail, sep)
  {
    var parts := [x] + tail;
    assert parts[0] == x && parts[1..] == tail;
  }

  /** No part produced by a split contains the separator. */
  lemma {:induction false} SplitPartsAvoidSep(s: string, sep: string)
    requires sep != []
    ensures forall k :: 0 <= k < |SplitOn(s, sep)| ==> !Contains(SplitOn(s, sep)[k], sep)
    decreases |s|
  {
    var parts := SplitOn(s, sep);
    match IndexOf(s, sep)
    case None =>
    case Some(i) =>
      var rest := s[i + |sep|..];
      SplitPartsAvoidSep(rest, sep);
      assert !Contains(s[..i], sep) by {
        if Contains(s[..i], sep) {
          var j := IndexOf(s[..i], sep).value;
          assert s[..i][j..j + |sep|] == s[j..j + |sep|];
          assert OccursAt(s, sep, j);
        }
      }
      forall k | 0 <= k < |parts|
        ensures !Contains(parts[k], sep)
      {
        if k > 0 { assert parts[k] == SplitOn(rest, sep)[k - 1]; }
      }
  }

  /** Joining parts that never contain the separator's first character and
      splitting again gives the parts back. */
  lemma {:induction false} SplitJoin(parts: seq<string>, sep: string)
    requires sep != [] && parts != []
    requires forall k, i :: 0 <= k < |parts| && 0 <= i < |parts[k]| ==> parts[k][i] != sep[0]
    ensures SplitOn(JoinWith(parts, sep), sep) == parts
    decreases |parts|
  {
    var s := JoinWith(parts, sep);
    var p0 := parts[0];
    if |parts| == 1 {
      forall j | 0 <= j <= |s|
        ensures !OccursAt(s, sep, j)
      {
        if j + |sep| <= |s| { assert s[j..j + |sep|][0] == s[j]; }
      }
    } else {
      var rest := JoinWith(parts[1..], sep);
      assert s == p0 + sep + rest;
      assert OccursAt(s, sep, |p0|);
      forall j | 0 <= j < |p0|
        ensures !OccursAt(s, sep, j)
      {
        assert s[j] == p0[j];
        assert s[j..j + |sep|][0] == s[j];
      }
      var i := IndexOf(s, sep).value;
      assert i == |p0|;
      assert s[..i] == p0;
      assert s[i + |sep|..] == rest;
      SplitJoin(parts[1..], sep);
    }
  }

  /** Python's `s.replace(pat, rep)`: every non-overlapping occurrence, left to right. */
  function ReplaceAll(s: string, pat: string, rep: string): (r: string)
    requires pat != []
    decreases |s|
    ensures !Contains(s, pat) ==> r == s
  {
    match IndexOf(s, pat)
    case None => s
    case Some(i) => s[..i] + rep + ReplaceAll(s[i + |pat|..], pat, rep)
  }

  /** Replacement is splitting on the pattern and joining with the replacement. */
  lemma {:induction false} ReplaceAllIsSplitJoin(s: string, pat: string, rep: string)
    requires pat != []
    ensures ReplaceAll(s, pat, rep) == JoinWith(SplitOn(s, pat), rep)
    decreases |s|
  {
    match IndexOf(s, pat)
    case None =>
    case Some(i) =>
      ReplaceAllIsSplitJoin(s[i + |pat|..], pat, rep);
      SplitJoinCons(s, pat, rep, i);
  }

  function AsciiLower(c: char): char {
    if 'A' <= c <= 'Z' then (c as int + 32) as char else c
  }

  /** Rust's `eq_ignore_ascii_case`: same length and equal after ASCII lower-casing. */
  predicate EqIgnoreAsciiCase(a: string, b: string) {
    |a| == |b| && forall i :: 0 <= i < |a| ==> AsciiLower(a[i]) == AsciiLower(b[i])
  }

  function DigitChar(d: nat): char
    requires d < 10
  {
    ('0' as int + d) as char
  }

  /** `format!("{}", n)` for an unsigned integer. */
  function NatToString(n: nat): (r: string)
    ensures r != []
    ensures forall i :: 0 <= i < |r| ==> '0' <= r[i] <= '9'
  {
    if n < 10 then [DigitChar(n)] else NatToString(n / 10) + [DigitChar(n % 10)]
  }

  /** Value of a string of decimal digits. */
  function DecimalValue(s: string): nat
    requires forall i :: 0 <= i < |s| ==> '0' <= s[i] <= '9'
  {
    if s == [] then 0 else 10 * DecimalValue(s[..|s| - 1]) + (s[|s| - 1] as int - '0' as int)
  }

  /** The decimal text of `n` reads back as `n`, and has no leading zero. */
  lemma {:induction false} NatToStringRoundTrip(n: nat)
    ensures DecimalValue(NatToString(n)) == n
    ensures NatToString(n)[0] == '0' ==> n == 0
  {
    if n >= 10 {
      NatToStringRoundTrip(n / 10);
      var r := NatToString(n);
      assert r[..|r| - 1] == NatToString(n / 10);
    }
  }
}
