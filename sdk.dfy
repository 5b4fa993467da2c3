/** String helpers of the Python SDK (sdk/python/src/wind_kvstore/_utils.py):
    the guard on warning messages and the reading of the executor's reply into
    numbered entries. The `warnings` call and `json.dumps` are not modelled:
    the parsed reply is the ordered list of its entries. */
module Sdk {
  import opened Wrappers
  import opened Text
  import Commands

  /** `remind`: an empty message raises `ValueError`; any other is passed to
      `warnings.warn`. */
  function Remind(msg: string): (r: Outcome)
    ensures r.Fail? <==> msg == []
    ensures r.Fail? ==> r.msg == "The warning msg can not be empty."
  {
    if msg == [] then Fail("The warning msg can not be empty.") else Pass
  }

  predicate IsDoubleQuote(c: char) { c == '"' }
  predicate IsSingleQuote(c: char) { c == '\'' }
  predicate IsSemicolon(c: char) { c == ';' }

  /** The separator between entries: quote, space, quote. */
  const Separator: string := "\" \""

  /** The text dropped from the first command: `{"status":""`, a backslash, `n`
      and four spaces. */
  const StatusPrefix: string := "{\"status\":\"\"\\n    "

  /** One entry of the parsed reply: `cmd<i>`, the command and the message. */
  datatype Entry = Entry(key: string, command: string, message: string)

  /** The reply with its outer quotes stripped and every `\"` made `"`, cut at
      every `" "`. */
  function Parts(reply: string): (parts: seq<string>)
    ensures parts != []
  {
    SplitOn(ReplaceAll(TrimBy(reply, IsDoubleQuote), "\\\"", "\""), Separator)
  }

  /** `p.rsplit(sep, 1)`: the text before and after the last occurrence of `sep`. */
  function RSplit(p: string, sep: string): (r: Option<(string, string)>)
    requires sep != []
    ensures r.None? <==> !Contains(p, sep)
    ensures r.Some? ==> r.value.0 + sep + r.value.1 == p
                        && forall j :: |r.value.0| < j <= |p| ==> !OccursAt(p, sep, j)
  {
    match LastIndexOf(p, sep, |p|)
    case None => None
    case Some(j) =>
      assert p == p[..j] + sep + p[j + |sep|..];
      Some((p[..j], p[j + |sep|..]))
  }

  /** The entry part number `i` (counting from 1) contributes, if any: none
      without a `": "`, none when its command side contains `": Error"`. */
  function PartEntry(i: nat, part: string): (r: Option<Entry>)
    ensures r.Some? ==> r.value.key == "cmd" + NatToString(i)
    ensures !Contains(TrimBy(part, IsDoubleQuote), ": ") ==> r.None?
  {
    var p := TrimBy(part, IsDoubleQuote);
    match RSplit(p, ": ")
    case None => None
    case Some((cmdPart, msgPart)) =>
      var cmd0 := TrimEndBy(cmdPart, IsSemicolon);
      var cmd := if i == 1 then TrimBy(ReplaceAll(cmd0, StatusPrefix, ""), IsPySpace) else cmd0;
      if Contains(cmd, ": Error") then None
      else Some(Entry("cmd" + NatToString(i), TrimStartBy(cmd, IsPySpace), TrimBy(msgPart, IsSingleQuote)))
  }

  /** A slice of text that has no occurrence of `sep` starting inside it has
      none at all. */
  lemma SliceAvoids(b: string, i: nat, j: nat, sep: string)
    requires i <= j <= |b|
    requires forall k :: i <= k <= j ==> !OccursAt(b, sep, k)
    ensures !Contains(b[i..j], sep)
  {
    var t := b[i..j];
    forall k | 0 <= k <= |t|
      ensures !OccursAt(t, sep, k)
    {
      if k + |sep| <= |t| {
        SliceOfSlice(b, i, j, k, k + |sep|);
        assert !OccursAt(b, sep, i + k);
      }
    }
  }

  /** What follows the last `sep` contains no `sep`. */
  lemma RSplitTailAvoids(p: string, sep: string)
    requires sep != [] && RSplit(p, sep).Some?
    ensures !Contains(RSplit(p, sep).value.1, sep)
  {
    var (a, b) := RSplit(p, sep).value;
    assert b == p[|a| + |sep|..|p|];
    SliceAvoids(p, |a| + |sep|, |p|, sep);
  }

  /** Trimming text that has no `sep` cannot create one. */
  lemma TrimAvoids(b: string, q: char -> bool, sep: string)
    requires !Contains(b, sep)
    ensures !Contains(TrimBy(b, q), sep)
  {
    assert IndexOf(b, sep).None?;
    TrimByShape(b, q);
    var x, y :| 0 <= x <= y <= |b| && TrimBy(b, q) == b[x..y];
    SliceAvoids(b, x, y, sep);
  }

  /** An entry's message never contains `": "`: it is cut after the last one. */
  lemma MessageAvoidsSeparator(i: nat, part: string)
    requires PartEntry(i, part).Some?
    ensures !Contains(PartEntry(i, part).value.message, ": ")
  {
    var p := TrimBy(part, IsDoubleQuote);
    var b := RSplit(p, ": ").value.1;
    assert PartEntry(i, part).value.message == TrimBy(b, IsSingleQuote);
    RSplitTailAvoids(p, ": ");
    TrimAvoids(b, IsSingleQuote, ": ");
  }

  /** Text that neither starts nor ends with a double quote is left alone by
      `strip('"')`. */
  lemma QuoteStripKeeps(p: string)
    requires p != [] && p[0] != '"' && p[|p| - 1] != '"'
    ensures TrimBy(p, IsDoubleQuote) == p
  {
    assert SpanWhileBack(p, IsDoubleQuote) == 0;
    assert TrimEndBy(p, IsDoubleQuote) == p;
  }

  /** The last occurrence is at or after any occurrence. */
  lemma RSplitAfter(p: string, sep: string, k: nat)
    requires sep != [] && OccursAt(p, sep, k)
    ensures RSplit(p, sep).Some? && |RSplit(p, sep).value.0| >= k
  {
    ContainsAt(p, sep, k);
  }

  /** `rstrip(';')` keeps every character up to the last one that is not `;`. */
  lemma SemicolonStripKeeps(a: string, e: nat)
    requires 0 < e <= |a| && a[e - 1] != ';'
    ensures e <= |TrimEndBy(a, IsSemicolon)| && TrimEndBy(a, IsSemicolon)[..e] == a[..e]
  {
  }

  /** A part whose command side, once `;`s are stripped from its end, mentions
      `": Error"` contributes no entry, unless it is the first. */
  lemma ErrorCommandDropped(i: nat, part: string, a: string, b: string)
    requires i != 1
    requires RSplit(TrimBy(part, IsDoubleQuote), ": ") == Some((a, b))
    requires Contains(TrimEndBy(a, IsSemicolon), ": Error")
    ensures PartEntry(i, part).None?
  {
  }

  /** Where the pieces of `seg: Error: msg;` sit. */
  lemma ErrorReportLayout(seg: string, msg: string)
    ensures var part := seg + ": Error: " + msg + ";";
      |part| >= |seg| + 9 && part[..|seg| + 7] == seg + ": Error"
      && OccursAt(part, ": ", |seg| + 7) && part[|part| - 1] == ';'
      && part[0] == (if seg == [] then ':' else seg[0])
  {
    var part := seg + ": Error: " + msg + ";";
    assert part[|seg|..|seg| + 9] == ": Error: ";
  }

  /** The server reports a failing segment as `seg: Error: msg;`. Read back as
      any part but the first, such a report contributes no entry, whatever the
      segment and the message say. */
  lemma ErrorPartDropped(i: nat, seg: string, msg: string)
    requires i != 1
    ensures PartEntry(i, seg + ": Error: " + msg + ";").None?
  {
    var k := SpanWhile(seg, IsDoubleQuote);
    var tail := ": Error: " + msg + ";";
    var part := seg + ": Error: " + msg + ";";
    var bare := seg[k..] + ": Error: " + msg + ";";
    ReportSplits(seg, msg, k);
    LeadingQuotesStripped(seg, k, tail);
    assert TrimBy(part, IsDoubleQuote) == TrimBy(bare, IsDoubleQuote);
    BareErrorPartDropped(i, seg[k..], msg);
  }

  /** `seg: Error: msg;` is `seg` followed by the report's tail. */
  lemma ReportSplits(seg: string, msg: string, k: nat)
    requires k <= |seg|
    ensures seg + ": Error: " + msg + ";" == seg + (": Error: " + msg + ";")
    ensures seg[k..] + ": Error: " + msg + ";" == seg[k..] + (": Error: " + msg + ";")
  {
  }

  /** Stripping `"` from `seg + tail`, where `tail` is not empty and neither
      starts nor ends with a quote, leaves `seg` without its leading quotes. */
  lemma LeadingQuotesStripped(seg: string, k: nat, tail: string)
    requires k == SpanWhile(seg, IsDoubleQuote)
    requires tail != [] && tail[0] != '"' && tail[|tail| - 1] != '"'
    ensures TrimBy(seg + tail, IsDoubleQuote) == TrimBy(seg[k..] + tail, IsDoubleQuote)
  {
    var rest := seg[k..] + tail;
    EndUnquoted(seg, tail);
    EndUnquoted(seg[k..], tail);
    StartSpan(seg, k, tail);
    QuoteStripKeeps(rest);
  }

  /** Text ending in `tail`'s unquoted last character loses nothing at its end. */
  lemma EndUnquoted(x: string, tail: string)
    requires tail != [] && tail[|tail| - 1] != '"'
    ensures TrimEndBy(x + tail, IsDoubleQuote) == x + tail
  {
    assert (x + tail)[|x + tail| - 1] == tail[|tail| - 1];
  }

  /** The leading quotes of `seg + tail` are those of `seg` when `tail` does
      not start with one. */
  lemma StartSpan(seg: string, k: nat, tail: string)
    requires k == SpanWhile(seg, IsDoubleQuote)
    requires tail != [] && tail[0] != '"'
    ensures TrimStartBy(seg + tail, IsDoubleQuote) == seg[k..] + tail
  {
    var rest := seg[k..] + tail;
    assert seg + tail == seg[..k] + rest;
    assert rest[0] == if k < |seg| then seg[k] else tail[0];
    SpanWhileOf(seg[..k], rest, IsDoubleQuote);
  }

  /** `ErrorPartDropped` for a segment that does not start with a quote. */
  lemma BareErrorPartDropped(i: nat, seg: string, msg: string)
    requires i != 1
    requires seg == [] || seg[0] != '"'
    ensures PartEntry(i, seg + ": Error: " + msg + ";").None?
  {
    var part := seg + ": Error: " + msg + ";";
    var a, b := ErrorReportCut(seg, msg);
    ErrorHeadKept(seg, a);
    ErrorCommandDropped(i, part, a, b);
  }

  /** The last `": "` of `seg: Error: msg;` comes after `seg: Error`. */
  lemma ErrorReportCut(seg: string, msg: string) returns (a: string, b: string)
    requires seg == [] || seg[0] != '"'
    ensures RSplit(TrimBy(seg + ": Error: " + msg + ";", IsDoubleQuote), ": ") == Some((a, b))
    ensures |a| >= |seg| + 7 && a[..|seg| + 7] == seg + ": Error"
  {
    ErrorReportLayout(seg, msg);
    a, b := CutAfterHead(seg + ": Error: " + msg + ";", seg + ": Error");
  }

  /** A part that starts with `head` and has a `": "` right after it, and has
      no quote at either end, is cut at or after the end of `head`. */
  lemma CutAfterHead(part: string, head: string) returns (a: string, b: string)
    requires |part| > |head| && part[..|head|] == head && OccursAt(part, ": ", |head|)
    requires part[0] != '"' && part[|part| - 1] != '"'
    ensures RSplit(TrimBy(part, IsDoubleQuote), ": ") == Some((a, b))
    ensures |a| >= |head| && a[..|head|] == head
  {
    QuoteStripKeeps(part);
    RSplitAfter(part, ": ", |head|);
    a, b := RSplit(part, ": ").value.0, RSplit(part, ": ").value.1;
    assert part == a + ": " + b;
    assert a[..|head|] == part[..|head|];
  }

  /** Stripping `;`s from the end of a command side that starts `seg: Error`
      leaves `": Error"` in it. */
  lemma ErrorHeadKept(seg: string, a: string)
    requires |a| >= |seg| + 7 && a[..|seg| + 7] == seg + ": Error"
    ensures Contains(TrimEndBy(a, IsSemicolon), ": Error")
  {
    var head := seg + ": Error";
    var e := |seg| + 7;
    assert a[e - 1] == 'r' by {
      assert a[e - 1] == head[e - 1];
      assert head[e - 1] == "Error"[4];
    }
    SemicolonStripKeeps(a, e);
    var cmd := TrimEndBy(a, IsSemicolon);
    assert cmd[|seg|..e] == ": Error" by {
      assert cmd[..e] == head;
      assert cmd[|seg|..e] == cmd[..e][|seg|..e];
    }
    ContainsAt(cmd, ": Error", |seg|);
  }

  /** What `format_exec_put_command` is for: a client's `PUT "k" : "v"`, with
      spaces around the colon, comes out in the form the server's PUT
      recogniser accepts, and the server reads back the same pair. */
  lemma FormattedPutAccepted(w1: string, key: string, w2: string, w3: string, value: string)
    requires w1 != [] && AllSpace(w1) && Unquoted(key) && Spaces(w2) && Spaces(w3) && Unquoted(value)
    ensures Commands.PutPairs(FormatPutCommand(Loose(w1, key, w2, w3, value)))
            == Ok([Commands.Pair(key, value)])
  {
    var l := Loose(w1, key, w2, w3, value);
    FormatPutCommandLoose(w1, key, w2, w3, value, []);
    assert l + [] == l;
    assert Tight(w1, key, value) + FormatPutCommand([]) == Tight(w1, key, value);
    assert Tight(w1, key, value)
        == "PUT" + (w1 + (Commands.Quoted(key) + (":" + Commands.Quoted(value))));
    Commands.SinglePairAccepted(w1, key, value);
  }

  /** What each part contributes, the parts numbered from 1. */
  function Found(parts: seq<string>): (found: seq<Option<Entry>>)
    ensures |found| == |parts|
  {
    seq(|parts|, i requires 0 <= i < |parts| => PartEntry(i + 1, parts[i]))
  }

  /** The entries among the first `n` contributions, in order. */
  function Collected(found: seq<Option<Entry>>, n: nat): seq<Entry>
    requires n <= |found|
  {
    if n == 0 then []
    else Collected(found, n - 1) + match found[n - 1] case Some(e) => [e] case None => []
  }

  /** The entries of the first `n` parts, in order. */
  function Entries(parts: seq<string>, n: nat): seq<Entry>
    requires n <= |parts|
  {
    Collected(Found(parts), n)
  }

  /** `format_exec_response`, before the result is serialised. */
  method FormatExecResponse(reply: string) returns (entries: seq<Entry>)
    ensures entries == Entries(Parts(reply), |Parts(reply)|)
  {
    var cleaned := ReplaceAll(TrimBy(reply, IsDoubleQuote), "\\\"", "\"");
    var parts := SplitOn(cleaned, Separator);
    entries := ReadParts(parts);
  }

  /** The loop of `format_exec_response`: the parts in order, numbered from 1. */
  method ReadParts(parts: seq<string>) returns (entries: seq<Entry>)
    ensures entries == Entries(parts, |parts|)
  {
    entries := [];
    var i := 1;
    while i <= |parts|
      invariant 1 <= i <= |parts| + 1
      invariant entries == Entries(parts, i - 1)
    {
      var found := PartEntry(i, parts[i - 1]);
      EntriesStep(parts, i, found);
      if found.Some? {
        entries := entries + [found.value];
      }
      i := i + 1;
    }
  }

  lemma EntriesStep(parts: seq<string>, n: nat, found: Option<Entry>)
    requires 0 < n <= |parts| && found == PartEntry(n, parts[n - 1])
    ensures Entries(parts, n) == Entries(parts, n - 1) + (if found.Some? then [found.value] else [])
  {
    assert Found(parts)[n - 1] == found;
  }

  /** Contribution `i` (from 0), when there is one, is keyed by part number `i + 1`. */
  ghost predicate Numbered(found: seq<Option<Entry>>) {
    forall i :: 0 <= i < |found| && found[i].Some? ==> found[i].value.key == "cmd" + NatToString(i + 1)
  }

  lemma FoundNumbered(parts: seq<string>)
    ensures Numbered(Found(parts))
  {
    forall i | 0 <= i < |parts| && Found(parts)[i].Some?
      ensures Found(parts)[i].value.key == "cmd" + NatToString(i + 1)
    {
      assert Found(parts)[i] == PartEntry(i + 1, parts[i]);
    }
  }

  /** The part numbers (from 1) behind the entries of the first `n` contributions. */
  function Sources(found: seq<Option<Entry>>, n: nat): (ks: seq<nat>)
    requires n <= |found|
    ensures forall a :: 0 <= a < |ks| ==> 1 <= ks[a] <= n
    ensures forall a, b :: 0 <= a < b < |ks| ==> ks[a] < ks[b]
  {
    if n == 0 then []
    else
      var ks := Sources(found, n - 1);
      if found[n - 1].Some? then ks + [n] else ks
  }

  /** Entry `a` comes from part `Sources(found, n)[a]` and is keyed by its number. */
  lemma {:induction false} SourcesKey(found: seq<Option<Entry>>, n: nat)
    requires n <= |found| && Numbered(found)
    ensures |Sources(found, n)| == |Collected(found, n)|
    ensures forall a :: 0 <= a < |Sources(found, n)| ==>
              Collected(found, n)[a].key == "cmd" + NatToString(Sources(found, n)[a])
  {
    if n > 0 {
      SourcesKey(found, n - 1);
      var es, ks := Collected(found, n - 1), Sources(found, n - 1);
      if found[n - 1].Some? {
        assert Collected(found, n) == es + [found[n - 1].value];
        assert Sources(found, n) == ks + [n];
        KeysSnoc(es, ks, found[n - 1].value, n);
      } else {
        assert Collected(found, n) == es;
        assert Sources(found, n) == ks;
      }
    }
  }

  lemma KeysSnoc(es: seq<Entry>, ks: seq<nat>, e: Entry, n: nat)
    requires |es| == |ks| && forall a :: 0 <= a < |ks| ==> es[a].key == "cmd" + NatToString(ks[a])
    requires e.key == "cmd" + NatToString(n)
    ensures forall a :: 0 <= a < |ks| + 1 ==> (es + [e])[a].key == "cmd" + NatToString((ks + [n])[a])
  {
    forall a | 0 <= a < |ks| + 1
      ensures (es + [e])[a].key == "cmd" + NatToString((ks + [n])[a])
    {
      if a < |ks| {
        assert (es + [e])[a] == es[a] && (ks + [n])[a] == ks[a];
      }
    }
  }

  /** Different numbers give different keys. */
  lemma KeyInjective(a: nat, b: nat)
    requires "cmd" + NatToString(a) == "cmd" + NatToString(b)
    ensures a == b
  {
    var sa, sb := NatToString(a), NatToString(b);
    assert sa == ("cmd" + sa)[3..];
    assert sb == ("cmd" + sb)[3..];
    NatToStringRoundTrip(a);
    NatToStringRoundTrip(b);
  }

  /** No two entries share a key, so none overwrites another in the result
      dictionary; a dropped part leaves a gap in the numbering. */
  lemma KeysDistinct(reply: string)
    ensures var es := Entries(Parts(reply), |Parts(reply)|);
      forall a, b :: 0 <= a < b < |es| ==> es[a].key != es[b].key
  {
    var parts := Parts(reply);
    var found := Found(parts);
    var es := Entries(parts, |parts|);
    var ks := Sources(found, |parts|);
    FoundNumbered(parts);
    SourcesKey(found, |parts|);
    forall a, b | 0 <= a < b < |es|
      ensures es[a].key != es[b].key
    {
      if es[a].key == es[b].key {
        KeyInjective(ks[a], ks[b]);
      }
    }
  }

  // ---- format_exec_put_command ----------------------------------------

  /** Python's `\s` on text patterns: `str.isspace`. */
  predicate Spaces(w: string) {
    forall i :: 0 <= i < |w| ==> IsPySpace(w[i])
  }

  /** `[^"]+`: a non-empty run without a double quote. */
  predicate Unquoted(k: string) {
    k != [] && QuoteFree(k)
  }

  /** Group 1 of the pattern: `PUT`, spaces, the quoted key. */
  function Group1(w1: string, key: string): string {
    "PUT" + (w1 + ("\"" + (key + "\"")))
  }

  /** Group 2 of the pattern: the quoted value. */
  function Group2(value: string): string {
    "\"" + (value + "\"")
  }

  /** A text matched by `(PUT\s*"[^"]+")\s*:\s*("[^"]+")`, the spaces around
      the colon being `w2` and `w3`. */
  function Loose(w1: string, key: string, w2: string, w3: string, value: string): string {
    Group1(w1, key) + (w2 + (":" + (w3 + Group2(value))))
  }

  /** The replacement `\1:\2`. */
  function Tight(w1: string, key: string, value: string): string {
    Group1(w1, key) + (":" + Group2(value))
  }

  /** The states of a left-to-right matcher for the pattern. Every step is
      forced (the character after each `\s*` or `[^"]+` cannot continue it), so
      the pattern has at most one match at a position and backtracking never
      finds another. */
  datatype State =
    | ExpectP | ExpectU | ExpectT | BeforeKey | KeyStart | InKey
    | BeforeColon | AfterColon | ValueStart | InValue

  datatype Move = Go(next: State) | Accept | Reject

  function Step(st: State, c: char): Move {
    match st
    case ExpectP => if c == 'P' then Go(ExpectU) else Reject
    case ExpectU => if c == 'U' then Go(ExpectT) else Reject
    case ExpectT => if c == 'T' then Go(BeforeKey) else Reject
    case BeforeKey => if IsPySpace(c) then Go(BeforeKey) else if c == '"' then Go(KeyStart) else Reject
    case KeyStart => if c == '"' then Reject else Go(InKey)
    case InKey => if c == '"' then Go(BeforeColon) else Go(InKey)
    case BeforeColon => if IsPySpace(c) then Go(BeforeColon) else if c == ':' then Go(AfterColon) else Reject
    case AfterColon => if IsPySpace(c) then Go(AfterColon) else if c == '"' then Go(ValueStart) else Reject
    case ValueStart => if c == '"' then Reject else Go(InValue)
    case InValue => if c == '"' then Accept else Go(InValue)
  }

  /** What the replacement keeps of a character read in state `st`: all but
      the spaces on either side of the colon. */
  function Kept(st: State, c: char): string {
    if (st == BeforeColon || st == AfterColon) && IsPySpace(c) then [] else [c]
  }

  /** The matcher's verdict on a text: a match of `len` characters whose
      replacement is `out`, no match, or the text ran out in state `st` having
      produced `out` so far. */
  datatype Run = Matched(len: nat, out: string) | NoMatch | Pending(st: State, out: string)

  function Shift(f: Run, k: nat, o: string): Run {
    match f
    case Matched(n, out) => Matched(k + n, o + out)
    case NoMatch => NoMatch
    case Pending(st, out) => Pending(st, o + out)
  }

  function Match(st: State, x: string): (f: Run)
    decreases |x|
    ensures f.Matched? ==> 1 <= f.len <= |x|
  {
    if x == [] then Pending(st, [])
    else match Step(st, x[0])
      case Reject => NoMatch
      case Accept => Matched(1, [x[0]])
      case Go(next) => Shift(Match(next, x[1..]), 1, Kept(st, x[0]))
  }

  /** `format_exec_put_command`: `re.sub` scans left to right; where a match
      starts it writes the replacement and resumes after the match, elsewhere it
      copies one character. */
  function FormatPutCommand(s: string): string
    decreases |s|
  {
    if s == [] then []
    else match Match(ExpectP, s)
      case Matched(n, out) => out + FormatPutCommand(s[n..])
      case _ => [s[0]] + FormatPutCommand(s[1..])
  }

  /** What a verdict `f` on `n` characters becomes when `b` follows them: a
      pending run goes on over `b`. */
  function Continue(f: Run, n: nat, b: string): Run {
    match f
    case Pending(next, o) => Shift(Match(next, b), n, o)
    case other => other
  }

  /** Reading one character and then going on commute. */
  lemma ShiftContinue(f: Run, k: nat, o: string, n: nat, b: string)
    ensures Shift(Continue(f, n, b), k, o) == Continue(Shift(f, k, o), k + n, b)
  {
    if f.Pending? {
      var g := Match(f.st, b);
      if !g.NoMatch? {
        AppendAssoc(o, f.out, g.out);
      }
    }
  }

  /** Running over `a + b` is running over `a`, then over `b` from where `a` left off. */
  lemma {:induction false} MatchAppend(st: State, a: string, b: string)
    ensures Match(st, a + b) == Continue(Match(st, a), |a|, b)
    decreases |a|
  {
    if a == [] {
      assert a + b == b;
      var g := Match(st, b);
      if !g.NoMatch? {
        assert [] + g.out == g.out;
      }
    } else {
      assert (a + b)[0] == a[0];
      assert (a + b)[1..] == a[1..] + b;
      var mv := Step(st, a[0]);
      if mv.Go? {
        MatchAppend(mv.next, a[1..], b);
        ShiftContinue(Match(mv.next, a[1..]), 1, Kept(st, a[0]), |a| - 1, b);
      }
    }
  }

  /** A run of characters that keep the matcher in its state. */
  lemma {:induction false} MatchLoop(st: State, x: string)
    requires forall i :: 0 <= i < |x| ==> Step(st, x[i]) == Go(st)
    ensures Match(st, x) == Pending(st, if st == BeforeColon || st == AfterColon then [] else x)
    decreases |x|
  {
    if x != [] {
      MatchLoop(st, x[1..]);
      assert x == [x[0]] + x[1..];
    }
  }

  lemma MatchKey(key: string)
    requires Unquoted(key)
    ensures Match(KeyStart, key + "\"") == Pending(BeforeColon, key + "\"")
  {
    var tail := key + "\"";
    assert tail[0] == key[0];
    assert tail[1..] == key[1..] + "\"";
    assert Match(KeyStart, tail) == Shift(Match(InKey, tail[1..]), 1, [key[0]]);
    MatchLoop(InKey, key[1..]);
    MatchAppend(InKey, key[1..], "\"");
    assert [key[0]] + (key[1..] + "\"") == tail;
  }

  lemma MatchGroup1(w1: string, key: string)
    requires Spaces(w1) && Unquoted(key)
    ensures Match(ExpectP, Group1(w1, key)) == Pending(BeforeColon, Group1(w1, key))
  {
    var rest := w1 + ("\"" + (key + "\""));
    MatchPut();
    MatchAppend(ExpectP, "PUT", rest);
    MatchQuotedKey(w1, key);
  }

  /** `PUT` leads to the spaces before the key. */
  lemma MatchPut()
    ensures Match(ExpectP, "PUT") == Pending(BeforeKey, "PUT")
  {
  }

  /** Spaces, then the quoted key. */
  lemma MatchQuotedKey(w1: string, key: string)
    requires Spaces(w1) && Unquoted(key)
    ensures Match(BeforeKey, w1 + ("\"" + (key + "\""))) == Pending(BeforeColon, w1 + ("\"" + (key + "\"")))
  {
    var tail := key + "\"";
    var rest := "\"" + tail;
    MatchLoop(BeforeKey, w1);
    MatchAppend(BeforeKey, w1, rest);
    assert rest[0] == '"' && rest[1..] == tail;
    MatchKey(key);
    assert Match(BeforeKey, rest) == Shift(Match(KeyStart, tail), 1, "\"");
  }

  lemma MatchMiddle(w2: string, w3: string)
    requires Spaces(w2) && Spaces(w3)
    ensures Match(BeforeColon, w2 + (":" + w3)) == Pending(AfterColon, ":")
  {
    MatchLoop(BeforeColon, w2);
    MatchAppend(BeforeColon, w2, ":" + w3);
    assert (":" + w3)[1..] == w3;
    MatchLoop(AfterColon, w3);
  }

  lemma MatchGroup2(value: string, r: string)
    requires Unquoted(value)
    ensures Match(AfterColon, Group2(value) + r) == Matched(|Group2(value)|, Group2(value))
  {
    var x := Group2(value) + r;
    assert x[0] == '"' && x[1..] == value + ("\"" + r);
    MatchValue(value, r);
    assert Match(AfterColon, x) == Shift(Match(ValueStart, x[1..]), 1, "\"");
  }

  /** A quoted value's body and closing quote end the match. */
  lemma MatchValue(value: string, r: string)
    requires Unquoted(value)
    ensures Match(ValueStart, value + ("\"" + r)) == Matched(|value| + 1, value + "\"")
  {
    var y := value + ("\"" + r);
    assert y[0] == value[0] && y[1..] == value[1..] + ("\"" + r);
    MatchLoop(InValue, value[1..]);
    MatchAppend(InValue, value[1..], "\"" + r);
    assert Match(InValue, "\"" + r) == Matched(1, "\"");
    AppendAssoc([value[0]], value[1..], "\"");
    assert [value[0]] + value[1..] == value;
  }

  /** Every text of the pattern's shape is matched, in full, and replaced by
      the text without the spaces around the colon. */
  lemma MatchLoose(w1: string, key: string, w2: string, w3: string, value: string, r: string)
    requires Spaces(w1) && Unquoted(key) && Spaces(w2) && Spaces(w3) && Unquoted(value)
    ensures Match(ExpectP, Loose(w1, key, w2, w3, value) + r)
            == Matched(|Loose(w1, key, w2, w3, value)|, Tight(w1, key, value))
  {
    var g1, g2 := Group1(w1, key), Group2(value);
    var mid := w2 + (":" + w3);
    assert Loose(w1, key, w2, w3, value) + r == g1 + (mid + (g2 + r));
    MatchGroup1(w1, key);
    MatchAppend(ExpectP, g1, mid + (g2 + r));
    MatchMiddle(w2, w3);
    MatchAppend(BeforeColon, mid, g2 + r);
    MatchGroup2(value, r);
  }

  /** The longest run of characters that keep the matcher in `st` is read
      without leaving it, and the match goes on after it. */
  lemma PeelLoop(st: State, x: string) returns (i: nat)
    requires Match(st, x).Matched?
    ensures i < |x| && Step(st, x[i]) != Go(st)
    ensures forall j :: 0 <= j < i ==> Step(st, x[j]) == Go(st)
    ensures Match(st, x[i..]).Matched?
  {
    i := SpanWhile(x, c => Step(st, c) == Go(st));
    StayPrefix(st, x, i);
  }

  /** Characters that keep the matcher in its state change nothing about
      whether it matches. */
  lemma StayPrefix(st: State, x: string, i: nat)
    requires i <= |x| && forall j :: 0 <= j < i ==> Step(st, x[j]) == Go(st)
    ensures Match(st, x[i..]).Matched? == Match(st, x).Matched?
  {
    var w := x[..i];
    MatchLoop(st, w);
    assert x == w + x[i..];
    MatchAppend(st, w, x[i..]);
  }

  /** A match that does not end at the first character goes on after it. */
  lemma PeelGo(st: State, x: string) returns (next: State)
    requires Match(st, x).Matched? && !Step(st, x[0]).Accept?
    ensures Step(st, x[0]) == Go(next) && Match(next, x[1..]).Matched?
  {
    next := Step(st, x[0]).next;
  }

  /** `PUT` opens every match. */
  lemma PeelPut(x: string)
    requires Match(ExpectP, x).Matched?
    ensures |x| >= 3 && x[..3] == "PUT" && Match(BeforeKey, x[3..]).Matched?
  {
    var u := PeelGo(ExpectP, x);
    var t := PeelGo(ExpectU, x[1..]);
    var k := PeelGo(ExpectT, x[1..][1..]);
    assert u == ExpectU && t == ExpectT && k == BeforeKey;
    assert x[1..][1..][1..] == x[3..];
    assert x[0] == 'P' && x[1] == 'U' && x[2] == 'T';
    assert x[..3] == ['P', 'U', 'T'];
  }

  /** A `\s*` of the pattern and the character that ends it. */
  lemma PeelSpaces(st: State, x: string) returns (w: string, d: char, rest: string)
    requires st == BeforeKey || st == BeforeColon || st == AfterColon
    requires Match(st, x).Matched?
    ensures Spaces(w) && x == w + ([d] + rest)
    ensures d == (if st == BeforeColon then ':' else '"')
    ensures Match(Step(st, d).next, rest).Matched?
  {
    var i := PeelLoop(st, x);
    w, d, rest := x[..i], x[i], x[i + 1..];
    assert x == w + ([d] + rest);
  }

  /** A `"[^"]+"` of the pattern, from just after its opening quote. */
  lemma PeelQuoted(st: State, x: string) returns (body: string, rest: string)
    requires st == KeyStart || st == ValueStart
    requires Match(st, x).Matched?
    ensures Unquoted(body) && x == body + ("\"" + rest)
    ensures st == KeyStart ==> Match(BeforeColon, rest).Matched?
  {
    var inner := Step(st, x[0]).next;
    var i := PeelLoop(inner, x[1..]);
    body, rest := x[..i + 1], x[i + 2..];
    assert x[1..][i] == '"';
    assert x == body + ("\"" + rest);
  }

  lemma LooseAssembled(x: string, w1: string, key: string, w2: string, w3: string, value: string,
                       r: string, z: string, u: string, u2: string, v0: string)
    requires |x| >= 3 && x[..3] == "PUT" && x[3..] == w1 + ("\"" + z)
    requires z == key + ("\"" + u) && u == w2 + (":" + u2)
    requires u2 == w3 + ("\"" + v0) && v0 == value + ("\"" + r)
    ensures x == Loose(w1, key, w2, w3, value) + r
  {
    var g1, g2 := Group1(w1, key), Group2(value);
    var mid := w2 + (":" + (w3 + g2));
    assert g2 + r == "\"" + v0;
    assert u2 == w3 + (g2 + r);
    assert u == mid + r;
    assert x == x[..3] + x[3..];
    assert x == g1 + u;
    assert Loose(w1, key, w2, w3, value) + r == g1 + (mid + r);
  }

  /** Whatever the matcher matches has the pattern's shape, and what it
      writes instead is that text without the spaces around the colon. */
  lemma MatchSound(x: string) returns (w1: string, key: string, w2: string, w3: string, value: string)
    requires Match(ExpectP, x).Matched?
    ensures Spaces(w1) && Unquoted(key) && Spaces(w2) && Spaces(w3) && Unquoted(value)
    ensures x[..Match(ExpectP, x).len] == Loose(w1, key, w2, w3, value)
    ensures Match(ExpectP, x).out == Tight(w1, key, value)
  {
    PeelPut(x);
    var y := x[3..];
    var d1, z, d2, u, d3, u2, v0, r;
    w1, d1, z := PeelSpaces(BeforeKey, y);
    key, u := PeelQuoted(KeyStart, z);
    w2, d2, u2 := PeelSpaces(BeforeColon, u);
    w3, d3, v0 := PeelSpaces(AfterColon, u2);
    value, r := PeelQuoted(ValueStart, v0);
    assert [d1] == "\"" && [d2] == ":" && [d3] == "\"";
    LooseAssembled(x, w1, key, w2, w3, value, r, z, u, u2, v0);
    MatchLoose(w1, key, w2, w3, value, r);
  }

  /** Two verdicts of the same kind, and in the same state when pending. */
  predicate SameVerdict(f: Run, g: Run) {
    f.Matched? == g.Matched? && f.NoMatch? == g.NoMatch? && (f.Pending? ==> g.Pending? && f.st == g.st)
  }

  /** Inside a quoted key or value, anything but a quote keeps the matcher there. */
  lemma MatchInside(st: State, q: string)
    requires st == KeyStart || st == InKey || st == ValueStart || st == InValue
    requires Unquoted(q)
    ensures Match(st, q).Pending?
    ensures Match(st, q).st == if st == KeyStart || st == InKey then InKey else InValue
  {
    var inner := if st == KeyStart || st == InKey then InKey else InValue;
    assert Step(st, q[0]) == Go(inner);
    MatchLoop(inner, q[1..]);
  }

  /** Spaces around the colon, then the value's opening quote, lead the matcher
      from any state to the same verdict as the colon and the quote alone. */
  lemma MiddleVerdict(st: State, w2: string, w3: string)
    requires Spaces(w2) && Spaces(w3)
    ensures SameVerdict(Match(st, w2 + (":" + (w3 + "\""))), Match(st, ":\""))
  {
    if st == KeyStart || st == InKey || st == ValueStart || st == InValue {
      MiddleInside(st, w2, w3);
    } else if st == BeforeColon {
      MiddleColon(w2, w3);
    } else {
      MiddleElsewhere(st, w2, w3);
    }
  }

  /** Inside a quoted part the middle is read as any other characters. */
  lemma MiddleInside(st: State, w2: string, w3: string)
    requires st == KeyStart || st == InKey || st == ValueStart || st == InValue
    requires Spaces(w2) && Spaces(w3)
    ensures SameVerdict(Match(st, w2 + (":" + (w3 + "\""))), Match(st, ":\""))
  {
    var q := w2 + (":" + w3);
    assert w2 + (":" + (w3 + "\"")) == q + "\"";
    assert ":\"" == ":" + "\"";
    assert q[|w2|] == ':';
    MatchInside(st, q);
    MatchInside(st, ":");
    MatchAppend(st, q, "\"");
    MatchAppend(st, ":", "\"");
  }

  /** After a key, the spaces around the colon are skipped. */
  lemma MiddleColon(w2: string, w3: string)
    requires Spaces(w2) && Spaces(w3)
    ensures SameVerdict(Match(BeforeColon, w2 + (":" + (w3 + "\""))), Match(BeforeColon, ":\""))
  {
    var q := w2 + (":" + w3);
    assert w2 + (":" + (w3 + "\"")) == q + "\"";
    assert ":\"" == ([] + (":" + [])) + "\"";
    MatchMiddle(w2, w3);
    MatchMiddle([], []);
    MatchAppend(BeforeColon, q, "\"");
    MatchAppend(BeforeColon, ":", "\"");
  }

  /** Anywhere else a colon, after any spaces, ends the match attempt. */
  lemma MiddleElsewhere(st: State, w2: string, w3: string)
    requires !(st == KeyStart || st == InKey || st == ValueStart || st == InValue || st == BeforeColon)
    requires Spaces(w2) && Spaces(w3)
    ensures Match(st, w2 + (":" + (w3 + "\""))).NoMatch? && Match(st, ":\"").NoMatch?
  {
    var m := w2 + (":" + (w3 + "\""));
    if st == BeforeKey || st == AfterColon {
      MatchLoop(st, w2);
      MatchAppend(st, w2, ":" + (w3 + "\""));
    } else {
      assert m[0] == if w2 == [] then ':' else w2[0];
    }
  }

  /** Texts with the same verdict, followed by texts that get the same
      verdicts from every state, get the same verdict. */
  lemma VerdictAfter(st: State, p: string, q: string, x: string, y: string)
    requires SameVerdict(Match(st, p), Match(st, q))
    requires forall s: State :: Match(s, x).Matched? == Match(s, y).Matched?
    ensures Match(st, p + x).Matched? == Match(st, q + y).Matched?
  {
    MatchAppend(st, p, x);
    MatchAppend(st, q, y);
  }

  /** From any state, the verdict on a match's text is that on its
      replacement, when what follows each gets the same verdicts. */
  lemma TightVerdict(st: State, w1: string, key: string, w2: string, w3: string, value: string,
                     x: string, y: string)
    requires Spaces(w2) && Spaces(w3)
    requires forall s: State :: Match(s, x).Matched? == Match(s, y).Matched?
    ensures Match(st, Tight(w1, key, value) + x).Matched?
            == Match(st, Loose(w1, key, w2, w3, value) + y).Matched?
  {
    var g1, mt, mn := Group1(w1, key), w2 + (":" + (w3 + "\"")), ":\"";
    var vq := value + "\"";
    forall s: State
      ensures Match(s, vq + x).Matched? == Match(s, vq + y).Matched?
    {
      VerdictAfter(s, vq, vq, x, y);
    }
    forall s: State
      ensures Match(s, mn + (vq + x)).Matched? == Match(s, mt + (vq + y)).Matched?
    {
      MiddleVerdict(s, w2, w3);
      VerdictAfter(s, mt, mn, vq + y, vq + x);
    }
    VerdictAfter(st, g1, g1, mn + (vq + x), mt + (vq + y));
    TightLayout(w1, key, w2, w3, value, x, y);
  }

  /** The match's text and its replacement, cut at the same places. */
  lemma TightLayout(w1: string, key: string, w2: string, w3: string, value: string,
                    x: string, y: string)
    ensures Tight(w1, key, value) + x == Group1(w1, key) + (":\"" + ((value + "\"") + x))
    ensures Loose(w1, key, w2, w3, value) + y
            == Group1(w1, key) + ((w2 + (":" + (w3 + "\""))) + ((value + "\"") + y))
  {
  }

  /** Formatting never changes whether the pattern, run from any state, finds a
      match in a text: the spaces it removes sit where the pattern allows spaces,
      or inside a quoted part. */
  lemma {:induction false} FormatKeepsVerdict(st: State, t: string)
    ensures Match(st, FormatPutCommand(t)).Matched? == Match(st, t).Matched?
    decreases |t|
  {
    if t != [] {
      var f := Match(ExpectP, t);
      if f.Matched? {
        var w1, key, w2, w3, value := MatchSound(t);
        var r := t[f.len..];
        assert t == t[..f.len] + r;
        forall s: State
          ensures Match(s, FormatPutCommand(r)).Matched? == Match(s, r).Matched?
        {
          FormatKeepsVerdict(s, r);
        }
        TightVerdict(st, w1, key, w2, w3, value, FormatPutCommand(r), r);
      } else {
        var ft := FormatPutCommand(t);
        assert ft == [t[0]] + FormatPutCommand(t[1..]);
        assert ft[0] == t[0] && ft[1..] == FormatPutCommand(t[1..]);
        var mv := Step(st, t[0]);
        if mv.Go? {
          FormatKeepsVerdict(mv.next, t[1..]);
        }
      }
    }
  }

  /** `format_exec_put_command` is idempotent: what it writes contains no
      match that still has spaces around its colon. */
  lemma {:induction false} FormatPutCommandIdempotent(s: string)
    ensures FormatPutCommand(FormatPutCommand(s)) == FormatPutCommand(s)
    decreases |s|
  {
    if s != [] {
      var f := Match(ExpectP, s);
      if f.Matched? {
        FormatPutCommandIdempotent(s[f.len..]);
        IdempotentAfterMatch(s);
      } else {
        FormatPutCommandIdempotent(s[1..]);
        IdempotentAfterCopy(s);
      }
    }
  }

  /** Where a match starts, its replacement is matched again and replaced by
      itself. */
  lemma IdempotentAfterMatch(s: string)
    requires Match(ExpectP, s).Matched?
    requires var r := s[Match(ExpectP, s).len..];
      FormatPutCommand(FormatPutCommand(r)) == FormatPutCommand(r)
    ensures FormatPutCommand(FormatPutCommand(s)) == FormatPutCommand(s)
  {
    var w1, key, w2, w3, value := MatchSound(s);
    FormatAtMatch(s);
    TightRematched(w1, key, value, FormatPutCommand(s[Match(ExpectP, s).len..]));
  }

  /** A replacement, followed by anything, is matched again and written as is. */
  lemma TightRematched(w1: string, key: string, value: string, x: string)
    requires Spaces(w1) && Unquoted(key) && Unquoted(value)
    ensures FormatPutCommand(Tight(w1, key, value) + x) == Tight(w1, key, value) + FormatPutCommand(x)
  {
    var tight := Tight(w1, key, value);
    assert tight == Loose(w1, key, [], [], value);
    MatchLoose(w1, key, [], [], value, x);
    FormatAtMatch(tight + x);
    assert (tight + x)[|tight|..] == x;
  }

  /** Where a match starts, formatting writes its replacement and goes on
      after it. */
  lemma FormatAtMatch(x: string)
    requires Match(ExpectP, x).Matched?
    ensures FormatPutCommand(x) == Match(ExpectP, x).out + FormatPutCommand(x[Match(ExpectP, x).len..])
  {
  }

  /** Where no match starts, the copied character starts none after
      formatting either. */
  lemma IdempotentAfterCopy(s: string)
    requires s != [] && !Match(ExpectP, s).Matched?
    requires FormatPutCommand(FormatPutCommand(s[1..])) == FormatPutCommand(s[1..])
    ensures FormatPutCommand(FormatPutCommand(s)) == FormatPutCommand(s)
  {
    var t := s[1..];
    var fs := FormatPutCommand(s);
    assert fs == [s[0]] + FormatPutCommand(t);
    assert fs[0] == s[0] && fs[1..] == FormatPutCommand(t);
    var mv := Step(ExpectP, s[0]);
    if mv.Go? {
      FormatKeepsVerdict(mv.next, t);
    }
    assert !Match(ExpectP, fs).Matched?;
  }

  /** The text with every space removed. */
  function NonSpace(s: string): string
    decreases |s|
  {
    if s == [] then [] else (if IsPySpace(s[0]) then [] else [s[0]]) + NonSpace(s[1..])
  }

  lemma {:induction false} NonSpaceAppend(a: string, b: string)
    ensures NonSpace(a + b) == NonSpace(a) + NonSpace(b)
    decreases |a|
  {
    if a == [] {
      assert a + b == b;
    } else {
      assert (a + b)[0] == a[0];
      assert (a + b)[1..] == a[1..] + b;
      NonSpaceAppend(a[1..], b);
    }
  }

  lemma {:induction false} NonSpaceOfSpaces(w: string)
    requires Spaces(w)
    ensures NonSpace(w) == []
    decreases |w|
  {
    if w != [] {
      NonSpaceOfSpaces(w[1..]);
    }
  }

  lemma NonSpaceTight(w1: string, key: string, w2: string, w3: string, value: string)
    requires Spaces(w2) && Spaces(w3)
    ensures NonSpace(Tight(w1, key, value)) == NonSpace(Loose(w1, key, w2, w3, value))
  {
    var g1, g2 := Group1(w1, key), Group2(value);
    NonSpaceOfSpaces(w2);
    NonSpaceOfSpaces(w3);
    NonSpaceAppend(w3, g2);
    NonSpaceAppend(":", w3 + g2);
    NonSpaceAppend(w2, ":" + (w3 + g2));
    NonSpaceAppend(":", g2);
    NonSpaceAppend(g1, w2 + (":" + (w3 + g2)));
    NonSpaceAppend(g1, ":" + g2);
  }

  /** Formatting removes spaces and nothing else: every other character stays,
      in order. */
  lemma {:induction false} FormatPutCommandKeepsText(s: string)
    ensures NonSpace(FormatPutCommand(s)) == NonSpace(s)
    decreases |s|
  {
    if s != [] {
      var f := Match(ExpectP, s);
      if f.Matched? {
        var w1, key, w2, w3, value := MatchSound(s);
        var r := s[f.len..];
        FormatPutCommandKeepsText(r);
        assert s == Loose(w1, key, w2, w3, value) + r;
        NonSpaceTight(w1, key, w2, w3, value);
        NonSpaceAppend(Loose(w1, key, w2, w3, value), r);
        NonSpaceAppend(Tight(w1, key, value), FormatPutCommand(r));
      } else {
        FormatPutCommandKeepsText(s[1..]);
        NonSpaceAppend([s[0]], FormatPutCommand(s[1..]));
        NonSpaceAppend([s[0]], s[1..]);
        assert s == [s[0]] + s[1..];
      }
    }
  }

  /** A match is replaced by its text without the spaces around the colon,
      and formatting goes on after it. */
  lemma FormatPutCommandLoose(w1: string, key: string, w2: string, w3: string, value: string, r: string)
    requires Spaces(w1) && Unquoted(key) && Spaces(w2) && Spaces(w3) && Unquoted(value)
    ensures FormatPutCommand(Loose(w1, key, w2, w3, value) + r)
            == Tight(w1, key, value) + FormatPutCommand(r)
  {
    var l := Loose(w1, key, w2, w3, value);
    MatchLoose(w1, key, w2, w3, value, r);
    assert (l + r)[|l|..] == r;
  }
}
