/** The six command recognisers of `src/utils.rs` (copied unchanged into
    `src/shell.rs`). Four are fixed regular expressions; each grammar is encoded
    directly as a sequence of tokens. The `regex` crate searches for the
    leftmost match, so a pattern is tried at every start position in turn, and
    since every pattern ends with `\s*$` a match always runs to the end of the
    command. */
module Commands {
  import opened Wrappers
  import opened Text

  /** A key and value as `parse_put_command` returns them. */
  datatype Pair = Pair(key: string, value: string)

  predicate NotQuote(c: char) {
    c != '"'
  }

  /** What `[^"]+` accepts: at least one character, none of them a double quote. */
  predicate IsArg(k: string) {
    k != [] && QuoteFree(k)
  }

  function Quoted(k: string): string {
    "\"" + k + "\""
  }

  lemma SpaceNotQuote(w: string)
    requires AllSpace(w)
    ensures QuoteFree(w)
  {
  }

  /** `"([^"]+)"` at the start of `t`: the capture, and what follows the closing quote. */
  function MatchQuoted(t: string): (r: Option<(string, string)>)
    ensures r.Some? ==> IsArg(r.value.0) && t == Quoted(r.value.0) + r.value.1
  {
    if t == [] || t[0] != '"' then None
    else
      var n := SpanWhile(t[1..], NotQuote);
      if n == 0 || n + 1 == |t| then None
      else
        assert t == Quoted(t[1..n + 1]) + t[n + 2..];
        Some((t[1..n + 1], t[n + 2..]))
  }

  lemma MatchQuotedOf(k: string, rest: string)
    requires IsArg(k)
    ensures MatchQuoted(Quoted(k) + rest) == Some((k, rest))
  {
    var t := Quoted(k) + rest;
    assert t[1..] == k + ("\"" + rest);
    SpanWhileOf(k, "\"" + rest, NotQuote);
    assert t[1..|k| + 1] == k;
    assert t[|k| + 2..] == rest;
  }

  /** One element of a fixed grammar: a literal, `\s+`, `\s*`, or a quoted capture. */
  datatype Token = Lit(text: string) | Blanks | OptBlanks | Arg

  predicate IsBlanks(tok: Token) {
    tok.Blanks? || tok.OptBlanks?
  }

  /** The piece `p` is a possible match of `tok` (for `Arg`, the capture inside the quotes). */
  predicate FitsToken(tok: Token, p: string) {
    match tok
    case Lit(l) => p == l
    case Blanks => p != [] && AllSpace(p)
    case OptBlanks => AllSpace(p)
    case Arg => IsArg(p)
  }

  predicate Fits(pat: seq<Token>, ps: seq<string>) {
    |ps| == |pat| && forall i :: 0 <= i < |pat| ==> FitsToken(pat[i], ps[i])
  }

  function Piece(tok: Token, p: string): string {
    if tok.Arg? then Quoted(p) else p
  }

  /** The text matched when each token matches its piece. */
  function Render(pat: seq<Token>, ps: seq<string>): string
    requires |ps| == |pat|
  {
    if pat == [] then [] else Piece(pat[0], ps[0]) + Render(pat[1..], ps[1..])
  }

  /** Literals are non-empty and start with a non-space, and every whitespace
      token is followed by a literal or a capture: then the greedy `\s` runs never
      have a choice to make, and a grammar matches in at most one way. */
  predicate WellFormed(pat: seq<Token>) {
    pat == [] ||
    ((pat[0].Lit? ==> pat[0].text != [] && !IsSpace(pat[0].text[0]))
     && (IsBlanks(pat[0]) ==> |pat| > 1 && !IsBlanks(pat[1]))
     && WellFormed(pat[1..]))
  }

  /** One token, greedily, at the start of `t`. */
  function MatchToken(tok: Token, t: string): (r: Option<(string, string)>)
    ensures r.Some? ==> FitsToken(tok, r.value.0) && t == Piece(tok, r.value.0) + r.value.1
  {
    match tok
    case Lit(l) => if |l| <= |t| && t[..|l|] == l then Some((l, t[|l|..])) else None
    case Arg => MatchQuoted(t)
    case _ =>
      var n := SpanWhile(t, IsSpace);
      if tok.Blanks? && n == 0 then None
      else
        assert t == t[..n] + t[n..];
        Some((t[..n], t[n..]))
  }

  lemma FitsCons(pat: seq<Token>, p: string, ps: seq<string>, rest: string)
    requires pat != [] && FitsToken(pat[0], p) && Fits(pat[1..], ps)
    ensures Fits(pat, [p] + ps)
    ensures Render(pat, [p] + ps) + rest == Piece(pat[0], p) + (Render(pat[1..], ps) + rest)
  {
    assert ([p] + ps)[1..] == ps;
    forall i | 0 <= i < |pat|
      ensures FitsToken(pat[i], ([p] + ps)[i])
    {
      if i > 0 {
        assert pat[i] == pat[1..][i - 1];
      }
    }
  }

  lemma FitsTail(pat: seq<Token>, ps: seq<string>)
    requires pat != [] && Fits(pat, ps)
    ensures FitsToken(pat[0], ps[0]) && Fits(pat[1..], ps[1..])
  {
    forall i | 0 <= i < |pat| - 1
      ensures FitsToken(pat[1..][i], ps[1..][i])
    {
      assert pat[1..][i] == pat[i + 1] && ps[1..][i] == ps[i + 1];
    }
  }

  /** The grammar `pat` anchored at the start of `t`: the pieces, and the rest of `t`. */
  function MatchTokens(pat: seq<Token>, t: string): (r: Option<(seq<string>, string)>)
    ensures r.Some? ==> Fits(pat, r.value.0) && t == Render(pat, r.value.0) + r.value.1
  {
    if pat == [] then Some(([], t))
    else
      match MatchToken(pat[0], t)
      case None => None
      case Some((p, rest)) =>
        match MatchTokens(pat[1..], rest)
        case None => None
        case Some((ps, r)) =>
          FitsCons(pat, p, ps, r);
          Some(([p] + ps, r))
  }

  lemma MatchTokenOf(tok: Token, p: string, rest: string)
    requires FitsToken(tok, p)
    requires tok.Lit? ==> tok.text != []
    requires IsBlanks(tok) ==> rest == [] || !IsSpace(rest[0])
    ensures MatchToken(tok, Piece(tok, p) + rest) == Some((p, rest))
  {
    var t := Piece(tok, p) + rest;
    match tok
    case Lit(l) =>
      assert t[..|l|] == l && t[|l|..] == rest;
    case Arg =>
      MatchQuotedOf(p, rest);
    case _ =>
      SpanWhileOf(p, rest, IsSpace);
      assert t[..|p|] == p && t[|p|..] == rest;
  }

  /** A rendering of a well-formed grammar does not start with whitespace. */
  lemma RenderStart(pat: seq<Token>, ps: seq<string>, rest: string)
    requires WellFormed(pat) && Fits(pat, ps) && pat != [] && !IsBlanks(pat[0])
    ensures Render(pat, ps) + rest != [] && !IsSpace((Render(pat, ps) + rest)[0])
  {
    var first := Piece(pat[0], ps[0]);
    assert FitsToken(pat[0], ps[0]);
    assert first != [] && !IsSpace(first[0]);
    assert (Render(pat, ps) + rest)[0] == first[0];
  }

  /** One step of `MatchTokens`: the first token, then the rest of the grammar. */
  lemma MatchTokensStep(pat: seq<Token>, t: string, p: string, tail: string, ps: seq<string>, rest: string)
    requires pat != [] && MatchToken(pat[0], t) == Some((p, tail))
    requires MatchTokens(pat[1..], tail) == Some((ps, rest))
    ensures MatchTokens(pat, t) == Some(([p] + ps, rest))
  {
  }

  lemma RenderFirst(pat: seq<Token>, ps: seq<string>, rest: string)
    requires pat != [] && |ps| == |pat|
    ensures Render(pat, ps) + rest == Piece(pat[0], ps[0]) + (Render(pat[1..], ps[1..]) + rest)
    ensures [ps[0]] + ps[1..] == ps
  {
    var first := Piece(pat[0], ps[0]);
    var others := Render(pat[1..], ps[1..]);
    assert Render(pat, ps) == first + others;
    AppendAssoc(first, others, rest);
  }

  /** Completeness: a well-formed grammar matches its own rendering, whatever follows. */
  lemma {:induction false} MatchTokensComplete(pat: seq<Token>, ps: seq<string>, rest: string)
    requires WellFormed(pat) && Fits(pat, ps)
    ensures MatchTokens(pat, Render(pat, ps) + rest) == Some((ps, rest))
  {
    if pat == [] {
      assert Render(pat, ps) + rest == rest;
    } else {
      var tail := Render(pat[1..], ps[1..]) + rest;
      FitsTail(pat, ps);
      if IsBlanks(pat[0]) {
        RenderStart(pat[1..], ps[1..], rest);
      }
      MatchTokenOf(pat[0], ps[0], tail);
      RenderFirst(pat, ps, rest);
      MatchTokensComplete(pat[1..], ps[1..], rest);
      MatchTokensStep(pat, Render(pat, ps) + rest, ps[0], tail, ps[1..], rest);
    }
  }

  /** Leftmost search: the first start position `q >= p` at which `m` accepts the
      rest of `s`, and what it returned there. */
  function FirstMatch<T>(s: string, p: nat, m: string -> Option<T>): (r: Option<(nat, T)>)
    requires p <= |s|
    decreases |s| - p
    ensures r.Some? ==> (p <= r.value.0 <= |s| && m(s[r.value.0..]) == Some(r.value.1)
                         && forall j :: p <= j < r.value.0 ==> m(s[j..]).None?)
    ensures r.None? ==> forall j :: p <= j <= |s| ==> m(s[j..]).None?
  {
    match m(s[p..])
    case Some(v) => Some((p, v))
    case None => if p == |s| then None else FirstMatch(s, p + 1, m)
  }

  // ---------------------------------------------------------------------------
  // GET, DEL and IDENTIFIER SET: one capture, last in the grammar

  const GetPattern: seq<Token> := WherePattern("GET")
  const DeletePattern: seq<Token> := WherePattern("DEL")
  const IdentifierSetPattern: seq<Token> :=
    [Lit("IDENTIFIER"), Blanks, Lit("SET"), Blanks, Arg]

  /** A grammar whose only capture is its last token. */
  predicate Keyed(pat: seq<Token>) {
    WellFormed(pat) && pat != [] && pat[|pat| - 1] == Arg
  }

  lemma WherePatternKeyed(verb: string)
    requires verb != [] && !IsSpace(verb[0])
    ensures Keyed(WherePattern(verb))
  {
    var pat := WherePattern(verb);
    assert WellFormed(pat[8..]);
    assert WellFormed(pat[7..]);
    assert WellFormed(pat[6..]);
    assert WellFormed(pat[5..]);
    assert WellFormed(pat[4..]);
    assert WellFormed(pat[3..]);
    assert WellFormed(pat[2..]);
    assert WellFormed(pat[1..]);
  }

  lemma IdentifierSetPatternKeyed()
    ensures Keyed(IdentifierSetPattern)
  {
    var pat := IdentifierSetPattern;
    assert WellFormed(pat[4..]);
    assert WellFormed(pat[3..]);
    assert WellFormed(pat[2..]);
    assert WellFormed(pat[1..]);
  }

  lemma KeyedPatterns()
    ensures Keyed(GetPattern) && Keyed(DeletePattern) && Keyed(IdentifierSetPattern)
  {
    WherePatternKeyed("GET");
    WherePatternKeyed("DEL");
    IdentifierSetPatternKeyed();
  }

  /** `pat` then `\s*$`, anchored at the start of `t`. */
  function MatchKeyed(pat: seq<Token>, t: string): (r: Option<seq<string>>)
    ensures r.Some? ==> Fits(pat, r.value) && |Render(pat, r.value)| <= |t|
                        && t[..|Render(pat, r.value)|] == Render(pat, r.value)
                        && AllSpace(t[|Render(pat, r.value)|..])
  {
    match MatchTokens(pat, t)
    case None => None
    case Some((ps, rest)) =>
      if AllSpace(rest) then
        assert t[|Render(pat, ps)|..] == rest;
        Some(ps)
      else None
  }

  function KeyedMatcher(pat: seq<Token>): string -> Option<seq<string>> {
    t => MatchKeyed(pat, t)
  }

  /** A decomposition's grammar part is matched at the end of its prefix. */
  lemma KeyedMatchesAt(command: string, pat: seq<Token>, pre: string, ps: seq<string>, w: string)
    requires Keyed(pat) && KeyedAt(command, pat, pre, ps, w)
    ensures KeyedMatcher(pat)(command[|pre|..]).Some?
  {
    var r := Render(pat, ps);
    assert command[|pre|..] == r + w by {
      assert command == pre + (r + w);
    }
    assert MatchKeyed(pat, r + w) == Some(ps) by {
      MatchTokensComplete(pat, ps, w);
    }
  }

  /** The leftmost match of `pat\s*$` in `command`, and its capture. */
  function ParseKeyed(command: string, pat: seq<Token>, err: string): (r: Result<string>)
    requires Keyed(pat)
    ensures r.Ok? ==> IsArg(r.value)
    ensures r.Err? ==> r.msg == err
  {
    match FirstMatch(command, 0, KeyedMatcher(pat))
    case None => Err(err)
    case Some((_, ps)) =>
      assert FitsToken(pat[|pat| - 1], ps[|ps| - 1]);
      Ok(ps[|ps| - 1])
  }

  /** `command` is `pre`, then `pat` matching the pieces `ps`, then whitespace `w`. */
  predicate KeyedAt(command: string, pat: seq<Token>, pre: string, ps: seq<string>, w: string) {
    Fits(pat, ps) && AllSpace(w) && command == pre + Render(pat, ps) + w
  }

  lemma Split3(s: string, i: nat, j: nat)
    requires i <= j <= |s|
    ensures s == s[..i] + s[i..j] + s[j..]
  {
  }

  /** The leftmost match found in `command` at `q`, as a decomposition. */
  lemma KeyedFound(command: string, pat: seq<Token>, q: nat, ps: seq<string>)
    requires q <= |command| && MatchKeyed(pat, command[q..]) == Some(ps)
    ensures KeyedAt(command, pat, command[..q], ps, command[q + |Render(pat, ps)|..])
  {
    var n := |Render(pat, ps)|;
    assert command[q..][..n] == command[q..q + n];
    assert command[q..][n..] == command[q + n..];
    Split3(command, q, q + n);
  }

  /** The text between the last two double quotes, when only non-quotes follow the last. */
  function LastQuoted(s: string): Option<string> {
    var w := SpanWhileBack(s, NotQuote);
    if w == |s| then None else QuotedEnd(s[..|s| - w - 1])
  }

  /** The non-quotes at the end of `t`, when a quote comes before them. */
  function QuotedEnd(t: string): Option<string> {
    var k := SpanWhileBack(t, NotQuote);
    if k == |t| then None else Some(t[|t| - k..])
  }

  lemma LastQuotedOf(a: string, k: string, w: string)
    requires IsArg(k) && QuoteFree(w)
    ensures LastQuoted(a + Quoted(k) + w) == Some(k)
  {
    var s := a + Quoted(k) + w;
    var front := (a + "\"") + k;
    assert s == (front + "\"") + w;
    SpanWhileBackOf(front + "\"", w, NotQuote);
    assert s[..|s| - |w| - 1] == front;
    SpanWhileBackOf(a + "\"", k, NotQuote);
    assert front[|front| - |k|..] == k;
  }

  /** A rendering of a grammar ending in a capture ends with that capture in quotes. */
  lemma {:induction false} RenderKeyedEnd(pat: seq<Token>, ps: seq<string>)
    requires |pat| == |ps| && pat != [] && pat[|pat| - 1] == Arg
    ensures Render(pat, ps) == Render(pat[..|pat| - 1], ps[..|ps| - 1]) + Quoted(ps[|ps| - 1])
  {
    if |pat| > 1 {
      RenderKeyedEnd(pat[1..], ps[1..]);
      assert pat[1..][..|pat| - 2] == pat[..|pat| - 1][1..];
      assert ps[1..][..|ps| - 2] == ps[..|ps| - 1][1..];
    }
  }

  /** Every way of reading `command` as a keyed grammar yields the same capture:
      it is the text between the last two quotes. */
  lemma KeyedCaptureUnique(command: string, pat: seq<Token>, pre: string, ps: seq<string>, w: string)
    requires Keyed(pat) && KeyedAt(command, pat, pre, ps, w)
    ensures LastQuoted(command) == Some(ps[|ps| - 1])
  {
    RenderKeyedEnd(pat, ps);
    var front := Render(pat[..|pat| - 1], ps[..|ps| - 1]);
    assert FitsToken(pat[|pat| - 1], ps[|ps| - 1]);
    SpaceNotQuote(w);
    assert command == (pre + front) + Quoted(ps[|ps| - 1]) + w;
    LastQuotedOf(pre + front, ps[|ps| - 1], w);
  }

  /** The parser accepts `command` with capture `k` exactly when `command` is
      some prefix, a match of the grammar capturing `k`, and trailing whitespace:
      the search is unanchored at the start and anchored at the end. */
  lemma ParseKeyedIff(command: string, pat: seq<Token>, err: string, k: string)
    requires Keyed(pat)
    ensures ParseKeyed(command, pat, err) == Ok(k)
            <==> exists pre, ps, w :: KeyedAt(command, pat, pre, ps, w) && ps[|ps| - 1] == k
  {
    if ParseKeyed(command, pat, err) == Ok(k) {
      var pre, ps, w := KeyedSound(command, pat, err);
    }
    if exists pre, ps, w :: KeyedAt(command, pat, pre, ps, w) && ps[|ps| - 1] == k {
      var pre, ps, w :| KeyedAt(command, pat, pre, ps, w) && ps[|ps| - 1] == k;
      KeyedExact(command, pat, err, pre, ps, w);
    }
  }

  /** What the parser accepts is read off a decomposition: the leftmost match. */
  lemma KeyedSound(command: string, pat: seq<Token>, err: string) returns (pre: string, ps: seq<string>, w: string)
    requires Keyed(pat) && ParseKeyed(command, pat, err).Ok?
    ensures KeyedAt(command, pat, pre, ps, w) && ps[|ps| - 1] == ParseKeyed(command, pat, err).value
  {
    var (q, ps') := FirstMatch(command, 0, KeyedMatcher(pat)).value;
    assert MatchKeyed(pat, command[q..]) == Some(ps') by {
      assert KeyedMatcher(pat)(command[q..]) == Some(ps');
    }
    KeyedFound(command, pat, q, ps');
    pre, ps, w := command[..q], ps', command[q + |Render(pat, ps')|..];
  }

  lemma KeyedExact(command: string, pat: seq<Token>, err: string, pre: string, ps: seq<string>, w: string)
    requires Keyed(pat) && KeyedAt(command, pat, pre, ps, w)
    ensures ParseKeyed(command, pat, err) == Ok(ps[|ps| - 1])
  {
    var m := KeyedMatcher(pat);
    KeyedMatchesAt(command, pat, pre, ps, w);
    var found := FirstMatch(command, 0, m);
    assert found.Some? by {
      assert |pre| <= |command| && m(command[|pre|..]).Some?;
    }
    var (q, ps') := found.value;
    assert MatchKeyed(pat, command[q..]) == Some(ps') by {
      assert m(command[q..]) == Some(ps');
    }
    KeyedFound(command, pat, q, ps');
    KeyedCaptureUnique(command, pat, command[..q], ps', command[q + |Render(pat, ps')|..]);
    KeyedCaptureUnique(command, pat, pre, ps, w);
    assert ParseKeyed(command, pat, err) == Ok(ps'[|ps'| - 1]);
  }

  /** `parse_get_command`. */
  function ParseGetCommand(command: string): (r: Result<string>)
    ensures r.Ok? ==> IsArg(r.value)
    ensures r.Err? ==> r.msg == "Invalid GET command format"
  {
    KeyedPatterns();
    ParseKeyed(command, GetPattern, "Invalid GET command format")
  }

  /** `parse_delete_command`. */
  function ParseDeleteCommand(command: string): (r: Result<string>)
    ensures r.Ok? ==> IsArg(r.value)
    ensures r.Err? ==> r.msg == "Invalid DELETE command format"
  {
    KeyedPatterns();
    ParseKeyed(command, DeletePattern, "Invalid DELETE command format")
  }

  /** `parse_identifier_set`: the identifier is returned verbatim, with no trimming
      and no unescaping. */
  function ParseIdentifierSet(command: string): (r: Result<string>)
    ensures r.Ok? ==> IsArg(r.value)
    ensures r.Err? ==> r.msg == "Invalid IDENTIFIER SET command"
  {
    KeyedPatterns();
    ParseKeyed(command, IdentifierSetPattern, "Invalid IDENTIFIER SET command")
  }

  /** The GET grammar spelled out: `GET <ws> WHERE <ws> KEY <ws?> = <ws?> "k" <ws?>`. */
  predicate GetForm(command: string, pre: string, w1: string, w2: string, w3: string,
                    w4: string, k: string, w5: string, verb: string) {
    w1 != [] && w2 != [] && AllSpace(w1) && AllSpace(w2) && AllSpace(w3) && AllSpace(w4)
    && AllSpace(w5) && IsArg(k)
    && command == pre + (verb + (w1 + ("WHERE" + (w2 + ("KEY" + (w3 + ("=" + (w4 + Quoted(k))))))))) + w5
  }

  lemma RenderOne(t: Token, p: string)
    ensures Render([t], [p]) == Piece(t, p)
  {
    assert [t][1..] == [];
    assert [p][1..] == [];
  }

  lemma RenderCons(t: Token, p: string, pat: seq<Token>, ps: seq<string>)
    requires |pat| == |ps|
    ensures Render([t] + pat, [p] + ps) == Piece(t, p) + Render(pat, ps)
  {
    assert ([t] + pat)[1..] == pat;
    assert ([p] + ps)[1..] == ps;
  }

  lemma GetFormRender(verb: string, w1: string, w2: string, w3: string, w4: string, k: string)
    ensures Render(WherePattern(verb), [verb, w1, "WHERE", w2, "KEY", w3, "=", w4, k])
      == verb + (w1 + ("WHERE" + (w2 + ("KEY" + (w3 + ("=" + (w4 + Quoted(k))))))))
  {
    RenderOne(Arg, k);
    RenderCons(OptBlanks, w4, [Arg], [k]);
    RenderCons(Lit("="), "=", [OptBlanks, Arg], [w4, k]);
    RenderCons(OptBlanks, w3, [Lit("="), OptBlanks, Arg], ["=", w4, k]);
    RenderCons(Lit("KEY"), "KEY", [OptBlanks, Lit("="), OptBlanks, Arg], [w3, "=", w4, k]);
    RenderCons(Blanks, w2, [Lit("KEY"), OptBlanks, Lit("="), OptBlanks, Arg], ["KEY", w3, "=", w4, k]);
    RenderCons(Lit("WHERE"), "WHERE", [Blanks, Lit("KEY"), OptBlanks, Lit("="), OptBlanks, Arg],
               [w2, "KEY", w3, "=", w4, k]);
    RenderCons(Blanks, w1, [Lit("WHERE"), Blanks, Lit("KEY"), OptBlanks, Lit("="), OptBlanks, Arg],
               ["WHERE", w2, "KEY", w3, "=", w4, k]);
    RenderCons(Lit(verb), verb, [Blanks, Lit("WHERE"), Blanks, Lit("KEY"), OptBlanks, Lit("="), OptBlanks, Arg],
               [w1, "WHERE", w2, "KEY", w3, "=", w4, k]);
  }

  function WherePattern(verb: string): seq<Token> {
    [Lit(verb), Blanks, Lit("WHERE"), Blanks, Lit("KEY"), OptBlanks, Lit("="), OptBlanks, Arg]
  }

  lemma WhereFits(verb: string, ps: seq<string>)
    requires Fits(WherePattern(verb), ps)
    ensures ps == [verb, ps[1], "WHERE", ps[3], "KEY", ps[5], "=", ps[7], ps[8]]
    ensures ps[1] != [] && ps[3] != [] && AllSpace(ps[1]) && AllSpace(ps[3])
            && AllSpace(ps[5]) && AllSpace(ps[7]) && IsArg(ps[8])
  {
    var pat := WherePattern(verb);
    assert FitsToken(pat[0], ps[0]) && FitsToken(pat[1], ps[1]) && FitsToken(pat[2], ps[2]);
    assert FitsToken(pat[3], ps[3]) && FitsToken(pat[4], ps[4]) && FitsToken(pat[5], ps[5]);
    assert FitsToken(pat[6], ps[6]) && FitsToken(pat[7], ps[7]) && FitsToken(pat[8], ps[8]);
  }

  lemma WhereFitsOf(verb: string, w1: string, w2: string, w3: string, w4: string, k: string)
    requires w1 != [] && w2 != [] && AllSpace(w1) && AllSpace(w2) && AllSpace(w3) && AllSpace(w4) && IsArg(k)
    ensures Fits(WherePattern(verb), [verb, w1, "WHERE", w2, "KEY", w3, "=", w4, k])
  {
  }

  lemma GetFormOfKeyed(command: string, verb: string, pre: string, ps: seq<string>, w: string)
    requires KeyedAt(command, WherePattern(verb), pre, ps, w)
    ensures GetForm(command, pre, ps[1], ps[3], ps[5], ps[7], ps[8], w, verb)
  {
    WhereFits(verb, ps);
    GetFormRender(verb, ps[1], ps[3], ps[5], ps[7], ps[8]);
  }

  lemma KeyedOfGetForm(command: string, verb: string, pre: string, w1: string, w2: string,
                       w3: string, w4: string, k: string, w5: string)
    requires GetForm(command, pre, w1, w2, w3, w4, k, w5, verb)
    ensures KeyedAt(command, WherePattern(verb), pre, [verb, w1, "WHERE", w2, "KEY", w3, "=", w4, k], w5)
  {
    WhereFitsOf(verb, w1, w2, w3, w4, k);
    GetFormRender(verb, w1, w2, w3, w4, k);
  }

  lemma GetFormIff(command: string, verb: string, err: string, k: string)
    requires Keyed(WherePattern(verb))
    ensures ParseKeyed(command, WherePattern(verb), err) == Ok(k)
            <==> exists pre, w1, w2, w3, w4, w5 :: GetForm(command, pre, w1, w2, w3, w4, k, w5, verb)
  {
    var pat := WherePattern(verb);
    var accepted := ParseKeyed(command, pat, err) == Ok(k);
    var written := exists pre, w1, w2, w3, w4, w5 :: GetForm(command, pre, w1, w2, w3, w4, k, w5, verb);
    assert accepted ==> written by {
      if accepted {
        ParseKeyedIff(command, pat, err, k);
        var pre, ps, w :| KeyedAt(command, pat, pre, ps, w) && ps[|ps| - 1] == k;
        GetFormOfKeyed(command, verb, pre, ps, w);
      }
    }
    assert written ==> accepted by {
      if written {
        var pre, w1, w2, w3, w4, w5 :| GetForm(command, pre, w1, w2, w3, w4, k, w5, verb);
        KeyedOfGetForm(command, verb, pre, w1, w2, w3, w4, k, w5);
        ParseKeyedIff(command, pat, err, k);
      }
    }
  }

  /** GET accepts exactly `<anything> GET <ws> WHERE <ws> KEY <ws?> = <ws?> "k" <ws?>`
      and returns the text between the quotes; the keywords are upper case only. */
  lemma ParseGetIff(command: string, k: string)
    ensures ParseGetCommand(command) == Ok(k)
            <==> exists pre, w1, w2, w3, w4, w5 :: GetForm(command, pre, w1, w2, w3, w4, k, w5, "GET")
  {
    KeyedPatterns();
    GetFormIff(command, "GET", "Invalid GET command format", k);
  }

  /** DEL accepts exactly `<anything> DEL <ws> WHERE <ws> KEY <ws?> = <ws?> "k" <ws?>`. */
  lemma ParseDeleteIff(command: string, k: string)
    ensures ParseDeleteCommand(command) == Ok(k)
            <==> exists pre, w1, w2, w3, w4, w5 :: GetForm(command, pre, w1, w2, w3, w4, k, w5, "DEL")
  {
    KeyedPatterns();
    GetFormIff(command, "DEL", "Invalid DELETE command format", k);
  }

  predicate IdentifierSetForm(command: string, pre: string, w1: string, w2: string, id: string, w3: string) {
    w1 != [] && w2 != [] && AllSpace(w1) && AllSpace(w2) && AllSpace(w3) && IsArg(id)
    && command == pre + ("IDENTIFIER" + (w1 + ("SET" + (w2 + Quoted(id))))) + w3
  }

  lemma IdentifierSetRender(w1: string, w2: string, id: string)
    ensures Render(IdentifierSetPattern, ["IDENTIFIER", w1, "SET", w2, id])
      == "IDENTIFIER" + (w1 + ("SET" + (w2 + Quoted(id))))
  {
    RenderOne(Arg, id);
    RenderCons(Blanks, w2, [Arg], [id]);
    RenderCons(Lit("SET"), "SET", [Blanks, Arg], [w2, id]);
    RenderCons(Blanks, w1, [Lit("SET"), Blanks, Arg], ["SET", w2, id]);
    RenderCons(Lit("IDENTIFIER"), "IDENTIFIER", [Blanks, Lit("SET"), Blanks, Arg], [w1, "SET", w2, id]);
  }

  lemma IdentifierSetFormOfKeyed(command: string, pre: string, ps: seq<string>, w: string)
    requires KeyedAt(command, IdentifierSetPattern, pre, ps, w)
    ensures IdentifierSetForm(command, pre, ps[1], ps[3], ps[4], w)
  {
    var pat := IdentifierSetPattern;
    assert FitsToken(pat[0], ps[0]) && FitsToken(pat[1], ps[1]) && FitsToken(pat[2], ps[2]);
    assert FitsToken(pat[3], ps[3]) && FitsToken(pat[4], ps[4]);
    assert ps == ["IDENTIFIER", ps[1], "SET", ps[3], ps[4]];
    IdentifierSetRender(ps[1], ps[3], ps[4]);
  }

  lemma KeyedOfIdentifierSetForm(command: string, pre: string, w1: string, w2: string, id: string, w3: string)
    requires IdentifierSetForm(command, pre, w1, w2, id, w3)
    ensures KeyedAt(command, IdentifierSetPattern, pre, ["IDENTIFIER", w1, "SET", w2, id], w3)
  {
    IdentifierSetRender(w1, w2, id);
  }

  /** IDENTIFIER SET accepts exactly `<anything> IDENTIFIER <ws> SET <ws> "id" <ws?>`
      and returns `id` as written. */
  lemma ParseIdentifierSetIff(command: string, id: string)
    ensures ParseIdentifierSet(command) == Ok(id)
            <==> exists pre, w1, w2, w3 :: IdentifierSetForm(command, pre, w1, w2, id, w3)
  {
    if ParseIdentifierSet(command) == Ok(id) {
      IdentifierSetSound(command, id);
    }
    if exists pre, w1, w2, w3 :: IdentifierSetForm(command, pre, w1, w2, id, w3) {
      var pre, w1, w2, w3 :| IdentifierSetForm(command, pre, w1, w2, id, w3);
      IdentifierSetComplete(command, pre, w1, w2, id, w3);
    }
  }

  lemma IdentifierSetSound(command: string, id: string)
    requires ParseIdentifierSet(command) == Ok(id)
    ensures exists pre, w1, w2, w3 :: IdentifierSetForm(command, pre, w1, w2, id, w3)
  {
    var pat := IdentifierSetPattern;
    KeyedPatterns();
    ParseKeyedIff(command, pat, "Invalid IDENTIFIER SET command", id);
    var pre, ps, w :| KeyedAt(command, pat, pre, ps, w) && ps[|ps| - 1] == id;
    IdentifierSetFormOfKeyed(command, pre, ps, w);
  }

  lemma IdentifierSetComplete(command: string, pre: string, w1: string, w2: string, id: string, w3: string)
    requires IdentifierSetForm(command, pre, w1, w2, id, w3)
    ensures ParseIdentifierSet(command) == Ok(id)
  {
    var pat := IdentifierSetPattern;
    KeyedPatterns();
    KeyedOfIdentifierSetForm(command, pre, w1, w2, id, w3);
    KeyedExact(command, pat, "Invalid IDENTIFIER SET command", pre, ["IDENTIFIER", w1, "SET", w2, id], w3);
  }

  /** An accepted GET or DEL contains its verb and `WHERE`, upper case as written. */
  lemma GetFormKeywords(command: string, pre: string, w1: string, w2: string, w3: string,
                        w4: string, k: string, w5: string, verb: string)
    requires GetForm(command, pre, w1, w2, w3, w4, k, w5, verb)
    ensures Contains(command, verb) && Contains(command, "WHERE")
  {
    var i := |pre| + |verb| + |w1|;
    assert command[|pre|..|pre| + |verb|] == verb;
    assert command[i..i + 5] == "WHERE";
    ContainsAt(command, verb, |pre|);
    ContainsAt(command, "WHERE", i);
  }

  lemma ParseDeleteKeywords(command: string)
    ensures ParseDeleteCommand(command).Ok? ==> Contains(command, "DEL") && Contains(command, "WHERE")
  {
    if ParseDeleteCommand(command).Ok? {
      var k := ParseDeleteCommand(command).value;
      ParseDeleteIff(command, k);
      var pre, w1, w2, w3, w4, w5 :| GetForm(command, pre, w1, w2, w3, w4, k, w5, "DEL");
      GetFormKeywords(command, pre, w1, w2, w3, w4, k, w5, "DEL");
    }
  }

  lemma ParseGetKeywords(command: string)
    ensures ParseGetCommand(command).Ok? ==> Contains(command, "GET") && Contains(command, "WHERE")
  {
    if ParseGetCommand(command).Ok? {
      var k := ParseGetCommand(command).value;
      ParseGetIff(command, k);
      var pre, w1, w2, w3, w4, w5 :| GetForm(command, pre, w1, w2, w3, w4, k, w5, "GET");
      GetFormKeywords(command, pre, w1, w2, w3, w4, k, w5, "GET");
    }
  }

  /** `s` cannot contain `t` when it lacks `t`'s first character. */
  lemma LacksFirst(s: string, t: string)
    requires t != [] && forall i :: 0 <= i < |s| ==> s[i] != t[0]
    ensures !Contains(s, t)
  {
    forall j | 0 <= j <= |s|
      ensures !OccursAt(s, t, j)
    {
      if j + |t| <= |s| {
        assert s[j..j + |t|][0] == s[j];
      }
    }
  }

  /** `DEL "temp:session"`, with no `WHERE KEY=`, is rejected. */
  lemma BareDeleteRejected()
    ensures ParseDeleteCommand("DEL \"temp:session\"").Err?
  {
    var command := "DEL \"temp:session\"";
    assert forall i :: 0 <= i < |command| ==> command[i] != 'W' by {
      assert command == ['D', 'E', 'L', ' ', '"', 't', 'e', 'm', 'p', ':', 's', 'e', 's', 's', 'i', 'o', 'n', '"'];
    }
    WithoutWhereRejected(command);
  }

  /** A command with no `W` has no `WHERE`, so DEL rejects it. */
  lemma WithoutWhereRejected(command: string)
    requires forall i :: 0 <= i < |command| ==> command[i] != 'W'
    ensures ParseDeleteCommand(command).Err?
  {
    ParseDeleteKeywords(command);
    LacksFirst(command, "WHERE");
  }

  /** Keywords are case-sensitive: a lower-case GET is rejected. */
  lemma LowerCaseGetRejected()
    ensures ParseGetCommand("get where key=\"k\"").Err?
  {
    var command := "get where key=\"k\"";
    assert forall i :: 0 <= i < |command| ==> command[i] != 'G' by {
      assert command == ['g', 'e', 't', ' ', 'w', 'h', 'e', 'r', 'e', ' ', 'k', 'e', 'y', '=', '"', 'k', '"'];
    }
    WithoutUpperGRejected(command);
  }

  /** A command with no `G` has no `GET`, so GET rejects it. */
  lemma WithoutUpperGRejected(command: string)
    requires forall i :: 0 <= i < |command| ==> command[i] != 'G'
    ensures ParseGetCommand(command).Err?
  {
    ParseGetKeywords(command);
    LacksFirst(command, "GET");
  }

  // ---------------------------------------------------------------------------
  // IDENTIFIER GET and COMPACT: a fixed phrase, any ASCII case, after `trim`

  /** `parse_identifier_get`. */
  function ParseIdentifierGet(command: string): (r: Result<()>)
    ensures r.Err? ==> r.msg == "Invalid IDENTIFIER GET command"
  {
    if EqIgnoreAsciiCase(Trim(command), "IDENTIFIER GET") then Ok(())
    else Err("Invalid IDENTIFIER GET command")
  }

  /** `parse_compact`. */
  function ParseCompact(command: string): (r: Result<()>)
    ensures r.Err? ==> r.msg == "Invalid COMPACT command"
  {
    if EqIgnoreAsciiCase(Trim(command), "COMPACT") then Ok(())
    else Err("Invalid COMPACT command")
  }

  predicate IsUpperAscii(c: char) {
    'A' <= c <= 'Z'
  }

  /** `command` is the phrase `word` in any ASCII case, padded with whitespace. */
  predicate PhraseForm(command: string, w1: string, u: string, w2: string, word: string) {
    AllSpace(w1) && AllSpace(w2) && EqIgnoreAsciiCase(u, word) && command == w1 + u + w2
  }

  lemma PhraseOfTrim(command: string, word: string)
    requires EqIgnoreAsciiCase(Trim(command), word)
    ensures exists w1, u, w2 :: PhraseForm(command, w1, u, w2, word)
  {
    var w1, w2 := TrimSplit(command);
    assert PhraseForm(command, w1, Trim(command), w2, word);
  }

  lemma TrimOfPhrase(command: string, w1: string, u: string, w2: string, word: string)
    requires word != [] && IsUpperAscii(word[0]) && IsUpperAscii(word[|word| - 1])
    requires PhraseForm(command, w1, u, w2, word)
    ensures Trim(command) == u
  {
    assert AsciiLower(u[0]) == AsciiLower(word[0]);
    assert AsciiLower(u[|u| - 1]) == AsciiLower(word[|word| - 1]);
    TrimPadded(w1, u, w2);
  }

  lemma PhraseIff(command: string, word: string)
    requires word != [] && IsUpperAscii(word[0]) && IsUpperAscii(word[|word| - 1])
    ensures EqIgnoreAsciiCase(Trim(command), word)
            <==> exists w1, u, w2 :: PhraseForm(command, w1, u, w2, word)
  {
    if EqIgnoreAsciiCase(Trim(command), word) {
      PhraseOfTrim(command, word);
    }
    if exists w1, u, w2 :: PhraseForm(command, w1, u, w2, word) {
      var w1, u, w2 :| PhraseForm(command, w1, u, w2, word);
      TrimOfPhrase(command, w1, u, w2, word);
    }
  }

  /** IDENTIFIER GET accepts exactly `IDENTIFIER GET`, in any ASCII case and with
      a single space between the words, padded with whitespace. */
  lemma ParseIdentifierGetIff(command: string)
    ensures ParseIdentifierGet(command).Ok?
            <==> exists w1, u, w2 :: PhraseForm(command, w1, u, w2, "IDENTIFIER GET")
  {
    PhraseIff(command, "IDENTIFIER GET");
  }

  /** COMPACT accepts exactly `COMPACT`, in any ASCII case, padded with whitespace. */
  lemma ParseCompactIff(command: string)
    ensures ParseCompact(command).Ok?
            <==> exists w1, u, w2 :: PhraseForm(command, w1, u, w2, "COMPACT")
  {
    PhraseIff(command, "COMPACT");
  }

  /** An extra space inside the phrase is rejected. */
  lemma IdentifierGetExtraSpace()
    ensures ParseIdentifierGet("IDENTIFIER  GET").Err?
  {
    TrimPadded("", "IDENTIFIER  GET", "");
    assert "" + "IDENTIFIER  GET" + "" == "IDENTIFIER  GET";
  }

  /** Trimming text whose last non-space character is a quote keeps that quote last. */
  lemma TrimEndsInQuote(b: string, w: string)
    requires b != [] && b[|b| - 1] == '"' && AllSpace(w)
    ensures var t := Trim(b + w); t != [] && t[|t| - 1] == '"'
  {
    SpanWhileBackOf(b, w, IsSpace);
    assert TrimEndBy(b + w, IsSpace) == b;
    var n := SpanWhile(b, IsSpace);
    assert n < |b|;
  }

  /** A command IDENTIFIER SET accepts is never COMPACT or IDENTIFIER GET, so the
      shell and the server, which try these three in different orders, agree. */
  lemma PhrasesExcludeIdentifierSet(command: string)
    ensures ParseIdentifierSet(command).Ok? ==> ParseCompact(command).Err? && ParseIdentifierGet(command).Err?
  {
    if ParseIdentifierSet(command).Ok? {
      IdentifierSetEndsInQuote(command);
      QuoteEndNotPhrases(Trim(command));
    }
  }

  /** A text ending in a double quote is neither COMPACT nor IDENTIFIER GET. */
  lemma QuoteEndNotPhrases(t: string)
    requires t != [] && t[|t| - 1] == '"'
    ensures !EqIgnoreAsciiCase(t, "COMPACT") && !EqIgnoreAsciiCase(t, "IDENTIFIER GET")
  {
    QuoteEndNotPhrase(t, "COMPACT");
    QuoteEndNotPhrase(t, "IDENTIFIER GET");
  }

  /** A command IDENTIFIER SET accepts ends, once trimmed, in a double quote. */
  lemma IdentifierSetEndsInQuote(command: string)
    requires ParseIdentifierSet(command).Ok?
    ensures Trim(command) != [] && Trim(command)[|Trim(command)| - 1] == '"'
  {
    var id := ParseIdentifierSet(command).value;
    IdentifierSetSound(command, id);
    var pre, w1, w2, w3 :| IdentifierSetForm(command, pre, w1, w2, id, w3);
    var b := pre + ("IDENTIFIER" + (w1 + ("SET" + (w2 + Quoted(id)))));
    assert b[|b| - 1] == '"';
    TrimEndsInQuote(b, w3);
  }

  /** A text ending in a double quote is no phrase ending in a letter, in any case. */
  lemma QuoteEndNotPhrase(t: string, word: string)
    requires t != [] && t[|t| - 1] == '"' && word != [] && IsUpperAscii(word[|word| - 1])
    ensures !EqIgnoreAsciiCase(t, word)
  {
    if |t| == |word| {
      assert AsciiLower(t[|t| - 1]) != AsciiLower(word[|word| - 1]);
    }
  }

  // ---------------------------------------------------------------------------
  // PUT: `PUT\s+"k":"v"(?:\s*,\s*"k":"v")*\s*$`

  const PutHead: seq<Token> := [Lit("PUT"), Blanks, Arg, Lit(":"), Arg]
  const PutItem: seq<Token> := [OptBlanks, Lit(","), OptBlanks, Arg, Lit(":"), Arg]

  lemma PutPatternsWellFormed()
    ensures WellFormed(PutHead) && WellFormed(PutItem)
  {
    assert WellFormed(PutHead) by {
      assert WellFormed(PutHead[4..]);
      assert WellFormed(PutHead[3..]);
      assert WellFormed(PutHead[2..]);
      assert WellFormed(PutHead[1..]);
    }
    assert WellFormed(PutItem) by {
      assert WellFormed(PutItem[5..]);
      assert WellFormed(PutItem[4..]);
      assert WellFormed(PutItem[3..]);
      assert WellFormed(PutItem[2..]);
      assert WellFormed(PutItem[1..]);
    }
  }

  /** One reading of a PUT command from its `PUT` to the end: the pieces of the
      head, of each repetition of the group, and the trailing whitespace. */
  datatype PutMatch = PutMatch(head: seq<string>, items: seq<seq<string>>, trailing: string)

  predicate ItemsFit(items: seq<seq<string>>) {
    forall i :: 0 <= i < |items| ==> Fits(PutItem, items[i])
  }

  predicate PutShape(m: PutMatch) {
    Fits(PutHead, m.head) && ItemsFit(m.items) && AllSpace(m.trailing)
  }

  function RenderItems(items: seq<seq<string>>): string
    requires ItemsFit(items)
  {
    if items == [] then [] else Render(PutItem, items[0]) + RenderItems(items[1..])
  }

  function RenderPut(m: PutMatch): string
    requires PutShape(m)
  {
    Render(PutHead, m.head) + (RenderItems(m.items) + m.trailing)
  }

  /** Every repetition contains its comma, so it is never empty. */
  lemma ItemComma(ps: seq<string>, rest: string)
    requires Fits(PutItem, ps)
    ensures |ps[0]| < |Render(PutItem, ps) + rest|
    ensures (Render(PutItem, ps) + rest)[|ps[0]|] == ','
  {
    FitsTail(PutItem, ps);
    assert PutItem[1..] == [Lit(","), OptBlanks, Arg, Lit(":"), Arg];
    assert Render(PutItem[1..], ps[1..])[0] == ',';
  }

  /** A repetition never matches where only whitespace is left. */
  lemma ItemNotBlank(t: string)
    ensures MatchTokens(PutItem, t).Some? ==> !AllSpace(t)
  {
    if MatchTokens(PutItem, t).Some? {
      var (ps, rest) := MatchTokens(PutItem, t).value;
      ItemComma(ps, rest);
    }
  }

  /** One more repetition in front of fitting repetitions. */
  lemma ItemsCons(ps: seq<string>, items: seq<seq<string>>, w: string)
    requires Fits(PutItem, ps) && ItemsFit(items)
    ensures ItemsFit([ps] + items)
    ensures RenderItems([ps] + items) + w == Render(PutItem, ps) + (RenderItems(items) + w)
  {
    assert ([ps] + items)[1..] == items;
    forall i | 0 <= i < |[ps] + items|
      ensures Fits(PutItem, ([ps] + items)[i])
    {
      if i > 0 { assert ([ps] + items)[i] == items[i - 1]; }
    }
  }

  /** `(?:\s*,\s*"k":"v")*\s*$` at the start of `t`. The star is greedy; once a
      repetition matches, giving it back cannot help, because `\s*$` does not
      accept the comma that repetition starts with. */
  function MatchTail(t: string): (r: Option<(seq<seq<string>>, string)>)
    decreases |t|
    ensures r.Some? ==> ItemsFit(r.value.0) && AllSpace(r.value.1)
                        && t == RenderItems(r.value.0) + r.value.1
  {
    match MatchTokens(PutItem, t)
    case Some((ps, rest)) =>
      ItemComma(ps, rest);
      (match MatchTail(rest)
       case None => None
       case Some((items, w)) =>
         ItemsCons(ps, items, w);
         Some(([ps] + items, w)))
    case None => if AllSpace(t) then Some(([], t)) else None
  }

  lemma ItemsTail(items: seq<seq<string>>)
    requires ItemsFit(items) && items != []
    ensures Fits(PutItem, items[0]) && ItemsFit(items[1..])
    ensures RenderItems(items) == Render(PutItem, items[0]) + RenderItems(items[1..])
  {
    forall i | 0 <= i < |items| - 1
      ensures Fits(PutItem, items[1..][i])
    {
      assert items[1..][i] == items[i + 1];
    }
  }

  lemma {:induction false} MatchTailComplete(items: seq<seq<string>>, w: string)
    requires ItemsFit(items) && AllSpace(w)
    ensures MatchTail(RenderItems(items) + w) == Some((items, w))
    decreases |items|
  {
    PutPatternsWellFormed();
    var t := RenderItems(items) + w;
    if items == [] {
      assert t == w;
      ItemNotBlank(t);
    } else {
      ItemsTail(items);
      var rest := RenderItems(items[1..]) + w;
      AppendAssoc(Render(PutItem, items[0]), RenderItems(items[1..]), w);
      MatchTokensComplete(PutItem, items[0], rest);
      MatchTailComplete(items[1..], w);
      MatchTailStep(t, items[0], rest, items[1..], w);
      assert [items[0]] + items[1..] == items;
    }
  }

  /** One step of `MatchTail`: a repetition, then the rest of the tail. */
  lemma MatchTailStep(t: string, ps: seq<string>, rest: string, items: seq<seq<string>>, w: string)
    requires MatchTokens(PutItem, t) == Some((ps, rest)) && MatchTail(rest) == Some((items, w))
    ensures MatchTail(t) == Some(([ps] + items, w))
  {
  }

  /** The PUT grammar anchored at the start of `t` and at the end. */
  function MatchPutAt(t: string): (r: Option<PutMatch>)
    ensures r.Some? ==> PutShape(r.value) && RenderPut(r.value) == t
  {
    match MatchTokens(PutHead, t)
    case None => None
    case Some((h, rest)) =>
      match MatchTail(rest)
      case None => None
      case Some((items, w)) => Some(PutMatch(h, items, w))
  }

  lemma MatchPutAtComplete(m: PutMatch)
    requires PutShape(m)
    ensures MatchPutAt(RenderPut(m)) == Some(m)
  {
    PutPatternsWellFormed();
    MatchTokensComplete(PutHead, m.head, RenderItems(m.items) + m.trailing);
    MatchTailComplete(m.items, m.trailing);
  }

  /** The pair after `PUT`: capture groups 1 and 2. */
  function FirstPair(m: PutMatch): Pair
    requires PutShape(m)
  {
    Pair(m.head[2], m.head[4])
  }

  /** The pair of a repetition of the group. */
  function ItemPair(item: seq<string>): Pair
    requires Fits(PutItem, item)
  {
    Pair(item[3], item[5])
  }

  /** `captures` for the PUT regex at its leftmost match, indexed like `caps.get(i)`:
      group 0 is the whole match, 1 and 2 the first pair, and 3 and 4 the pair of
      the LAST repetition of the group (absent when it did not repeat). */
  function PutCaptures(command: string): (r: Option<seq<Option<string>>>)
    ensures r.Some? ==> |r.value| == 5 && r.value[1].Some? && r.value[2].Some?
                        && (r.value[3].Some? <==> r.value[4].Some?)
  {
    match FirstMatch(command, 0, MatchPutAt)
    case None => None
    case Some((p, m)) =>
      var last := if m.items == [] then [None, None]
                  else var it := m.items[|m.items| - 1]; [Some(it[3]), Some(it[5])];
      Some([Some(command[p..]), Some(m.head[2]), Some(m.head[4])] + last)
  }

  const PutError := "Invalid PUT command format"

  /** The pairs PUT reports for the reading `m`: the first pair, then the pair of
      the last repetition if there was one. */
  function PairsOf(m: PutMatch): (r: seq<Pair>)
    requires PutShape(m)
  {
    [FirstPair(m)] + if m.items == [] then [] else [ItemPair(m.items[|m.items| - 1])]
  }

  /** What `parse_put_command` returns, read off the leftmost match. */
  function PutPairs(command: string): Result<seq<Pair>> {
    match FirstMatch(command, 0, MatchPutAt)
    case None => Err(PutError)
    case Some((_, m)) => Ok(PairsOf(m))
  }

  /** `parse_put_command`: collect groups 1 and 2, then groups 3 and 4 while both
      are present. */
  method ParsePutCommand(command: string) returns (r: Result<seq<Pair>>)
    ensures r == PutPairs(command)
  {
    var found := PutCaptures(command);
    if found.None? {
      return Err(PutError);
    }
    ghost var m := FirstMatch(command, 0, MatchPutAt).value.1;
    var caps := found.value;
    var kvs: seq<Pair> := [];
    if caps[1].Some? && caps[2].Some? {
      kvs := kvs + [Pair(caps[1].value, caps[2].value)];
    }
    var i := 3;
    while i < |caps|
      invariant i == 3 || i == 5
      invariant i == 3 ==> kvs == [Pair(caps[1].value, caps[2].value)]
      invariant i == 5 ==> caps[3].Some? && kvs == [Pair(caps[1].value, caps[2].value), Pair(caps[3].value, caps[4].value)]
      decreases |caps| - i
    {
      if caps[i].Some? && caps[i + 1].Some? {
        kvs := kvs + [Pair(caps[i].value, caps[i + 1].value)];
        i := i + 2;
      } else {
        break;
      }
    }
    // The emptiness guard of the source never fires: groups 1 and 2 take part
    // in every match.
    assert kvs != [];
    assert kvs == PairsOf(m);
    return Ok(kvs);
  }

  /** `command` is `pre` followed by the reading `m` of the PUT grammar. */
  predicate PutAt(command: string, pre: string, m: PutMatch) {
    PutShape(m) && command == pre + RenderPut(m)
  }

  /** PUT accepts a command only if it is some prefix, `PUT`, whitespace, a quoted
      key, `:` with no space around it, a quoted value, any number of
      `<ws?> , <ws?> "k":"v"` repetitions and trailing whitespace; the pairs it
      returns are read from such a decomposition. */
  lemma PutPairsSound(command: string)
    ensures PutPairs(command).Ok? ==> exists pre, m :: PutAt(command, pre, m) && PutPairs(command).value == PairsOf(m)
  {
    if PutPairs(command).Ok? {
      var (q, m) := FirstMatch(command, 0, MatchPutAt).value;
      assert command == command[..q] + command[q..];
      assert PutAt(command, command[..q], m);
    }
  }

  /** Conversely, every such command is accepted, whatever text precedes `PUT`. */
  lemma PutAcceptsAfterAnyPrefix(pre: string, m: PutMatch)
    requires PutShape(m)
    ensures PutPairs(pre + RenderPut(m)).Ok?
  {
    var command := pre + RenderPut(m);
    MatchPutAtComplete(m);
    assert command[|pre|..] == RenderPut(m);
    assert MatchPutAt(command[|pre|..]).Some?;
  }

  lemma ParsePutIff(command: string)
    ensures PutPairs(command).Ok? <==> exists pre, m :: PutAt(command, pre, m)
  {
    PutPairsSound(command);
    if exists pre, m :: PutAt(command, pre, m) {
      var pre, m :| PutAt(command, pre, m);
      PutAcceptsAfterAnyPrefix(pre, m);
    }
  }

  /** An accepted PUT yields at least one pair, and every key and value is a
      quoted argument. */
  lemma PutPairsArgs(command: string)
    requires PutPairs(command).Ok?
    ensures PutPairs(command).value != []
    ensures forall i :: 0 <= i < |PutPairs(command).value| ==>
      IsArg(PutPairs(command).value[i].key) && IsArg(PutPairs(command).value[i].value)
  {
    PutPairsSound(command);
    var pre, m :| PutAt(command, pre, m) && PutPairs(command).value == PairsOf(m);
    PairsOfArgs(m);
  }

  /** Every key and value a reading reports is a quoted argument. */
  lemma PairsOfArgs(m: PutMatch)
    requires PutShape(m)
    ensures PairsOf(m) != []
    ensures forall i :: 0 <= i < |PairsOf(m)| ==> IsArg(PairsOf(m)[i].key) && IsArg(PairsOf(m)[i].value)
  {
    assert FitsToken(PutHead[2], m.head[2]) && FitsToken(PutHead[4], m.head[4]);
    if m.items != [] {
      var item := m.items[|m.items| - 1];
      assert Fits(PutItem, item);
      assert FitsToken(PutItem[3], item[3]) && FitsToken(PutItem[5], item[5]);
    }
  }

  /** A command that starts with its `PUT` yields the first pair, then the pair
      of the last repetition: with three or more pairs the middle ones are
      dropped, because a repeated capture group keeps only its last iteration. */
  lemma PutKeepsFirstAndLast(m: PutMatch)
    requires PutShape(m)
    ensures PutPairs(RenderPut(m)) == Ok(PairsOf(m))
    ensures PairsOf(m)[0] == FirstPair(m)
    ensures m.items == [] ==> |PairsOf(m)| == 1
    ensures m.items != [] ==> PairsOf(m) == [FirstPair(m), ItemPair(m.items[|m.items| - 1])]
  {
    MatchPutAtComplete(m);
    assert RenderPut(m)[0..] == RenderPut(m);
  }

  /** A single pair after `PUT` and any non-empty whitespace is accepted, and
      yields that pair alone. */
  lemma SinglePairAccepted(w: string, k: string, v: string)
    requires w != [] && AllSpace(w) && IsArg(k) && IsArg(v)
    ensures PutPairs("PUT" + (w + (Quoted(k) + (":" + Quoted(v))))) == Ok([Pair(k, v)])
  {
    var m := PutMatch(["PUT", w, k, ":", v], [], "");
    assert PutShape(m) by {
      assert Fits(PutHead, m.head);
    }
    var text := "PUT" + (w + (Quoted(k) + (":" + Quoted(v))));
    assert Render(PutHead, m.head) == text by {
      RenderOne(Arg, v);
      RenderCons(Lit(":"), ":", [Arg], [v]);
      RenderCons(Arg, k, [Lit(":"), Arg], [":", v]);
      RenderCons(Blanks, w, [Arg, Lit(":"), Arg], [k, ":", v]);
      RenderCons(Lit("PUT"), "PUT", [Blanks, Arg, Lit(":"), Arg], [w, k, ":", v]);
    }
    assert RenderItems(m.items) == [];
    assert RenderPut(m) == text;
    PutKeepsFirstAndLast(m);
    assert PairsOf(m) == [Pair(k, v)];
  }

  /** `PUT "k":"v"`, with a single space after the verb. */
  function PutText(k: string, v: string): string {
    "PUT " + (Quoted(k) + (":" + Quoted(v)))
  }

  /** `,"k":"v"`: one more pair. */
  function MoreText(k: string, v: string): string {
    "," + (Quoted(k) + (":" + Quoted(v)))
  }

  lemma HeadRender(k: string, v: string)
    ensures Render(PutHead, ["PUT", " ", k, ":", v]) == PutText(k, v)
  {
    RenderFive(Lit("PUT"), Blanks, Arg, Lit(":"), Arg, "PUT", " ", k, ":", v);
    AppendAssoc("PUT", " ", Quoted(k) + (":" + Quoted(v)));
  }

  /** Five tokens render piece after piece. */
  lemma RenderFive(t0: Token, t1: Token, t2: Token, t3: Token, t4: Token,
                   p0: string, p1: string, p2: string, p3: string, p4: string)
    ensures Render([t0, t1, t2, t3, t4], [p0, p1, p2, p3, p4])
         == Piece(t0, p0) + (Piece(t1, p1) + (Piece(t2, p2) + (Piece(t3, p3) + Piece(t4, p4))))
  {
    var pat, ps := [t0, t1, t2, t3, t4], [p0, p1, p2, p3, p4];
    assert pat[0..] == pat && ps[0..] == ps;
    RenderSlice(pat, ps, 0);
    RenderSlice(pat, ps, 1);
    RenderSlice(pat, ps, 2);
    RenderSlice(pat, ps, 3);
    RenderSlice(pat, ps, 4);
    assert pat[5..] == [] && ps[5..] == [];
  }

  /** Rendering from token `i` on is its piece, then the rest. */
  lemma RenderSlice(pat: seq<Token>, ps: seq<string>, i: nat)
    requires |pat| == |ps| && i < |pat|
    ensures Render(pat[i..], ps[i..]) == Piece(pat[i], ps[i]) + Render(pat[i + 1..], ps[i + 1..])
  {
    assert pat[i..][1..] == pat[i + 1..];
    assert ps[i..][1..] == ps[i + 1..];
  }

  lemma TwoItemsRender(item1: seq<string>, item2: seq<string>)
    requires Fits(PutItem, item1) && Fits(PutItem, item2)
    ensures RenderItems([item1, item2]) == Render(PutItem, item1) + Render(PutItem, item2)
  {
    assert [item1, item2][1..] == [item2];
    assert [item2][1..] == [];
    assert RenderItems([item2]) == Render(PutItem, item2) + RenderItems([]);
    assert RenderItems([item1, item2]) == Render(PutItem, item1) + RenderItems([item2]);
  }

  /** Three pairs in, two pairs out: the middle pair is dropped, whatever the
      keys and values. */
  lemma PutDropsMiddlePair(k1: string, v1: string, k2: string, v2: string, k3: string, v3: string)
    requires IsArg(k1) && IsArg(v1) && IsArg(k2) && IsArg(v2) && IsArg(k3) && IsArg(v3)
    ensures PutPairs(PutText(k1, v1) + MoreText(k2, v2) + MoreText(k3, v3))
         == Ok([Pair(k1, v1), Pair(k3, v3)])
  {
    var m := ThreePairMatch(k1, v1, k2, v2, k3, v3);
    PutKeepsFirstAndLast(m);
    assert PairsOf(m) == [Pair(k1, v1), Pair(k3, v3)] by {
      assert FirstPair(m) == Pair(k1, v1);
      assert ItemPair(m.items[|m.items| - 1]) == Pair(k3, v3);
    }
  }

  /** The match of three pairs written with single separators. */
  lemma ThreePairMatch(k1: string, v1: string, k2: string, v2: string, k3: string, v3: string)
    returns (m: PutMatch)
    requires IsArg(k1) && IsArg(v1) && IsArg(k2) && IsArg(v2) && IsArg(k3) && IsArg(v3)
    ensures PutShape(m) && RenderPut(m) == PutText(k1, v1) + MoreText(k2, v2) + MoreText(k3, v3)
    ensures m.head[2] == k1 && m.head[4] == v1 && |m.items| == 2 && m.items[1][3] == k3 && m.items[1][5] == v3
  {
    var items := TwoMoreItems(k2, v2, k3, v3);
    m := PutMatch(["PUT", " ", k1, ":", v1], items, "");
    assert Fits(PutHead, m.head);
    HeadRender(k1, v1);
    assert RenderItems(m.items) + m.trailing == MoreText(k2, v2) + MoreText(k3, v3);
    AppendAssoc(PutText(k1, v1), MoreText(k2, v2), MoreText(k3, v3));
  }

  /** The repetitions of two more pairs written with single separators. */
  lemma TwoMoreItems(k2: string, v2: string, k3: string, v3: string) returns (items: seq<seq<string>>)
    requires IsArg(k2) && IsArg(v2) && IsArg(k3) && IsArg(v3)
    ensures ItemsFit(items) && RenderItems(items) == MoreText(k2, v2) + MoreText(k3, v3)
    ensures |items| == 2 && items[1][3] == k3 && items[1][5] == v3
  {
    var item2 := ["", ",", "", k2, ":", v2];
    var item3 := ["", ",", "", k3, ":", v3];
    assert Fits(PutItem, item2) && Fits(PutItem, item3);
    items := [item2, item3];
    ItemRender(k2, v2);
    ItemRender(k3, v3);
    TwoItemsRender(item2, item3);
  }

  lemma ItemRender(k: string, v: string)
    ensures Render(PutItem, ["", ",", "", k, ":", v]) == MoreText(k, v)
  {
    var tail := [Lit(","), OptBlanks, Arg, Lit(":"), Arg];
    var pieces := [",", "", k, ":", v];
    RenderFive(Lit(","), OptBlanks, Arg, Lit(":"), Arg, ",", "", k, ":", v);
    assert "" + (Quoted(k) + (":" + Quoted(v))) == Quoted(k) + (":" + Quoted(v));
    assert PutItem == [OptBlanks] + tail;
    assert ["", ",", "", k, ":", v] == [""] + pieces;
    RenderCons(OptBlanks, "", tail, pieces);
    assert Piece(OptBlanks, "") + Render(tail, pieces) == Render(tail, pieces);
  }
}
