/** What a data command asks of the store, and what each front end does with
    it. The shell (`execute_command` in src/shell.rs) and the server
    (`parse_and_execute` in src/server.rs) run the same six recognisers, in
    different orders, and answer some requests differently. */
module Dispatch {
  import opened Wrappers
  import opened Bytes
  import opened Text
  import opened Utf8
  import opened Store
  import opened Commands

  datatype Request =
    | PutReq(pairs: seq<Pair>)
    | GetReq(key: string)
    | DelReq(key: string)
    | IdGetReq
    | IdSetReq(id: string)
    | CompactReq
    | UnknownReq

  /** The first recogniser that accepts `command`, in the shell's order:
      PUT, GET, DEL, IDENTIFIER GET, IDENTIFIER SET, COMPACT. */
  function ShellRequest(command: string): (r: Request)
    ensures r == UnknownReq <==>
      PutPairs(command).Err? && ParseGetCommand(command).Err? && ParseDeleteCommand(command).Err?
      && ParseIdentifierGet(command).Err? && ParseIdentifierSet(command).Err? && ParseCompact(command).Err?
    ensures r.PutReq? ==> r.pairs != [] && forall i :: 0 <= i < |r.pairs| ==> IsArg(r.pairs[i].key) && IsArg(r.pairs[i].value)
    ensures r.GetReq? ==> IsArg(r.key)
    ensures r.DelReq? ==> IsArg(r.key)
    ensures r.IdSetReq? ==> IsArg(r.id)
  {
    if PutPairs(command).Ok? then PutReq(PutPairsOk(command))
    else if ParseGetCommand(command).Ok? then GetReq(ParseGetCommand(command).value)
    else if ParseDeleteCommand(command).Ok? then DelReq(ParseDeleteCommand(command).value)
    else if ParseIdentifierGet(command).Ok? then IdGetReq
    else if ParseIdentifierSet(command).Ok? then IdSetReq(ParseIdentifierSet(command).value)
    else if ParseCompact(command).Ok? then CompactReq
    else UnknownReq
  }

  /** The first recogniser that accepts `command`, in the server's order:
      PUT, GET, DEL, COMPACT, IDENTIFIER GET, IDENTIFIER SET. */
  function ServerRequest(command: string): (r: Request)
    ensures r == UnknownReq <==>
      PutPairs(command).Err? && ParseGetCommand(command).Err? && ParseDeleteCommand(command).Err?
      && ParseIdentifierGet(command).Err? && ParseIdentifierSet(command).Err? && ParseCompact(command).Err?
    ensures r.CompactReq? ==> ParseCompact(command).Ok?
  {
    if PutPairs(command).Ok? then PutReq(PutPairsOk(command))
    else if ParseGetCommand(command).Ok? then GetReq(ParseGetCommand(command).value)
    else if ParseDeleteCommand(command).Ok? then DelReq(ParseDeleteCommand(command).value)
    else if ParseCompact(command).Ok? then CompactReq
    else if ParseIdentifierGet(command).Ok? then IdGetReq
    else if ParseIdentifierSet(command).Ok? then IdSetReq(ParseIdentifierSet(command).value)
    else UnknownReq
  }

  /** The pairs of an accepted PUT: never empty, every key and value a quoted argument. */
  function PutPairsOk(command: string): (ps: seq<Pair>)
    requires PutPairs(command).Ok?
    ensures ps == PutPairs(command).value
    ensures ps != [] && forall i :: 0 <= i < |ps| ==> IsArg(ps[i].key) && IsArg(ps[i].value)
  {
    PutPairsArgs(command);
    PutPairs(command).value
  }

  /** The two orders never disagree: IDENTIFIER GET, IDENTIFIER SET and COMPACT
      never accept the same command, so moving COMPACT ahead of the other two
      changes nothing. */
  lemma SameRequest(command: string)
    ensures ShellRequest(command) == ServerRequest(command)
  {
    PhrasesExcludeIdentifierSet(command);
  }

  /** The store's contents after putting `ps` in order, each key and value as
      its UTF-8 bytes. */
  function ApplyPuts(m: map<Bytes, Bytes>, ps: seq<Pair>): map<Bytes, Bytes>
    decreases |ps|
  {
    if ps == [] then m
    else
      var last := ps[|ps| - 1];
      ApplyPuts(m, ps[..|ps| - 1])[Encode(last.key) := Encode(last.value)]
  }

  /** The position of the last pair in `ps` whose key is `key`, if any. */
  function LastIndexFor(ps: seq<Pair>, key: Bytes): (r: Option<nat>)
    decreases |ps|
    ensures r.None? <==> forall i :: 0 <= i < |ps| ==> Encode(ps[i].key) != key
    ensures r.Some? ==> r.value < |ps| && Encode(ps[r.value].key) == key
                        && forall j :: r.value < j < |ps| ==> Encode(ps[j].key) != key
  {
    if ps == [] then None
    else if Encode(ps[|ps| - 1].key) == key then Some(|ps| - 1)
    else
      var init := ps[..|ps| - 1];
      assert forall i :: 0 <= i < |init| ==> init[i] == ps[i];
      LastIndexFor(init, key)
  }

  /** Putting pairs in order: the last write to a key wins, and keys that no
      pair names keep what they had. */
  lemma {:induction false} ApplyPutsLookup(m: map<Bytes, Bytes>, ps: seq<Pair>, key: Bytes)
    ensures Lookup(ApplyPuts(m, ps), key)
         == match LastIndexFor(ps, key)
            case Some(i) => Some(Encode(ps[i].value))
            case None => Lookup(m, key)
    decreases |ps|
  {
    if ps != [] {
      var init := ps[..|ps| - 1];
      ApplyPutsLookup(m, init, key);
      assert forall i :: 0 <= i < |init| ==> init[i] == ps[i];
    }
  }

  /** Putting one more pair extends the prefix already applied. */
  lemma ApplyPutsSnoc(m: map<Bytes, Bytes>, ps: seq<Pair>, i: nat)
    requires i < |ps|
    ensures ApplyPuts(m, ps[..i + 1]) == ApplyPuts(m, ps[..i])[Encode(ps[i].key) := Encode(ps[i].value)]
  {
    assert ps[..i + 1][..i] == ps[..i];
  }

  /** `format!("Inserted {} key-value pairs", n)`. */
  function InsertedMessage(n: nat): string {
    "Inserted " + NatToString(n) + " key-value pairs"
  }

  /** The count can be read back from the message. */
  lemma InsertedMessageInjective(a: nat, b: nat)
    ensures InsertedMessage(a) == InsertedMessage(b) ==> a == b
  {
    if InsertedMessage(a) == InsertedMessage(b) {
      var da, db := NatToString(a), NatToString(b);
      var ma, mb := InsertedMessage(a), InsertedMessage(b);
      assert |da| == |db|;
      assert da == ma[9..9 + |da|];
      assert db == mb[9..9 + |db|];
      NatToStringRoundTrip(a);
      NatToStringRoundTrip(b);
    }
  }

  /** `format!("Identifier set to '{}'", id)`. */
  function IdentifierSetMessage(id: string): string {
    "Identifier set to '" + id + "'"
  }

  /** How the shell shows what `get` found: the text when the bytes are UTF-8,
      otherwise an upper-case hex dump. */
  function ShellShow(found: Option<Bytes>): string {
    match found
    case None => "Key not found"
    case Some(v) =>
      match Decode(v)
      case Some(s) => s
      case None => "<BINARY DATA: " + HexDump(v) + ">"
  }

  /** Nothing a stored value holds is lost in the shell's display: text encodes
      back to the value, and the hex dump reads back to it. */
  lemma ShellShowRecovers(v: Bytes)
    ensures Decode(v).Some? ==> Encode(ShellShow(Some(v))) == v
    ensures Decode(v).None? ==> ShellShow(Some(v)) == "<BINARY DATA: " + HexDump(v) + ">"
                                && UnHexDump(HexDump(v)) == v
  {
    if Decode(v).Some? {
      DecodeIffEncode(v, Decode(v).value);
    } else {
      UnHexDumpRoundTrip(v);
    }
  }

  /** A stored text equal to the miss message displays exactly like a miss. */
  lemma ShellShowMissAmbiguous()
    ensures ShellShow(Some(Encode("Key not found"))) == ShellShow(None)
  {
    DecodeEncode("Key not found");
  }

  /** How the server shows what `get` found: binary values are not shown. */
  function ServerShow(found: Option<Bytes>): string {
    match found
    case None => "Key not found"
    case Some(v) =>
      match Decode(v)
      case Some(s) => s
      case None => "<BINARY>"
  }

  /** The two displays agree on text and on a miss; they differ only on bytes
      that are not UTF-8. */
  lemma ShowsAgreeOnText(found: Option<Bytes>)
    ensures ShellShow(found) == ServerShow(found) <==> found.None? || Decode(found.value).Some?
  {
    if found.Some? && Decode(found.value).None? {
      var d := "<BINARY DATA: " + HexDump(found.value) + ">";
      assert |d| != |"<BINARY>"|;
    }
  }

  /** Everything PUT may leave behind: on success all pairs are stored in
      order; on a failed put the pairs before it stay stored. The identifier
      never changes. */
  predicate PutStep(ps: seq<Pair>, d0: map<Bytes, Bytes>, i0: string, d1: map<Bytes, Bytes>, i1: string,
                    r: Result<string>) {
    i1 == i0
    && (r.Ok? ==> d1 == ApplyPuts(d0, ps) && r.value == InsertedMessage(|ps|))
    && (r.Err? ==> exists n :: 0 <= n < |ps| && d1 == ApplyPuts(d0, ps[..n]))
  }

  /** The outcomes the shell allows for `req` on a store holding `d0` and
      identifier `i0`, leaving `d1` and `i1` and answering `r`. */
  predicate ShellStep(req: Request, command: string, d0: map<Bytes, Bytes>, i0: string,
                      d1: map<Bytes, Bytes>, i1: string, r: Result<string>) {
    match req
    case PutReq(ps) => PutStep(ps, d0, i0, d1, i1, r)
    case GetReq(k) =>
      d1 == d0 && i1 == i0 && (r.Ok? ==> r.value == ShellShow(Lookup(d0, Encode(k))))
    case DelReq(k) =>
      i1 == i0
      && (r.Ok? ==> d1 == d0 - {Encode(k)}
                    && r.value == if Encode(k) in d0 then "Key deleted" else "Key not found")
      && (r.Err? ==> d1 == d0)
    case IdGetReq => d1 == d0 && i1 == i0 && r == Ok(i0)
    case IdSetReq(id) =>
      d1 == d0
      && (r.Ok? ==> i1 == id && r.value == IdentifierSetMessage(id))
      && (r.Err? ==> i1 == i0)
    case CompactReq => d1 == d0 && i1 == i0 && (r.Ok? ==> r.value == "Database compacted")
    case UnknownReq => d1 == d0 && i1 == i0 && r == Err("Unknown command: " + command)
  }

  /** The outcomes the server allows for `req`. */
  predicate ServerStep(req: Request, d0: map<Bytes, Bytes>, i0: string,
                       d1: map<Bytes, Bytes>, i1: string, r: Result<string>) {
    match req
    case PutReq(ps) => PutStep(ps, d0, i0, d1, i1, r)
    case GetReq(k) =>
      d1 == d0 && i1 == i0 && (r.Ok? ==> r.value == ServerShow(Lookup(d0, Encode(k))))
    case DelReq(k) =>
      i1 == i0
      && (r.Ok? ==> d1 == d0 - {Encode(k)} && r.value == "Key deleted")
      && (r.Err? ==> d1 == d0)
    case IdGetReq => d1 == d0 && i1 == i0 && r == Ok(i0)
    case IdSetReq(id) =>
      d1 == d0
      && (r.Ok? ==> i1 == id && r.value == IdentifierSetMessage(id))
      && (r.Err? ==> i1 == i0)
    case CompactReq => d1 == d0 && i1 == i0 && (r.Ok? ==> r.value == "Database compacted")
    case UnknownReq => d1 == d0 && i1 == i0 && r == Err("Unknown command")
  }

  /** Deleting a key that is not there: the shell answers "Key not found" and
      the server "Key deleted", and neither changes the contents. */
  lemma DeleteAbsentKey(k: string, d0: map<Bytes, Bytes>, i0: string, d1: map<Bytes, Bytes>, i1: string,
                        r1: Result<string>, r2: Result<string>)
    requires Encode(k) !in d0
    requires ShellStep(DelReq(k), "", d0, i0, d1, i1, r1) && r1.Ok?
    ensures r1.value == "Key not found" && d1 == d0
    ensures ServerStep(DelReq(k), d0, i0, d1, i1, Ok("Key deleted"))
  {
    assert d0 - {Encode(k)} == d0;
  }
}
