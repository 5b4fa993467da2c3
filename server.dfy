/** The HTTP executor of src/server.rs: a batch body of `;`-separated commands
    run one after another against the session's store, and the JSON batch
    PUT. Sessions, locking, routing and the JSON envelope are not modelled;
    a response is its status code and its `status` text. */
module Server {
  import opened Wrappers
  import opened Bytes
  import opened Text
  import opened Utf8
  import opened Store
  import opened Commands
  import opened Dispatch

  /** `parse_and_execute`: one trimmed segment, recognised in the server's order. */
  method ParseAndExecute(segment: string, store: KVStore) returns (r: Result<string>)
    modifies store
    ensures ServerStep(ServerRequest(Trim(segment)), old(store.data), old(store.identifier),
                       store.data, store.identifier, r)
  {
    var c := Trim(segment);
    var kvs := ParsePutCommand(c);
    if kvs.Ok? {
      r := PutEach(kvs.value, store);
      return;
    }
    var key := ParseGetCommand(c);
    if key.Ok? {
      var found := store.Get(Encode(key.value));
      if found.Err? {
        return Err(found.msg);
      }
      if found.value.Some? {
        var text := Decode(found.value.value);
        return Ok(if text.Some? then text.value else "<BINARY>");
      }
      return Ok("Key not found");
    }
    key := ParseDeleteCommand(c);
    if key.Ok? {
      var o := store.Delete(Encode(key.value));
      if o.Fail? {
        return Err(o.msg);
      }
      return Ok("Key deleted");
    }
    if ParseCompact(c).Ok? {
      var o := store.Compact();
      if o.Fail? {
        return Err(o.msg);
      }
      return Ok("Database compacted");
    }
    if ParseIdentifierGet(c).Ok? {
      var id := store.GetIdentifier();
      return Ok(id);
    }
    var id := ParseIdentifierSet(c);
    if id.Ok? {
      var o := store.SetIdentifier(id.value);
      if o.Fail? {
        return Err(o.msg);
      }
      return Ok(IdentifierSetMessage(id.value));
    }
    r := Err("Unknown command");
  }

  /** The PUT branch of `parse_and_execute`: put the pairs in order, stopping
      at the first failure, and count the successes. */
  method PutEach(ps: seq<Pair>, store: KVStore) returns (r: Result<string>)
    modifies store
    ensures PutStep(ps, old(store.data), old(store.identifier), store.data, store.identifier, r)
  {
    var success := 0;
    for i := 0 to |ps|
      invariant success == i
      invariant store.data == ApplyPuts(old(store.data), ps[..i])
      invariant store.identifier == old(store.identifier)
    {
      var o := store.Put(Encode(ps[i].key), Encode(ps[i].value));
      if o.Fail? {
        return Err(o.msg);
      }
      ApplyPutsSnoc(old(store.data), ps, i);
      success := success + 1;
    }
    assert ps[..|ps|] == ps;
    return Ok(InsertedMessage(success));
  }

  /** The segments of a body that are executed: the pieces between `;`s, in
      order, except those that are exactly empty or exactly one space. */
  function Executed(parts: seq<string>): (r: seq<string>)
    decreases |parts|
    ensures |r| <= |parts|
  {
    if parts == [] then []
    else
      var rest := Executed(parts[1..]);
      if parts[0] == "" || parts[0] == " " then rest else [parts[0]] + rest
  }

  /** A segment is executed exactly when it is one of the parts and is
      neither empty nor a single space. */
  lemma {:induction false} ExecutedMembers(parts: seq<string>)
    ensures forall s :: s in Executed(parts) <==> s in parts && s != "" && s != " "
    decreases |parts|
  {
    if parts != [] {
      ExecutedMembers(parts[1..]);
      assert forall s :: s in parts <==> s == parts[0] || s in parts[1..];
    }
  }

  /** What one executed segment adds to the reply: the untrimmed segment, its
      result or `Error: ` and the message, and a `;`, all between quotes. */
  function Entry(segment: string, r: Result<string>): string {
    "\"" + segment + ": " + (match r case Ok(v) => v case Err(m) => "Error: " + m) + ";\""
  }

  function Entries(segments: seq<string>, results: seq<Result<string>>): (es: seq<string>)
    requires |segments| == |results|
    ensures |es| == |segments|
    ensures forall i :: 0 <= i < |es| ==> es[i] == Entry(segments[i], results[i])
  {
    seq(|segments|, i requires 0 <= i < |segments| => Entry(segments[i], results[i]))
  }

  /** A segment that is only whitespace other than a single space is still run,
      and reported. */
  lemma WhitespaceSegmentRuns(before: string, ws: string, after: string)
    requires ws != "" && ws != " " && forall i :: 0 <= i < |ws| ==> ws[i] != ';'
    ensures ws in Executed(SplitOn(before + ";" + ws + ";" + after, ";"))
  {
    var s := before + ";" + ws + ";" + after;
    var parts := SplitOn(s, ";");
    assert ws in parts by {
      InSplit(before, ws, after);
    }
    ExecutedMembers(parts);
  }

  /** A piece between two `;`s that contains none is one of the split's parts. */
  lemma {:induction false} InSplit(before: string, mid: string, after: string)
    requires forall i :: 0 <= i < |mid| ==> mid[i] != ';'
    ensures mid in SplitOn(before + ";" + mid + ";" + after, ";")
    decreases |before|
  {
    var s := before + ";" + mid + ";" + after;
    assert OccursAt(s, ";", |before|);
    var i := IndexOf(s, ";").value;
    SplitCons(s, ";", i);
    if i == |before| {
      DropThrough(before, mid, after, i);
      FirstSeparator(mid, after);
      SplitCons(mid + ";" + after, ";", |mid|);
    } else {
      DropThrough(before, mid, after, i);
      InSplit(before[i + 1..], mid, after);
    }
  }

  /** What follows position `i` of `before;mid;after`. */
  lemma DropThrough(before: string, mid: string, after: string, i: nat)
    requires i <= |before|
    ensures i < |before| ==> (before + ";" + mid + ";" + after)[i + 1..] == before[i + 1..] + ";" + mid + ";" + after
    ensures i == |before| ==> (before + ";" + mid + ";" + after)[i + 1..] == mid + ";" + after
  {
    var tail := ";" + mid + ";" + after;
    assert before + ";" + mid + ";" + after == before + tail;
    if i < |before| {
      assert (before + tail)[i + 1..] == before[i + 1..] + tail;
      assert before[i + 1..] + ";" + mid + ";" + after == before[i + 1..] + tail;
    } else {
      assert (before + tail)[i + 1..] == tail[1..];
    }
  }

  /** Splitting at a first separator at `i`: the text before it, then the rest split. */
  lemma SplitCons(s: string, sep: string, i: nat)
    requires sep != [] && IndexOf(s, sep) == Some(i)
    ensures SplitOn(s, sep) == [s[..i]] + SplitOn(s[i + |sep|..], sep)
  {
  }

  /** The first `;` of `mid;after` closes `mid` when `mid` has none. */
  lemma FirstSeparator(mid: string, after: string)
    requires forall i :: 0 <= i < |mid| ==> mid[i] != ';'
    ensures IndexOf(mid + ";" + after, ";") == Some(|mid|)
    ensures (mid + ";" + after)[..|mid|] == mid
  {
    var rest := mid + ";" + after;
    assert OccursAt(rest, ";", |mid|);
    forall j | 0 <= j < |mid|
      ensures !OccursAt(rest, ";", j)
    {
      assert rest[j..j + 1][0] == mid[j];
    }
  }

  /** The `/api/execute` handler: with no store open, 400 and "No database
      open"; otherwise 200 and the entries of the executed segments, in order,
      joined by single spaces. A failing segment does not stop the ones after
      it. `datas` and `ids` are the store's contents and identifier before
      each segment and after the last. */
  method ExecuteBody(body: string, store: KVStore?)
    returns (code: int, status: string, ghost results: seq<Result<string>>,
             ghost datas: seq<map<Bytes, Bytes>>, ghost ids: seq<string>)
    modifies store
    ensures store == null ==> code == 400 && status == "No database open"
    ensures store != null ==>
      var segs := Executed(SplitOn(body, ";"));
      code == 200
      && |results| == |segs| && |datas| == |segs| + 1 && |ids| == |segs| + 1
      && status == JoinWith(Entries(segs, results), " ")
      && datas[0] == old(store.data) && ids[0] == old(store.identifier)
      && datas[|segs|] == store.data && ids[|segs|] == store.identifier
      && forall i :: 0 <= i < |segs| ==>
           ServerStep(ServerRequest(Trim(segs[i])), datas[i], ids[i], datas[i + 1], ids[i + 1], results[i])
  {
    if store == null {
      return 400, "No database open", [], [], [];
    }
    var parts := SplitOn(body, ";");
    var arr;
    ghost var segs;
    arr, segs, results, datas, ids := ExecuteParts(parts, store);
    StepsOfSegments(segs, results, datas, ids);
    code, status := 200, JoinWith(arr, " ");
  }

  /** The loop of the `/api/execute` handler over the parts of the body: each
      executed part runs against the store in turn, and its entry is recorded. */
  method ExecuteParts(parts: seq<string>, store: KVStore)
    returns (arr: seq<string>, ghost segs: seq<string>, ghost results: seq<Result<string>>,
             ghost datas: seq<map<Bytes, Bytes>>, ghost ids: seq<string>)
    modifies store
    ensures segs == Executed(parts) && Steps(Requests(segs), results, datas, ids)
    ensures arr == Entries(segs, results)
    ensures datas[0] == old(store.data) && ids[0] == old(store.identifier)
    ensures datas[|segs|] == store.data && ids[|segs|] == store.identifier
  {
    arr, segs := [], [];
    results, datas, ids := [], [store.data], [store.identifier];
    for j := 0 to |parts|
      invariant segs == Executed(parts[..j])
      invariant Steps(Requests(segs), results, datas, ids)
      invariant arr == Entries(segs, results)
      invariant datas[0] == old(store.data) && ids[0] == old(store.identifier)
      invariant datas[|segs|] == store.data && ids[|segs|] == store.identifier
    {
      var cmd := parts[j];
      ExecutedSnoc(parts, j);
      if cmd == "" || cmd == " " {
        continue;
      }
      var r := ParseAndExecute(cmd, store);
      EntriesSnoc(segs, results, cmd, r);
      StepsSnoc(Requests(segs), results, datas, ids, ServerRequest(Trim(cmd)), r, store.data, store.identifier);
      RequestsSnoc(segs, cmd);
      arr := arr + [Entry(cmd, r)];
      segs := segs + [cmd];
      results := results + [r];
      datas := datas + [store.data];
      ids := ids + [store.identifier];
    }
    assert parts[..|parts|] == parts;
  }

  /** The request each segment asks for, in order. */
  function Requests(segs: seq<string>): (reqs: seq<Request>)
    ensures |reqs| == |segs|
  {
    seq(|segs|, i requires 0 <= i < |segs| => ServerRequest(Trim(segs[i])))
  }

  lemma RequestsSnoc(segs: seq<string>, seg: string)
    ensures Requests(segs + [seg]) == Requests(segs) + [ServerRequest(Trim(seg))]
  {
    var a, b := Requests(segs + [seg]), Requests(segs) + [ServerRequest(Trim(seg))];
    forall i | 0 <= i < |a|
      ensures a[i] == b[i]
    {
      if i < |segs| {
        assert (segs + [seg])[i] == segs[i];
      }
    }
  }

  /** Request `i` took the store from `datas[i]`, `ids[i]` to `datas[i + 1]`,
      `ids[i + 1]` with result `results[i]`. */
  ghost predicate Steps(reqs: seq<Request>, results: seq<Result<string>>,
                        datas: seq<map<Bytes, Bytes>>, ids: seq<string>) {
    |results| == |reqs| && |datas| == |reqs| + 1 && |ids| == |reqs| + 1
    && forall i :: 0 <= i < |reqs| ==> ServerStep(reqs[i], datas[i], ids[i], datas[i + 1], ids[i + 1], results[i])
  }

  /** The steps of the requests, segment by segment. */
  lemma StepsOfSegments(segs: seq<string>, results: seq<Result<string>>,
                        datas: seq<map<Bytes, Bytes>>, ids: seq<string>)
    requires Steps(Requests(segs), results, datas, ids)
    ensures |results| == |segs| && |datas| == |segs| + 1 && |ids| == |segs| + 1
    ensures forall i :: 0 <= i < |segs| ==>
      ServerStep(ServerRequest(Trim(segs[i])), datas[i], ids[i], datas[i + 1], ids[i + 1], results[i])
  {
    var reqs := Requests(segs);
    forall i | 0 <= i < |segs|
      ensures ServerStep(ServerRequest(Trim(segs[i])), datas[i], ids[i], datas[i + 1], ids[i + 1], results[i])
    {
      assert reqs[i] == ServerRequest(Trim(segs[i]));
    }
  }

  lemma StepsSnoc(reqs: seq<Request>, results: seq<Result<string>>,
                  datas: seq<map<Bytes, Bytes>>, ids: seq<string>,
                  req: Request, r: Result<string>, data: map<Bytes, Bytes>, id: string)
    requires Steps(reqs, results, datas, ids)
    requires ServerStep(req, datas[|reqs|], ids[|reqs|], data, id, r)
    ensures Steps(reqs + [req], results + [r], datas + [data], ids + [id])
  {
    var reqs', results', datas', ids' := reqs + [req], results + [r], datas + [data], ids + [id];
    forall i | 0 <= i < |reqs'|
      ensures ServerStep(reqs'[i], datas'[i], ids'[i], datas'[i + 1], ids'[i + 1], results'[i])
    {
      if i < |reqs| {
        assert reqs'[i] == reqs[i] && results'[i] == results[i];
        assert datas'[i] == datas[i] && datas'[i + 1] == datas[i + 1];
        assert ids'[i] == ids[i] && ids'[i + 1] == ids[i + 1];
      }
    }
  }

  lemma EntriesSnoc(segs: seq<string>, results: seq<Result<string>>, seg: string, r: Result<string>)
    requires |segs| == |results|
    ensures Entries(segs + [seg], results + [r]) == Entries(segs, results) + [Entry(seg, r)]
  {
  }

  /** Extending the parts by one extends the executed segments by at most that one. */
  lemma {:induction false} ExecutedSnoc(parts: seq<string>, j: nat)
    requires j < |parts|
    ensures Executed(parts[..j + 1])
         == Executed(parts[..j]) + (if parts[j] == "" || parts[j] == " " then [] else [parts[j]])
    decreases j
  {
    if j > 0 {
      ExecutedSnoc(parts[1..], j - 1);
      assert parts[1..][..j] == parts[..j + 1][1..];
      assert parts[1..][..j - 1] == parts[..j][1..];
    }
  }

  /** One item of a `/api/put` body: a key and an optional value. */
  datatype Item = Item(key: string, value: Option<string>)

  /** The items that carry a value, as pairs, in order. */
  function Valued(items: seq<Item>): (ps: seq<Pair>)
    decreases |items|
    ensures |ps| <= |items|
    ensures forall p :: p in ps ==> Item(p.key, Some(p.value)) in items
  {
    if items == [] then []
    else
      var init := Valued(items[..|items| - 1]);
      var last := items[|items| - 1];
      if last.value.Some? then init + [Pair(last.key, last.value.value)] else init
  }

  /** `Valued` is a filter: it distributes over concatenation, keeping a
      single item exactly when it carries a value. */
  lemma {:induction false} ValuedConcat(a: seq<Item>, b: seq<Item>)
    ensures Valued(a + b) == Valued(a) + Valued(b)
    ensures |b| == 1 ==> Valued(b) == if b[0].value.Some? then [Pair(b[0].key, b[0].value.value)] else []
    decreases |b|
  {
    if b == [] {
      assert a + b == a;
    } else {
      var b' := b[..|b| - 1];
      assert (a + b)[..|a + b| - 1] == a + b';
      assert b[..|b| - 1] == b';
      ValuedConcat(a, b');
      if |b| == 1 {
        assert b' == [];
      }
    }
  }

  /** The pairs whose put succeeded (`ok`), in order. */
  function Passed(ps: seq<Pair>, ok: seq<bool>): seq<Pair>
    requires |ps| == |ok|
    decreases |ps|
  {
    if ps == [] then []
    else
      var n := |ps| - 1;
      if ok[n] then Passed(ps[..n], ok[..n]) + [ps[n]] else Passed(ps[..n], ok[..n])
  }

  /** `"{key}: {error}"` for every pair whose put failed, in order. */
  function Failed(ps: seq<Pair>, ok: seq<bool>, msgs: seq<string>): seq<string>
    requires |ps| == |ok| == |msgs|
    decreases |ps|
  {
    if ps == [] then []
    else
      var n := |ps| - 1;
      var init := Failed(ps[..n], ok[..n], msgs[..n]);
      if ok[n] then init else init + [ps[n].key + ": " + msgs[n]]
  }

  /** Every pair either passed or failed, and nothing failed exactly when
      every put passed, in which case all pairs were applied. */
  lemma OutcomeCounts(ps: seq<Pair>, ok: seq<bool>, msgs: seq<string>)
    requires |ps| == |ok| == |msgs|
    ensures |Failed(ps, ok, msgs)| + |Passed(ps, ok)| == |ps|
    ensures Failed(ps, ok, msgs) == [] <==> forall j :: 0 <= j < |ok| ==> ok[j]
    ensures (forall j :: 0 <= j < |ok| ==> ok[j]) ==> Passed(ps, ok) == ps
  {
    CountsAdd(ps, ok, msgs);
    FailedNone(ps, ok, msgs);
    PassedAll(ps, ok);
  }

  lemma {:induction false} CountsAdd(ps: seq<Pair>, ok: seq<bool>, msgs: seq<string>)
    requires |ps| == |ok| == |msgs|
    ensures |Failed(ps, ok, msgs)| + |Passed(ps, ok)| == |ps|
    decreases |ps|
  {
    if ps != [] {
      var n := |ps| - 1;
      CountsAdd(ps[..n], ok[..n], msgs[..n]);
    }
  }

  lemma {:induction false} FailedNone(ps: seq<Pair>, ok: seq<bool>, msgs: seq<string>)
    requires |ps| == |ok| == |msgs|
    ensures Failed(ps, ok, msgs) == [] <==> forall j :: 0 <= j < |ok| ==> ok[j]
    decreases |ps|
  {
    if ps != [] {
      var n := |ps| - 1;
      FailedNone(ps[..n], ok[..n], msgs[..n]);
      assert forall j :: 0 <= j < n ==> ok[..n][j] == ok[j];
    }
  }

  lemma {:induction false} PassedAll(ps: seq<Pair>, ok: seq<bool>)
    requires |ps| == |ok|
    ensures (forall j :: 0 <= j < |ok| ==> ok[j]) ==> Passed(ps, ok) == ps
    decreases |ps|
  {
    if ps != [] && forall j :: 0 <= j < |ok| ==> ok[j] {
      var n := |ps| - 1;
      assert forall j :: 0 <= j < n ==> ok[..n][j] == ok[j];
      PassedAll(ps[..n], ok[..n]);
      assert ps == ps[..n] + [ps[n]];
    }
  }

  lemma OutcomeSnoc(ps: seq<Pair>, ok: seq<bool>, msgs: seq<string>, p: Pair, b: bool, msg: string)
    requires |ps| == |ok| == |msgs|
    ensures Passed(ps + [p], ok + [b]) == Passed(ps, ok) + (if b then [p] else [])
    ensures Failed(ps + [p], ok + [b], msgs + [msg]) == Failed(ps, ok, msgs) + (if b then [] else [p.key + ": " + msg])
  {
    assert (ps + [p])[..|ps|] == ps;
    assert (ok + [b])[..|ok|] == ok;
    assert (msgs + [msg])[..|msgs|] == msgs;
  }

  /** Rust's `{:?}` of the error list, without the escaping Debug applies
      inside each string. */
  function DebugList(errors: seq<string>): string {
    "[" + JoinWith(seq(|errors|, i requires 0 <= i < |errors| => "\"" + errors[i] + "\""), ", ") + "]"
  }

  /** The `/api/put` handler: items without a value are skipped and every
      put is tried; `ok[j]` says whether the put of the `j`-th valued item
      passed and `msgs[j]` is the store's error otherwise. 200 with the count
      when nothing failed, 206 with the count and the errors otherwise. */
  method PutValue(items: seq<Item>, store: KVStore?)
    returns (code: int, status: string, ghost ok: seq<bool>, ghost msgs: seq<string>)
    modifies store
    ensures store == null ==> code == 400 && status == "No database open"
    ensures store != null ==>
      |ok| == |msgs| == |Valued(items)|
      && var applied := Passed(Valued(items), ok);
         var errors := Failed(Valued(items), ok, msgs);
         store.data == ApplyPuts(old(store.data), applied)
         && store.identifier == old(store.identifier)
         && (code == 200 <==> errors == [])
         && (errors == [] ==> applied == Valued(items) && status == InsertedMessage(|applied|))
         && (errors != [] ==>
               code == 206 && status == "Inserted " + NatToString(|applied|) + ", errors: " + DebugList(errors))
  {
    if store == null {
      return 400, "No database open", [], [];
    }
    var success, errs;
    success, errs, ok, msgs := PutItems(items, store);
    OutcomeCounts(Valued(items), ok, msgs);
    if errs == [] {
      code, status := 200, InsertedMessage(success);
    } else {
      code, status := 206, "Inserted " + NatToString(success) + ", errors: " + DebugList(errs);
    }
  }

  /** The loop of `put_value`: every valued item is put in order; `success`
      counts the puts that passed and `errs` reports the others. */
  method PutItems(items: seq<Item>, store: KVStore)
    returns (success: nat, errs: seq<string>, ghost ok: seq<bool>, ghost msgs: seq<string>)
    modifies store
    ensures |ok| == |msgs| == |Valued(items)|
    ensures success == |Passed(Valued(items), ok)|
    ensures errs == Failed(Valued(items), ok, msgs)
    ensures store.data == ApplyPuts(old(store.data), Passed(Valued(items), ok))
    ensures store.identifier == old(store.identifier)
  {
    success, errs := 0, [];
    ok, msgs := [], [];
    ghost var vs: seq<Pair> := [];
    assert items[..0] == [];
    for i := 0 to |items|
      invariant vs == Valued(items[..i])
      invariant Tracked(vs, ok, msgs, errs, success, old(store.data), store.data)
      invariant store.identifier == old(store.identifier)
    {
      ValuedStep(items, i);
      var kv := items[i];
      if kv.value.Some? {
        var p := Pair(kv.key, kv.value.value);
        ghost var before := store.data;
        var o := store.Put(Encode(kv.key), Encode(kv.value.value));
        if o.Fail? {
          TrackedFail(vs, ok, msgs, errs, success, old(store.data), before, p, o.msg);
          errs := errs + [kv.key + ": " + o.msg];
          ok, msgs := ok + [false], msgs + [o.msg];
        } else {
          TrackedPass(vs, ok, msgs, errs, success, old(store.data), before, p);
          ok, msgs := ok + [true], msgs + [""];
          success := success + 1;
        }
        vs := vs + [p];
      }
    }
    assert items[..|items|] == items;
  }

  /** The state of the `put_value` loop after the valued pairs `vs`. */
  ghost predicate Tracked(vs: seq<Pair>, ok: seq<bool>, msgs: seq<string>, errs: seq<string>, success: nat,
                          m0: map<Bytes, Bytes>, m: map<Bytes, Bytes>)
  {
    |ok| == |msgs| == |vs|
    && errs == Failed(vs, ok, msgs)
    && success == |Passed(vs, ok)|
    && m == ApplyPuts(m0, Passed(vs, ok))
  }

  lemma TrackedPass(vs: seq<Pair>, ok: seq<bool>, msgs: seq<string>, errs: seq<string>, success: nat,
                    m0: map<Bytes, Bytes>, m: map<Bytes, Bytes>, p: Pair)
    requires Tracked(vs, ok, msgs, errs, success, m0, m)
    ensures Tracked(vs + [p], ok + [true], msgs + [""], errs, success + 1, m0, m[Encode(p.key) := Encode(p.value)])
  {
    OutcomeSnoc(vs, ok, msgs, p, true, "");
    ApplyPutsAppend(m0, Passed(vs, ok), p);
  }

  lemma TrackedFail(vs: seq<Pair>, ok: seq<bool>, msgs: seq<string>, errs: seq<string>, success: nat,
                    m0: map<Bytes, Bytes>, m: map<Bytes, Bytes>, p: Pair, msg: string)
    requires Tracked(vs, ok, msgs, errs, success, m0, m)
    ensures Tracked(vs + [p], ok + [false], msgs + [msg], errs + [p.key + ": " + msg], success, m0, m)
  {
    OutcomeSnoc(vs, ok, msgs, p, false, msg);
  }

  lemma ValuedStep(items: seq<Item>, i: nat)
    requires i < |items|
    ensures items[i].value.Some? ==> Valued(items[..i + 1]) == Valued(items[..i]) + [Pair(items[i].key, items[i].value.value)]
    ensures items[i].value.None? ==> Valued(items[..i + 1]) == Valued(items[..i])
  {
    ValuedConcat(items[..i], [items[i]]);
    assert items[..i + 1] == items[..i] + [items[i]];
  }

  lemma ApplyPutsAppend(m: map<Bytes, Bytes>, ps: seq<Pair>, p: Pair)
    ensures ApplyPuts(m, ps + [p]) == ApplyPuts(m, ps)[Encode(p.key) := Encode(p.value)]
  {
    assert (ps + [p])[..|ps|] == ps;
  }
}
