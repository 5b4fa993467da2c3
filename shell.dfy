/** The interactive shell of src/shell.rs: a store that may or may not be
    open, the path it was opened from, meta commands that open and close it,
    and data commands run against it. Reading lines from the terminal, the
    y/n question asked before creating a file, and whether the file exists are
    parameters of the methods below. */
module Shell {
  import opened Wrappers
  import opened Bytes
  import opened Text
  import opened Utf8
  import opened Store
  import opened Commands
  import opened Dispatch

  /** `trim_start_matches(p)`: drop `p` from the front as many times as it occurs there. */
  function TrimStartMatches(s: string, p: string): (r: string)
    requires p != []
    decreases |s|
    ensures |r| <= |s| && s[|s| - |r|..] == r
    ensures !StartsWith(r, p)
  {
    if StartsWith(s, p) then
      var t := s[|p|..];
      var r := TrimStartMatches(t, p);
      assert s[|s| - |r|..] == t[|t| - |r|..];
      r
    else s
  }

  /** The path `.open` is given: the text after every leading `.open`, trimmed. */
  function OpenPath(command: string): string {
    Trim(TrimStartMatches(command, ".open"))
  }

  /** Dropping one copy of the prefix by hand changes nothing. */
  lemma TrimStartMatchesPrefix(p: string, s: string)
    requires p != []
    ensures TrimStartMatches(p + s, p) == TrimStartMatches(s, p)
  {
    assert (p + s)[..|p|] == p;
    assert (p + s)[|p|..] == s;
  }

  /** `.open` needs no space before its path: `.openfoo` opens `foo`, and a
      repeated `.open.open foo` opens `foo` as well. */
  lemma OpenGluedPath(p: string)
    requires !StartsWith(p, ".open")
    ensures OpenPath(".open" + p) == Trim(p)
    ensures OpenPath(".open" + (".open" + p)) == Trim(p)
  {
    TrimStartMatchesPrefix(".open", p);
    TrimStartMatchesPrefix(".open", ".open" + p);
  }

  /** The answer to "Create new database? (y/n)" counts as yes when, trimmed
      and lower-cased, it is `y`; only `y` and `Y` lower-case to `y`. */
  predicate IsYes(answer: string) {
    Trim(answer) == "y" || Trim(answer) == "Y"
  }

  function OpenedMessage(existed: bool): string {
    "Database " + (if existed then "existing" else "new") + " opened successfully"
  }

  /** The last component of a `/`-separated path, as `Path::file_name` finds
      it: empty components and `.` are skipped, and a final `..` has no name. */
  function LastComponent(parts: seq<string>): (r: Option<string>)
    decreases |parts|
    ensures r.Some? ==> r.value in parts && r.value != "" && r.value != "." && r.value != ".."
  {
    if parts == [] then None
    else
      var p := parts[|parts| - 1];
      if p == "" || p == "." then
        var r := LastComponent(parts[..|parts| - 1]);
        assert r.Some? ==> r.value in parts[..|parts| - 1];
        r
      else if p == ".." then None
      else Some(p)
  }

  /** `Path::new(path).file_name()` on a `/`-separated path. */
  function FileName(path: string): (r: Option<string>)
    ensures r.Some? ==> r.value != "" && r.value != "." && r.value != ".."
                        && forall i :: 0 <= i < |r.value| ==> r.value[i] != '/'
  {
    var r := LastComponent(SplitOn(path, "/"));
    if r.Some? then
      ComponentHasNoSlash(path, r.value);
      r
    else r
  }

  /** A component of a `/`-split has no `/` in it. */
  lemma ComponentHasNoSlash(path: string, c: string)
    requires c in SplitOn(path, "/")
    ensures forall i :: 0 <= i < |c| ==> c[i] != '/'
  {
    SplitPartsAvoidSep(path, "/");
    forall i | 0 <= i < |c|
      ensures c[i] != '/'
    {
      if c[i] == '/' {
        assert OccursAt(c, "/", i);
        ContainsAt(c, "/", i);
      }
    }
  }

  /** Splitting a path whose last piece has no `/` ends with that piece. */
  lemma {:induction false} SplitLast(a: string, b: string)
    requires forall i :: 0 <= i < |b| ==> b[i] != '/'
    ensures var parts := SplitOn(a + "/" + b, "/"); parts[|parts| - 1] == b
    decreases |a|
  {
    var s := a + "/" + b;
    assert OccursAt(s, "/", |a|);
    var i := IndexOf(s, "/").value;
    if i == |a| {
      assert s[i + 1..] == b;
      forall j | 0 <= j <= |b|
        ensures !OccursAt(b, "/", j)
      {
        if j + 1 <= |b| { assert b[j..j + 1][0] == b[j]; }
      }
    } else {
      assert s[i + 1..] == a[i + 1..] + "/" + b;
      SplitLast(a[i + 1..], b);
    }
  }

  /** A path ending in a plain file name shows that name in the prompt. */
  lemma FileNameOfPath(dir: string, name: string)
    requires name != "" && name != "." && name != ".."
    requires forall i :: 0 <= i < |name| ==> name[i] != '/'
    ensures FileName(dir + "/" + name) == Some(name)
  {
    SplitLast(dir, name);
  }

  /** `". ".repeat(n)`. */
  function Dots(n: nat): (r: string)
    ensures |r| == 2 * n
    ensures forall i :: 0 <= i < |r| ==> r[i] == if i % 2 == 0 then '.' else ' '
  {
    if n == 0 then [] else ". " + Dots(n - 1)
  }

  /** The continuation prompt: `". ".repeat(len / 2 - 1) + "> "`, where `len`
      counts the characters of the prompt; `len` is at least 2 or the
      subtraction underflows. */
  function WaitPrompt(prompt: string): (r: string)
    requires |prompt| >= 2
    ensures |r| == 2 * (|prompt| / 2) && r[|r| - 2..] == "> "
  {
    Dots(|prompt| / 2 - 1) + "> "
  }

  /** The text accumulated from `first` and the first `n` continuation lines:
      each line trimmed and appended with nothing in between. */
  function Joined(first: string, lines: seq<string>, n: nat): string
    requires n <= |lines|
  {
    if n == 0 then first else Joined(first, lines, n - 1) + Trim(lines[n - 1])
  }

  predicate EndsWithSemicolon(s: string) {
    s != [] && s[|s| - 1] == ';'
  }

  /** One command of `run`: the trimmed line `input` (skipped when blank),
      extended by the following lines `more` until the text ends with `;` or
      the input runs out, with that final `;` removed. `used` is how many lines
      of `more` were read. */
  method ReadCommand(input: string, more: seq<string>) returns (command: Option<string>, used: nat)
    ensures Trim(input) == [] ==> command == None && used == 0
    ensures Trim(input) != [] ==> command.Some? && Gathered(Trim(input), more, command.value, used)
  {
    var first := Trim(input);
    if first == [] {
      return None, 0;
    }
    var text;
    text, used := Accumulate(first, more);
    command := Some(text);
  }

  /** None of the texts after fewer than `n` lines ends in `;`. */
  ghost predicate OpenBefore(first: string, more: seq<string>, n: nat)
    requires n <= |more|
  {
    forall j :: 0 <= j < n ==> !EndsWithSemicolon(Joined(first, more, j))
  }

  /** `command` is what `run` passes on after starting from `first` and reading
      `used` lines of `more`: it stopped at the first text ending in `;`, or ran
      out of lines, and dropped that `;`. */
  ghost predicate Gathered(first: string, more: seq<string>, command: string, used: nat) {
    used <= |more| && OpenBefore(first, more, used)
    && var text := Joined(first, more, used);
       (EndsWithSemicolon(text) ==> command == text[..|text| - 1])
       && (!EndsWithSemicolon(text) ==> used == |more| && command == text)
  }

  /** A text that does not end in `;` keeps the reading going. */
  lemma OpenNext(first: string, more: seq<string>, n: nat)
    requires n < |more| && OpenBefore(first, more, n)
    requires !EndsWithSemicolon(Joined(first, more, n))
    ensures OpenBefore(first, more, n + 1)
  {
  }

  /** The inner loop of `run`: append trimmed lines until the text ends with `;`. */
  method Accumulate(first: string, more: seq<string>) returns (command: string, used: nat)
    ensures Gathered(first, more, command, used)
  {
    var text := first;
    used := 0;
    while !EndsWithSemicolon(text)
      invariant used <= |more|
      invariant text == Joined(first, more, used)
      invariant OpenBefore(first, more, used)
      decreases |more| - used
    {
      if used == |more| {
        break;
      }
      OpenNext(first, more, used);
      text := text + Trim(more[used]);
      used := used + 1;
    }
    command := if EndsWithSemicolon(text) then text[..|text| - 1] else text;
  }

  class Shell {
    var store: KVStore?
    var currentPath: Option<string>

    /** `Shell::new`: nothing open. */
    constructor ()
      ensures store == null && currentPath == None
    {
      store := null;
      currentPath := None;
    }

    /** `get_prompt`: the file name of the open path, or `KVStore`. */
    function Prompt(): (p: string)
      reads this
      ensures |p| >= 4 && p[0] == '\n' && p[|p| - 3..] == " > "
      ensures currentPath.None? ==> p == "\nKVStore > "
      ensures currentPath.Some? && FileName(currentPath.value).Some? ==>
                p[1..|p| - 3] == FileName(currentPath.value).value
      ensures currentPath.Some? && FileName(currentPath.value).None? ==>
                p == "\n" + currentPath.value + " > "
    {
      var name := match currentPath
        case None => "KVStore"
        case Some(path) => if FileName(path).Some? then FileName(path).value else path;
      "\n" + name + " > "
    }

    /** `handle_put_command`: put the pairs in order, stopping at the first failure. */
    method HandlePut(kvs: seq<Pair>) returns (r: Result<string>)
      modifies store
      ensures store == null ==> r == Err("No database open")
      ensures store != null ==>
        PutStep(kvs, old(store.data), old(store.identifier), store.data, store.identifier, r)
    {
      var s := store;
      if s == null {
        return Err("No database open");
      }
      var i := 0;
      while i < |kvs|
        invariant 0 <= i <= |kvs|
        invariant s.data == ApplyPuts(old(s.data), kvs[..i])
        invariant s.identifier == old(s.identifier)
      {
        var o := s.Put(Encode(kvs[i].key), Encode(kvs[i].value));
        if o.Fail? {
          return Err(o.msg);
        }
        ApplyPutsSnoc(old(s.data), kvs, i);
        i := i + 1;
      }
      assert kvs[..i] == kvs;
      r := Ok(InsertedMessage(|kvs|));
    }

    /** `handle_get_command`: the value as text, or as a hex dump when it is
        not UTF-8; a miss is not an error. */
    method HandleGet(key: string) returns (r: Result<string>)
      ensures store == null ==> r == Err("No database open")
      ensures store != null && r.Ok? ==> r.value == ShellShow(Lookup(store.data, Encode(key)))
    {
      var s := store;
      if s == null {
        return Err("No database open");
      }
      var found := s.Get(Encode(key));
      if found.Err? {
        return Err(found.msg);
      }
      match found.value
      case None =>
        r := Ok("Key not found");
      case Some(v) =>
        match Decode(v)
        case Some(text) =>
          r := Ok(text);
        case None =>
          r := Ok("<BINARY DATA: " + HexDump(v) + ">");
    }

    /** `handle_delete_command`: delete only a key that `get` finds. */
    method HandleDelete(key: string) returns (r: Result<string>)
      modifies store
      ensures store == null ==> r == Err("No database open")
      ensures store != null ==>
        ShellStep(DelReq(key), "", old(store.data), old(store.identifier), store.data, store.identifier, r)
    {
      var s := store;
      if s == null {
        return Err("No database open");
      }
      var found := s.Get(Encode(key));
      if found.Err? {
        return Err(found.msg);
      }
      if found.value.Some? {
        var o := s.Delete(Encode(key));
        if o.Fail? {
          return Err(o.msg);
        }
        r := Ok("Key deleted");
      } else {
        assert old(s.data) - {Encode(key)} == old(s.data);
        r := Ok("Key not found");
      }
    }

    /** `handle_identifier_get`. */
    method HandleIdentifierGet() returns (r: Result<string>)
      ensures store == null ==> r == Err("No database open")
      ensures store != null ==> r == Ok(store.identifier)
    {
      if store == null {
        return Err("No database open");
      }
      var id := store.GetIdentifier();
      r := Ok(id);
    }

    /** `handle_identifier_set`. */
    method HandleIdentifierSet(id: string) returns (r: Result<string>)
      modifies store
      ensures store == null ==> r == Err("No database open")
      ensures store != null ==>
        ShellStep(IdSetReq(id), "", old(store.data), old(store.identifier), store.data, store.identifier, r)
    {
      var s := store;
      if s == null {
        return Err("No database open");
      }
      var o := s.SetIdentifier(id);
      if o.Fail? {
        return Err(o.msg);
      }
      r := Ok(IdentifierSetMessage(id));
    }

    /** `handle_compact`. */
    method HandleCompact() returns (r: Result<string>)
      ensures store == null ==> r == Err("No database open")
      ensures store != null && r.Ok? ==> r.value == "Database compacted"
    {
      if store == null {
        return Err("No database open");
      }
      var o := store.Compact();
      if o.Fail? {
        return Err(o.msg);
      }
      r := Ok("Database compacted");
    }

    /** `open_database`: close what is open, ask before creating a missing
        file, then open. The old store is gone even when the open fails.
        `closed` is false only when closing the old store failed. */
    method OpenDatabase(path: string, fileExists: bool, answer: string)
      returns (r: Result<string>, ghost closed: bool)
      modifies this
      ensures old(store) == null ==> closed
      ensures !closed ==> r.Err?
      ensures r.Ok? ==> store != null && fresh(store) && currentPath == Some(path)
                        && r.value == OpenedMessage(fileExists)
                        && (!fileExists ==> IsYes(answer) && store.data == map[])
      ensures r.Err? ==> store == null && currentPath == old(currentPath)
      ensures closed && !fileExists && !IsYes(answer) ==> r == Err("Database creation canceled")
    {
      closed := true;
      var old_ := store;
      if old_ != null {
        store := null;
        var o := old_.Close();
        if o.Fail? {
          closed := false;
          return Err(o.msg), closed;
        }
      }
      if !fileExists && !IsYes(answer) {
        return Err("Database creation canceled"), closed;
      }
      var made := KVStore.Open(path, !fileExists);
      if made.Err? {
        return Err(made.msg), closed;
      }
      store := made.value;
      currentPath := Some(path);
      r := Ok(OpenedMessage(fileExists));
    }

    /** What a meta command does, in the order `handle_meta_command` matches:
        `.quit` asks to exit, `.close` closes the open store, the output-only
        commands change nothing, `.open` opens the path after it, and anything
        else is unknown. */
    twostate predicate MetaEffect(command: string, fileExists: bool, answer: string,
                                  new r: Result<string>, quit: bool)
      reads this, store
    {
      (quit <==> command == ".quit")
      && (command == ".close" && old(store) == null ==>
        r == Err("No database open") && store == null && currentPath == old(currentPath))
      && (command == ".close" && old(store) != null ==>
        store == null
        && (r.Ok? ==> r.value == "Database closed" && currentPath == None)
        && (r.Err? ==> currentPath == old(currentPath)))
      && (command in {".quit", ".help", ".clear", ".title"} ==>
        r == Ok("") && store == old(store) && currentPath == old(currentPath))
      && (command !in {".quit", ".close", ".help", ".clear", ".title"} && StartsWith(command, ".open") ==>
        if OpenPath(command) == [] then
          r == Err("Usage: .open <path>") && store == old(store) && currentPath == old(currentPath)
        else
          (r.Ok? ==> store != null && fresh(store) && currentPath == Some(OpenPath(command))
                     && r.value == OpenedMessage(fileExists)
                     && (!fileExists ==> IsYes(answer) && store.data == map[]))
          && (r.Err? ==> store == null && currentPath == old(currentPath)))
      && (command !in {".quit", ".close", ".help", ".clear", ".title"} && !StartsWith(command, ".open") ==>
        r == Err("Unknown meta command: " + command) && store == old(store) && currentPath == old(currentPath))
    }

    /** `handle_meta_command` on a trimmed command starting with `.`; `quit`
        stands for the process exit of `.quit`. */
    method HandleMetaCommand(command: string, fileExists: bool, answer: string)
      returns (r: Result<string>, quit: bool)
      modifies this
      ensures MetaEffect(command, fileExists, answer, r, quit)
    {
      quit := false;
      if command == ".quit" {
        quit := true;
        r := Ok("");
      } else if command == ".close" {
        var s := store;
        if s != null {
          store := null;
          var o := s.Close();
          if o.Fail? {
            return Err(o.msg), false;
          }
          currentPath := None;
          r := Ok("Database closed");
        } else {
          r := Err("No database open");
        }
      } else if command == ".help" || command == ".clear" || command == ".title" {
        r := Ok("");
      } else if StartsWith(command, ".open") {
        var path := OpenPath(command);
        if path == [] {
          r := Err("Usage: .open <path>");
        } else {
          ghost var closed;
          r, closed := OpenDatabase(path, fileExists, answer);
        }
      } else {
        r := Err("Unknown meta command: " + command);
      }
    }

    /** `execute_command` on one line: meta commands first, then the data
        commands in the shell's order against the open store. */
    method ExecuteCommand(line: string, fileExists: bool, answer: string)
      returns (r: Result<string>, quit: bool)
      modifies this, store
      ensures var c := Trim(line);
        c != [] && c[0] == '.' ==> MetaEffect(c, fileExists, answer, r, quit)
      ensures var c := Trim(line);
        (c != [] && c[0] == '.') || (!quit && store == old(store) && currentPath == old(currentPath))
      ensures var c := Trim(line);
        !(c != [] && c[0] == '.') && old(store) == null ==> r == Err("No database open. Use .open first")
      ensures var c := Trim(line);
        !(c != [] && c[0] == '.') && old(store) != null ==>
          ShellStep(ShellRequest(c), c, old(store.data), old(store.identifier), store.data, store.identifier, r)
    {
      var c := Trim(line);
      if c != [] && c[0] == '.' {
        r, quit := HandleMetaCommand(c, fileExists, answer);
        return;
      }
      quit := false;
      if store == null {
        return Err("No database open. Use .open first"), false;
      }
      var kvs := ParsePutCommand(c);
      if kvs.Ok? {
        r := HandlePut(kvs.value);
        return;
      }
      var key := ParseGetCommand(c);
      if key.Ok? {
        r := HandleGet(key.value);
        return;
      }
      key := ParseDeleteCommand(c);
      if key.Ok? {
        r := HandleDelete(key.value);
        return;
      }
      if ParseIdentifierGet(c).Ok? {
        r := HandleIdentifierGet();
        return;
      }
      var id := ParseIdentifierSet(c);
      if id.Ok? {
        r := HandleIdentifierSet(id.value);
        return;
      }
      if ParseCompact(c).Ok? {
        r := HandleCompact();
        return;
      }
      r := Err("Unknown command: " + c);
    }
  }
}
