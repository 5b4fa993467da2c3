# Wind-KVStore command layer, in Dafny

Wind-KVStore is an embedded key-value store reached through an interactive
shell (`src/shell.rs`) or an HTTP server (`src/server.rs`), with a Python SDK
that formats commands and parses the server's replies. This project models the
logic those front ends put on top of the storage engine:

- the six command recognisers of `src/utils.rs` (copied into `src/shell.rs`),
  each fixed regular expression encoded as a hand-written recogniser: a
  leftmost, unanchored-at-the-start search and a trailing `\s*$`, with PUT's
  repeated group keeping only its last iteration (module `Commands`);
- which recogniser wins in the shell's order and in the server's order, and
  what each front end does with the store for each request (module `Dispatch`);
- the shell: its `store`/`current_path` state, the `.open`/`.close` meta
  commands, data commands against the open store, the prompt and the
  accumulation of input lines up to `;` (module `Shell`, class `Shell.Shell`);
- the server's `/api/execute` batch executor and `/api/put` batch insert
  (module `Server`);
- the SDK's `remind`, `format_exec_response` and `format_exec_put_command`
  (module `Sdk`);
- the defaulting of host and port in `load_config` (module `Config`).

The storage engine itself (`src/kvstore.rs`) is not part of this model. A
store is a class `Store.KVStore` whose state is a map from byte strings to byte
strings and an identifier; `put`, `get`, `delete`, `compact`,
`set_identifier`, `open` and `close` may each fail, and the model picks the
outcome nondeterministically. A failed operation is assumed to leave the
contents and the identifier as they were. Keys and values cross into the
store as the UTF-8 bytes of their text (module `Utf8`), and the shell shows a
value that is not UTF-8 as a hex dump (module `Bytes`). String primitives
(whitespace classes of Rust and Python, trimming, `find`, `rfind`, `split`,
`join`, `replace`, decimal formatting) live in module `Text`.

## Model

| member | source | states |
|---|---|---|
| Commands.ParsePutCommand | src/utils.rs:37-67 | returns exactly the pairs read off the leftmost match of the PUT grammar, or `Err("Invalid PUT command format")` when there is none; the loop over capture groups 3 and 4 runs at most once |
| Commands.PutCaptures | src/utils.rs:38-40 | the capture list has five entries; groups 1 and 2 are always present, and groups 3 and 4 are both present or both absent |
| Commands.ParsePutIff | src/utils.rs:38-66 | PUT accepts a command if and only if it is any prefix, then `PUT`, whitespace, `"k":"v"` with no space around the colon, any number of `<ws?>,<ws?>"k":"v"` repetitions and trailing whitespace |
| Commands.PutPairsSound | src/utils.rs:40-63 | the pairs of an accepted PUT are read from such a decomposition of the command |
| Commands.PutAcceptsAfterAnyPrefix | src/utils.rs:38-40 | the search is unanchored at the start: any text may precede `PUT` |
| Commands.PutKeepsFirstAndLast | src/utils.rs:43-61 | the result is never empty, starts with the pair after `PUT`, and holds at most one more pair: that of the last repetition |
| Commands.SinglePairAccepted | src/utils.rs:38-63 | `PUT`, non-empty whitespace and one `"k":"v"` is accepted and yields exactly that pair |
| Commands.PutDropsMiddlePair | src/utils.rs:49-57 | `PUT "k1":"v1","k2":"v2","k3":"v3"` yields only the first and third pairs |
| Commands.ParseGetCommand | src/utils.rs:70-80 | an accepted key is non-empty and quote-free; a rejection carries "Invalid GET command format" |
| Commands.ParseDeleteCommand | src/utils.rs:83-93 | an accepted key is non-empty and quote-free; a rejection carries "Invalid DELETE command format" |
| Commands.ParseIdentifierSet | src/utils.rs:105-115 | an accepted identifier is non-empty and quote-free; a rejection carries "Invalid IDENTIFIER SET command" |
| Commands.ParseGetIff | src/utils.rs:70-80 | GET returns `k` if and only if the command is any prefix, `GET`, whitespace, `WHERE`, whitespace, `KEY`, optional whitespace, `=`, optional whitespace, `"k"` and trailing whitespace |
| Commands.ParseDeleteIff | src/utils.rs:83-93 | the same, for `DEL` |
| Commands.ParseGetKeywords | src/utils.rs:71 | an accepted GET contains `GET` and `WHERE` in upper case |
| Commands.ParseDeleteKeywords | src/utils.rs:84 | an accepted DEL contains `DEL` and `WHERE` in upper case |
| Commands.BareDeleteRejected | sdk/test/python/test_for_readme.py:18 | `DEL "temp:session"` without `WHERE KEY=` is rejected |
| Commands.LowerCaseGetRejected | src/utils.rs:71 | keywords are case-sensitive: `get where key="k"` is rejected |
| Commands.KeyedSound | src/utils.rs:70-80 | what GET, DEL or IDENTIFIER SET accepts is the capture of a decomposition: a prefix, the grammar and trailing whitespace |
| Commands.KeyedExact | src/utils.rs:70-80 | any such decomposition makes the parser accept, with its capture, whatever the prefix |
| Commands.ParseIdentifierSetIff | src/utils.rs:105-115 | IDENTIFIER SET returns `id` if and only if the command is any prefix, `IDENTIFIER`, whitespace, `SET`, whitespace, `"id"` and trailing whitespace; the id is returned verbatim |
| Commands.ParseIdentifierGet | src/utils.rs:96-102 | a rejection carries "Invalid IDENTIFIER GET command" |
| Commands.ParseCompact | src/utils.rs:118-124 | a rejection carries "Invalid COMPACT command" |
| Commands.ParseIdentifierGetIff | src/utils.rs:96-102 | accepts if and only if the command is `IDENTIFIER GET` in any ASCII case padded with whitespace |
| Commands.ParseCompactIff | src/utils.rs:118-124 | accepts if and only if the command is `COMPACT` in any ASCII case padded with whitespace |
| Commands.IdentifierGetExtraSpace | src/utils.rs:97 | an extra space inside the phrase is rejected |
| Commands.PhrasesExcludeIdentifierSet | src/utils.rs:96-124 | a command IDENTIFIER SET accepts is rejected by COMPACT and IDENTIFIER GET |
| Dispatch.ShellRequest | src/shell.rs:171-196 | the request is unknown exactly when all six recognisers reject; PUT pairs, keys and identifiers are non-empty quote-free text |
| Dispatch.ServerRequest | src/server.rs:599-640 | the request is unknown exactly when all six recognisers reject; COMPACT is chosen only when its recogniser accepts |
| Commands.PutPairsArgs | src/utils.rs:40-63 | an accepted PUT yields at least one pair, and every key and value is non-empty quote-free text |
| Dispatch.PutPairsOk | src/utils.rs:59-63 | the pairs of an accepted PUT are non-empty and every key and value is non-empty quote-free text |
| Dispatch.SameRequest | src/server.rs:623-638 | the server's order (COMPACT before the identifier commands) picks the same request as the shell's |
| Dispatch.LastIndexFor | src/shell.rs:310-312 | finds the last pair naming a key, or says no pair does |
| Dispatch.ApplyPutsLookup | src/shell.rs:310-312 | after putting the pairs in order, a key holds the value of the last pair naming it, and other keys keep their values |
| Dispatch.InsertedMessageInjective | src/shell.rs:314 | "Inserted n key-value pairs" determines n |
| Dispatch.ShellShowRecovers | src/shell.rs:335-349 | a UTF-8 value is shown as text that encodes back to it; any other value as `<BINARY DATA: ...>` whose hex dump reads back to it |
| Dispatch.ShellShowMissAmbiguous | src/shell.rs:347-349 | a stored value "Key not found" displays exactly like a miss |
| Dispatch.ShowsAgreeOnText | src/server.rs:610-615 | shell and server displays agree if and only if the key is missing or its value is UTF-8 |
| Dispatch.DeleteAbsentKey | src/shell.rs:367-376 | for a missing key the shell answers "Key not found" and the server "Key deleted"; neither changes the contents |
| Bytes.Hex2 | src/shell.rs:341 | `{:02X}` gives two characters |
| Bytes.HexDump | src/shell.rs:340-343 | the dump is empty for no bytes and otherwise three characters per byte less one |
| Bytes.HexDumpAt | src/shell.rs:340-343 | byte i is the two upper-case hex digits at 3i, followed by a single space unless it is the last |
| Bytes.UnHexDumpRoundTrip | src/shell.rs:340-344 | the hex dump reads back to the bytes |
| Utf8.DecodeIffEncode | src/shell.rs:337 | `String::from_utf8` returns `s` if and only if the bytes are `s.as_bytes()` |
| Store.Lookup | src/shell.rs:335 | `get` finds a value exactly for keys in the store, and finds the stored one |
| Store.KVStore.Open | src/shell.rs:260 | a successful open gives a fresh handle, empty when the file was new |
| Store.KVStore.Put | src/shell.rs:311 | on success the key maps to the value; otherwise nothing changes; the identifier is kept |
| Store.KVStore.Get | src/shell.rs:335 | a successful get returns the lookup of the key |
| Store.KVStore.Delete | src/server.rs:619 | on success the key is removed; otherwise nothing changes |
| Store.KVStore.GetIdentifier | src/shell.rs:391 | returns the identifier |
| Store.KVStore.SetIdentifier | src/shell.rs:411 | the identifier changes only on success; contents are kept |
| Shell.TrimStartMatches | src/shell.rs:230 | the result is a suffix of the input that no longer starts with the prefix |
| Shell.OpenGluedPath | src/shell.rs:229-235 | `.openfoo` and `.open.open foo` open `foo` |
| Shell.FileName | src/shell.rs:144-148 | a file name is a non-empty path component other than `.` and `..`, without `/` |
| Shell.FileNameOfPath | src/shell.rs:144-148 | `dir/name` has file name `name` |
| Shell.Dots | src/shell.rs:98 | `". ".repeat(n)` alternates dot and space over 2n characters |
| Shell.WaitPrompt | src/shell.rs:97-98 | the continuation prompt is as long as the prompt rounded down to even, and ends in `> ` |
| Shell.Accumulate | src/shell.rs:107-120 | lines are trimmed and appended until the text first ends in `;` (or input runs out), and that `;` is removed |
| Shell.ReadCommand | src/shell.rs:100-120 | a blank line yields no command; otherwise the trimmed line is extended as `Accumulate` states |
| Shell.Shell.constructor | src/shell.rs:83-88 | a new shell has no store and no path |
| Shell.Shell.Prompt | src/shell.rs:140-155 | `\nKVStore > ` with no path; `\n<file name> > ` when the path has a file name; `\n<full path> > ` when it has none (`..`, `/`) |
| Shell.Shell.HandlePut | src/shell.rs:306-315 | puts the pairs in order; on success reports their number; a failing put stops, earlier puts stay applied |
| Shell.Shell.HandleGet | src/shell.rs:332-350 | shows the value as text or hex dump, or "Key not found" |
| Shell.Shell.HandleDelete | src/shell.rs:367-376 | deletes only a key `get` finds ("Key deleted"); otherwise "Key not found" and nothing changes |
| Shell.Shell.HandleIdentifierGet | src/shell.rs:389-392 | returns the store's identifier |
| Shell.Shell.HandleIdentifierSet | src/shell.rs:409-413 | sets the identifier and reports it, or fails with the identifier unchanged |
| Shell.Shell.HandleCompact | src/shell.rs:426-430 | reports "Database compacted" on success |
| Shell.Shell.OpenDatabase | src/shell.rs:241-269 | closes any open store first; on success sets store and path; on failure the store is gone and the path is unchanged; once no store is open or the old one closed, a declined creation of a missing file fails with "Database creation canceled" |
| Shell.Shell.HandleMetaCommand | src/shell.rs:200-238 | `MetaEffect`: `.close` with and without a store, `.open` with a blank or a real path, the output-only commands, `.quit`, and unknown meta commands |
| Shell.Shell.ExecuteCommand | src/shell.rs:158-197 | a trimmed line starting with `.` goes first to the meta handler, with every outcome `HandleMetaCommand` states (`MetaEffect`); with no store every data command fails with "No database open. Use .open first" and nothing changes; otherwise the shell's request is carried out |
| Server.PutEach | src/server.rs:600-606 | puts the pairs in order; on success reports their number; a failing put stops and the earlier puts stay applied |
| Server.ParseAndExecute | src/server.rs:596-641 | the trimmed segment is recognised in the server's order and its effect and answer are as `ServerStep` states: DEL always answers "Key deleted", binary values read `<BINARY>`, a failing PUT keeps earlier pairs |
| Server.ExecutedMembers | src/server.rs:571-574 | a segment is executed exactly when it is neither "" nor " " |
| Server.Entries | src/server.rs:576-583 | each executed segment contributes `"<segment>: <result or Error: msg>;"` |
| Server.WhitespaceSegmentRuns | src/server.rs:571-574 | a whitespace-only segment other than one space is still executed |
| Server.ExecuteBody | src/server.rs:558-592 | 400 without a store; otherwise 200 and the entries of every executed segment in order, joined by single spaces, each segment run on the state the previous one left |
| Server.ExecuteParts | src/server.rs:569-583 | the loop runs exactly the executed segments, in order, each on the state the previous one left, and records each one's entry |
| Server.Valued | src/server.rs:253-254 | the items with a value, as pairs: at most all the items, and every pair is an item that carries that value |
| Server.ValuedConcat | src/server.rs:253-254 | `Valued` is the in-order filter: it distributes over concatenation and keeps a single item exactly when it has a value |
| Server.PutValue | src/server.rs:241-277 | items without a value are skipped; the store ends as the in-order puts of exactly the valued items whose put passed (`Passed`), `success` is their count, and the errors are `"key: error"` for exactly the others, in order (`Failed`); 400 without a store, 200 with the count when there were no errors, 206 with the count and the error list otherwise |
| Server.PutItems | src/server.rs:250-261 | the loop of `put_value`: the store ends as the in-order puts of the valued items whose put passed, `success` counts them, and `errors` holds `"key: error"` for the others, in order |
| Server.OutcomeCounts | src/server.rs:253-259 | the failed and passed puts together are all the valued items, and there is no error exactly when every put passed |
| Sdk.Remind | sdk/python/src/wind_kvstore/_utils.py:6-15 | raises `ValueError` if and only if the message is empty |
| Sdk.Parts | sdk/python/src/wind_kvstore/_utils.py:19-20 | the reply, outer quotes stripped and `\"` unescaped, split at `" "` into at least one part |
| Sdk.RSplit | sdk/python/src/wind_kvstore/_utils.py:25 | splits at the last occurrence of the separator, or reports there is none |
| Sdk.PartEntry | sdk/python/src/wind_kvstore/_utils.py:23-33 | part i yields an entry keyed `cmd<i>`, and none when it has no `": "` |
| Sdk.MessageAvoidsSeparator | sdk/python/src/wind_kvstore/_utils.py:25-32 | an entry's message contains no `": "` |
| Sdk.FormatExecResponse | sdk/python/src/wind_kvstore/_utils.py:18-34 | the entries are those of the parts, in order |
| Sdk.ReadParts | sdk/python/src/wind_kvstore/_utils.py:22-33 | the loop over the parts, numbered from 1, collects in order the entry of every part that yields one |
| Sdk.Sources | sdk/python/src/wind_kvstore/_utils.py:22 | the numbers of the parts that yield entries are strictly increasing and lie between 1 and the number of parts read |
| Sdk.SourcesKey | sdk/python/src/wind_kvstore/_utils.py:30 | each entry is keyed by the number of the part it came from |
| Sdk.KeysDistinct | sdk/python/src/wind_kvstore/_utils.py:22-33 | no two entries share a key, so none overwrites another |
| Sdk.ErrorCommandDropped | sdk/python/src/wind_kvstore/_utils.py:26-33 | a part other than the first whose command side, `;`s stripped, mentions `": Error"` contributes no entry |
| Sdk.ErrorPartDropped | sdk/python/src/wind_kvstore/_utils.py:23-33 | the server's report `seg: Error: msg;` of a failing segment, read as any part but the first, contributes no entry whatever the segment (leading quotes included) and the message |
| Sdk.MatchSound | sdk/python/src/wind_kvstore/_utils.py:38 | whatever the pattern matches is `PUT`, spaces, a quoted key, spaces, `:`, spaces, a quoted value, and its replacement drops the spaces around the colon |
| Sdk.FormatPutCommandLoose | sdk/python/src/wind_kvstore/_utils.py:38-39 | a match is replaced by its text without the spaces around the colon |
| Sdk.FormatPutCommandKeepsText | sdk/python/src/wind_kvstore/_utils.py:37-40 | formatting removes whitespace only: every other character stays, in order |
| Sdk.FormattedPutAccepted | sdk/python/src/wind_kvstore/_utils.py:37-40 | `PUT "k" : "v"`, whatever the spaces around the colon, is formatted into text the server's PUT recogniser accepts, yielding the pair `k`, `v` |
| Sdk.FormatPutCommandIdempotent | sdk/python/src/wind_kvstore/_utils.py:37-40 | formatting twice equals formatting once |
| Config.Default | src/config.rs:17-23 | host "127.0.0.1" and port 14514 |
| Config.AsU16 | src/config.rs:45 | `p as u16` is p modulo 65536, and p itself when it fits |
| Config.FromDocument | src/config.rs:37-48 | no `server` table gives the default; a string `host` is used and any other or missing `host` gives the default host; an integer `port` becomes `p as u16` and any other or missing `port` gives 14514 |
| Config.Load | src/config.rs:29-32 | a missing file gives the default |
| Config.WrittenDefaultReadsBack | src/config.rs:61-66 | the default file written when none exists reads back as the default |
| Config.FieldsIndependent | src/config.rs:38-47 | host and port are defaulted independently |
| Config.PortWraps | src/config.rs:43-46 | ports wrap: 14514 + 65536 gives 14514 and -1 gives 65535 |
| Text.JoinSplit | src/server.rs:571 | joining the parts of a split with its separator restores the text |
| Text.NatToStringRoundTrip | src/shell.rs:314 | the decimal text of a count reads back as the count |

## Left out

- The storage engine (`src/kvstore.rs`) is not part of this model: its log format, index replay, compaction and locking. `Store.KVStore` is only a map and an identifier, and each operation's failure is a nondeterministic choice.
- Store.KVStore.Compact: has no postcondition beyond leaving contents and identifier alone; what compaction does on disk belongs to the engine.
- Store.KVStore.Close: has no postcondition; the handle is simply dropped by its callers.
- Store.KVStore.Put: assumes a failed put leaves the contents unchanged, which the unseen engine may or may not guarantee.
- Shell.FileName: models Unix paths, with `/` as the only separator; Windows `\` separators and drive or UNC prefixes of `Path::file_name` are not modelled.
- Terminal I/O of the shell: the `linefeed` reader, printing, `.help`, `.title` and `.clear` (output only, modelled as an empty answer), and the process exit of `.quit` (modelled as a `quit` flag). Whether a file exists and the y/n answer are method parameters.
- The outer `while` of `Shell::run` is modelled one command at a time (`Shell.ReadCommand`), not as a loop over a whole session.
- Sessions of the server: the concurrent map, per-session locks, the cleanup task and timeouts, actix routing and the JSON envelope. A response is its status code and its `status` text.
- Server.ExecuteBody: does not model the JSON escaping of the `status` string that the SDK later undoes.
- Server.PutValue: the error list is shown with `{:?}` but without the escaping Debug applies inside each string.
- The HTTP handlers other than `/api/execute` and `/api/put`, which each forward one call to the store.
- Reading, creating and parsing the configuration file; the model starts from a parsed TOML value.
- The Python clients, the connection pool and the GUI, which wrap the network calls; the duplicated copies of the SDK helpers are modelled once.
- Sdk.FormatExecResponse: returns the ordered list of entries instead of the JSON text of `json.dumps`.
- Sdk.Remind: the `warnings.warn` call itself.
- Sdk.ErrorPartDropped: covers every part but the first; for the first part the removal of the `{"status":""\n    ` prefix and the extra `strip()` are not proved harmless.
- Startup banners and the build script (output only).
