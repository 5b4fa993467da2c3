/** Server configuration (src/config.rs): host and port read from an already
    parsed TOML document, each field defaulted on its own. Locating, creating,
    reading and parsing the file are not modelled. */
module Config {
  import opened Wrappers

  newtype u16 = x: int | 0 <= x < 0x1_0000
  newtype i64 = x: int | -0x8000_0000_0000_0000 <= x < 0x8000_0000_0000_0000

  /** The parts of a TOML value the configuration looks at; every other kind
      of value (floats, booleans, arrays, dates) is `Other`. */
  datatype Toml =
    | TString(s: string)
    | TInteger(i: i64)
    | TTable(entries: map<string, Toml>)
    | Other

  datatype ServerConfig = ServerConfig(host: string, port: u16)

  const DefaultHost: string := "127.0.0.1"
  const DefaultPort: u16 := 14514

  /** `ServerConfig::default()`. */
  function Default(): (c: ServerConfig)
    ensures c.host == "127.0.0.1" && c.port == 14514
  {
    ServerConfig(DefaultHost, DefaultPort)
  }

  /** `Value::get(key)`: only a table has entries. */
  function Get(v: Toml, key: string): Option<Toml> {
    if v.TTable? && key in v.entries then Some(v.entries[key]) else None
  }

  /** `p as u16`: the low 16 bits of the two's-complement integer. */
  function AsU16(p: i64): (r: u16)
    ensures (r as int - p as int) % 0x1_0000 == 0
    ensures 0 <= p as int < 0x1_0000 ==> r as int == p as int
  {
    (p as int % 0x1_0000) as u16
  }

  /** The host: a string `host` entry, otherwise the default. */
  function HostOf(server: Toml): string {
    match Get(server, "host")
    case Some(TString(h)) => h
    case _ => DefaultHost
  }

  /** The port: an integer `port` entry truncated to 16 bits, otherwise the default. */
  function PortOf(server: Toml): u16 {
    match Get(server, "port")
    case Some(TInteger(p)) => AsU16(p)
    case _ => DefaultPort
  }

  /** `load_config` from the parsed document: the `server` table, if there is
      one, with each field defaulted on its own; the default when there is not.
      A `server` that is not a table yields both defaults. */
  function FromDocument(doc: Toml): (c: ServerConfig)
    ensures Get(doc, "server").None? ==> c == Default()
    ensures Get(doc, "server").Some? && Get(Get(doc, "server").value, "host").None? ==> c.host == DefaultHost
    ensures Get(doc, "server").Some? && Get(Get(doc, "server").value, "port").None? ==> c.port == DefaultPort
    ensures !doc.TTable? ==> c == Default()
    ensures Get(doc, "server").Some? ==>
      var server := Get(doc, "server").value;
      (Get(server, "host").Some? && Get(server, "host").value.TString? ==> c.host == Get(server, "host").value.s)
      && (Get(server, "host").Some? && !Get(server, "host").value.TString? ==> c.host == DefaultHost)
      && (Get(server, "port").Some? && Get(server, "port").value.TInteger? ==> c.port == AsU16(Get(server, "port").value.i))
      && (Get(server, "port").Some? && !Get(server, "port").value.TInteger? ==> c.port == DefaultPort)
  {
    match Get(doc, "server")
    case None => Default()
    case Some(server) => ServerConfig(HostOf(server), PortOf(server))
  }

  /** `load_config`: a missing file (`None`) gives the default. */
  function Load(file: Option<Toml>): (c: ServerConfig)
    ensures file.None? ==> c == Default()
  {
    match file
    case None => Default()
    case Some(doc) => FromDocument(doc)
  }

  /** The file `load_config` writes when there is none reads back as the default. */
  lemma WrittenDefaultReadsBack()
    ensures Load(Some(TTable(map["server" := TTable(map["host" := TString("127.0.0.1"), "port" := TInteger(14514)])])))
         == Default()
  {
  }

  /** Host and port are defaulted independently: whatever the `host` entry
      holds, the port is the same, and the other way round. */
  lemma FieldsIndependent(entries: map<string, Toml>, h: Toml, p: Toml)
    ensures var doc := TTable(map["server" := TTable(entries)]);
      FromDocument(TTable(map["server" := TTable(entries["host" := h])])).port == FromDocument(doc).port
      && FromDocument(TTable(map["server" := TTable(entries["port" := p])])).host == FromDocument(doc).host
  {
    var doc := TTable(map["server" := TTable(entries)]);
    assert Get(TTable(entries["host" := h]), "port") == Get(TTable(entries), "port");
    assert Get(TTable(entries["port" := p]), "host") == Get(TTable(entries), "host");
  }

  /** Ports wrap: 65536 more than the default is the default, and -1 is 65535. */
  lemma PortWraps(entries: map<string, Toml>)
    ensures PortOf(TTable(entries["port" := TInteger(14514 + 0x1_0000)])) == 14514
    ensures PortOf(TTable(entries["port" := TInteger(-1)])) == 0xFFFF
  {
    assert Get(TTable(entries["port" := TInteger(-1)]), "port") == Some(TInteger(-1));
  }
}
