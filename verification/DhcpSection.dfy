/** Export and restore of the DHCP section (aifw-api/src/backup.rs:885-1044, 2036-2263): three key/value tables,
  * the subnets and the reservations.
  */
module DhcpSection {
  import opened Basics
  import opened Csv
  import Decimal
  import DhcpOptions

  const U8: nat := 0xFF
  const U16: nat := 0xFFFF
  const U32: nat := 0xFFFF_FFFF
  const U64: nat := 0xFFFF_FFFF_FFFF_FFFF

  /** A binary64 value, by its bit pattern. */
  datatype Float = Float(bits: nat)

  const HUNDRED := Float(0x4059_0000_0000_0000)

  /** Library code: printing and parsing of floats and JSON lists, and address parsing. */
  datatype Library = Library(
    printFloat: Float -> string, parseFloat: string -> Option<Float>,
    printRelays: seq<string> -> string, parseRelays: string -> Option<seq<string>>,
    printOptions: seq<DhcpOptions.Override> -> string, parseOptions: string -> Option<seq<DhcpOptions.Override>>,
    ipv4: string -> bool, loopback: string -> bool)

  /** Printing then parsing is the identity on JSON lists, on the default rate and on every float that some text
    * parses to; the empty text is no number.
    */
  ghost predicate Faithful(c: Library) {
    && (forall text :: c.parseFloat(text).Some? ==> c.parseFloat(c.printFloat(c.parseFloat(text).value)) == c.parseFloat(text))
    && c.parseFloat(c.printFloat(HUNDRED)) == Some(HUNDRED)
    && c.parseFloat("") == None
    && (forall x :: c.parseRelays(c.printRelays(x)) == Some(x))
    && (forall x :: c.parseOptions(c.printOptions(x)) == Some(x))
  }

  // ---------------------------------------------------------------- key/value tables

  /** What a key holds. `absent` is the section's default, `bad` the fallback for a text that does not parse. */
  datatype Column =
    | Flag(absent: bool)
    | List
    | Text(absentText: string)
    | Number(max: nat, absentNumber: nat, badNumber: nat)
    | Rate   // absent or bad: 100.0
    | OptText
    | OptList
    | OptNumber(max: nat)
    | OptRate

  /** Defaults and fallbacks fit the number's width. */
  type Kind = k: Column | k.Number? ==> k.absentNumber <= k.max && k.badNumber <= k.max witness List

  datatype Value = Missing | B(flag: bool) | L(items: seq<string>) | S(text: string) | N(number: nat) | F(rate: Float)

  /** The values a field of this kind can have. */
  predicate Typed(k: Kind, v: Value) {
    match k
    case Flag(_) => v.B?
    case List => v.L?
    case Text(_) => v.S?
    case Number(max, _, _) => v.N? && v.number <= max
    case Rate => v.F?
    case OptText => v.S? || v.Missing?
    case OptList => v.L? || v.Missing?
    case OptNumber(max) => (v.N? && v.number <= max) || v.Missing?
    case OptRate => v.F? || v.Missing?
  }

  function Default(k: Kind): (v: Value)
    ensures Typed(k, v)
  {
    match k
    case Flag(b) => B(b)
    case List => L([])
    case Text(s) => S(s)
    case Number(_, n, _) => N(n)
    case Rate => F(HUNDRED)
    case _ => Missing
  }

  /** One arm of the export's `match key`. */
  function Decode(c: Library, k: Kind, text: string): (v: Value) {
    match k
    case Flag(_) => B(text == "true")
    case List => L(SplitCsv(text))
    case Text(_) => S(text)
    case Number(max, _, bad) => var n := Decimal.Parse(text, max); N(if n.Some? then n.value else bad)
    case Rate => var x := c.parseFloat(text); F(if x.Some? then x.value else HUNDRED)
    case OptText => if text == "" then Missing else S(text)
    case OptList => if text == "" then Missing else L(SplitCsv(text))
    case OptNumber(max) => var n := Decimal.Parse(text, max); if n.Some? then N(n.value) else Missing
    case OptRate => var x := c.parseFloat(text); if x.Some? then F(x.value) else Missing
  }

  /** One value of the restore's key/value list. */
  function Encode(c: Library, v: Value): string {
    match v
    case Missing => ""
    case B(b) => if b then "true" else "false"
    case L(items) => Join(items)
    case S(text) => text
    case N(n) => Decimal.Print(n)
    case F(x) => c.printFloat(x)
  }

  lemma DecodeTyped(c: Library, k: Kind, text: string)
    ensures Typed(k, Decode(c, k, text))
  {
    hide SplitCsv;
    if k.Number? || k.OptNumber? {
      Decimal.ParseInRange(text, k.max);
    }
  }

  /** A peer list that is present, has some text, and has only blank parts. */
  predicate BlankPeers(k: Kind, v: Value) {
    k.OptList? && v.L? && Join(v.items) != "" && SplitCsv(Join(v.items)) == []
  }

  lemma NumberSettles(k: Kind, v: Value, c: Library)
    requires Typed(k, v) && (k.Number? || k.OptNumber?)
    ensures Decode(c, k, Encode(c, v)) == v
  {
    if v.N? {
      Decimal.ParseOfPrint(v.number, k.max);
    }
  }

  /** Writing a value and reading it back gives a value that the next round trip keeps, except for blank peers,
    * which first become an empty list and then go missing.
    */
  lemma ValueSettles(c: Library, k: Kind, v: Value)
    requires Faithful(c) && Typed(k, v)
    ensures var once := Decode(c, k, Encode(c, v));
      && Typed(k, once)
      && !BlankPeers(k, once)
      && (Decode(c, k, Encode(c, once)) == once <==> !BlankPeers(k, v))
  {
    hide Faithful, SplitCsv, Join;
    DecodeTyped(c, k, Encode(c, v));
    if k.Number? || k.OptNumber? {
      NumberSettles(k, v, c);
    } else if k.Rate? || k.OptRate? {
      RateSettles(k, Encode(c, v), c);
    } else if v.L? {
      ListSettles(v.items);
    }
  }

  /** What has been read as a rate is printed so that it reads the same. */
  /** A value comes back from a restore and an export as it was, if and only if it is no list with an element that is
    * blank, untrimmed or has a comma, no empty optional text or list, and no float that does not print and parse.
    */
  lemma ValueReturnsExactly(c: Library, k: Kind, v: Value)
    requires Faithful(c) && Typed(k, v)
    ensures Decode(c, k, Encode(c, v)) == v <==> Clean(c, k, v)
  {
    hide Faithful, SplitCsv, Join;
    EmptyFloat(c);
    if k.Number? || k.OptNumber? {
      NumberSettles(k, v, c);
    } else if v.L? {
      SplitUndoesJoinExactly(v.items);
      if Tokens(v.items) {
        JoinIsEmpty(v.items);
      }
    }
  }

  ghost predicate Clean(c: Library, k: Kind, v: Value) {
    match k
    case List => v.L? && Tokens(v.items)
    case OptList => v.Missing? || (v.L? && v.items != [] && Tokens(v.items))
    case OptText => v != S("")
    case Rate => v.F? && (c.parseFloat(c.printFloat(v.rate)) == Some(v.rate) || (v.rate == HUNDRED && c.parseFloat(c.printFloat(v.rate)) == None))
    case OptRate => v.F? ==> c.parseFloat(c.printFloat(v.rate)) == Some(v.rate)
    case _ => true
  }

  lemma EmptyFloat(c: Library)
    requires Faithful(c)
    ensures c.parseFloat("") == None
  {}

  lemma RateSettles(k: Kind, text: string, c: Library)
    requires Faithful(c) && (k.Rate? || k.OptRate?)
    ensures var v := Decode(c, k, text); Decode(c, k, Encode(c, v)) == v
  {}

  lemma ListSettles(items: seq<string>)
    ensures var once := SplitCsv(Join(items));
      SplitCsv(Join(once)) == once && (Join(once) == "" <==> once == [])
  {
    var once := SplitCsv(Join(items));
    SplitGivesTokens(Join(items));
    SplitUndoesJoinExactly(once);
    JoinIsEmpty(once);
  }

  /** At the level of the stored text one round trip is always enough. */
  lemma TextSettles(c: Library, k: Kind, text: string)
    requires Faithful(c)
    ensures var once := Encode(c, Decode(c, k, text)); Encode(c, Decode(c, k, once)) == once
  {
    hide Faithful, SplitCsv, Join;
    var v := Decode(c, k, text);
    DecodeTyped(c, k, text);
    if k.Number? || k.OptNumber? {
      NumberSettles(k, v, c);
    } else if k.Rate? || k.OptRate? {
      RateSettles(k, text, c);
    } else if v.L? {
      SplitGivesTokens(text);
      SplitUndoesJoinExactly(SplitCsv(text));
      JoinIsEmpty(SplitCsv(text));
    }
  }

  type Schema = map<string, Kind>
  type Table = map<string, string>
  type Fields = map<string, Value>

  ghost predicate WellTyped(schema: Schema, f: Fields) {
    f.Keys == schema.Keys && forall key :: key in schema ==> Typed(schema[key], f[key])
  }

  /** The section of a table: defaults, overwritten key by key; unknown keys are ignored. */
  function Read(c: Library, schema: Schema, table: Table): Fields {
    map key | key in schema :: if key in table then Decode(c, schema[key], table[key]) else Default(schema[key])
  }

  /** Fields of a section, with defaults where nothing is given. */
  function Filled(schema: Schema, f: Fields): (r: Fields)
    ensures r.Keys == schema.Keys
  {
    map key | key in schema :: if key in f then f[key] else Default(schema[key])
  }

  function Written(c: Library, schema: Schema, f: Fields): Table
    requires f.Keys == schema.Keys
  {
    map key | key in schema :: Encode(c, f[key])
  }

  /** The loop over the stored pairs, in whatever order they are listed. */
  method ReadPairs(c: Library, schema: Schema, table: Table) returns (f: Fields)
    ensures f == Read(c, schema, table)
  {
    hide Decode, Default;
    f := map key | key in schema :: Default(schema[key]);
    var todo := table.Keys;
    while todo != {}
      invariant todo <= table.Keys && f.Keys == schema.Keys
      invariant forall key :: key in schema ==>
        f[key] == if key in table && key !in todo then Decode(c, schema[key], table[key]) else Default(schema[key])
    {
      var key :| key in todo;
      if key in schema {
        f := f[key := Decode(c, schema[key], table[key])];
      }
      todo := todo - {key};
    }
  }

  /** The loop of `INSERT OR REPLACE` into the emptied table. */
  method WritePairs(c: Library, schema: Schema, f: Fields) returns (table: Table)
    requires f.Keys == schema.Keys
    ensures table == Written(c, schema, f)
  {
    hide Encode;
    table := map[];
    var todo := schema.Keys;
    while todo != {}
      invariant todo <= schema.Keys && table.Keys == schema.Keys - todo
      invariant forall key :: key in table ==> table[key] == Encode(c, f[key])
    {
      var key :| key in todo;
      table := table[key := Encode(c, f[key])];
      todo := todo - {key};
    }
  }

  lemma ReadTyped(c: Library, schema: Schema, table: Table)
    ensures WellTyped(schema, Read(c, schema, table))
  {
    hide Decode, Typed;
    forall key | key in schema && key in table ensures Typed(schema[key], Decode(c, schema[key], table[key])) {
      DecodeTyped(c, schema[key], table[key]);
    }
  }

  /** What a restore writes after an export is what an export and restore of that writes. */
  lemma TableSettles(c: Library, schema: Schema, table: Table)
    requires Faithful(c)
    ensures var once := Written(c, schema, Read(c, schema, table)); Written(c, schema, Read(c, schema, once)) == once
  {
    hide Faithful, Decode, Encode, Typed, Default;
    var once := Written(c, schema, Read(c, schema, table));
    forall key | key in schema ensures Encode(c, Decode(c, schema[key], once[key])) == once[key] {
      if key in table {
        TextSettles(c, schema[key], table[key]);
      } else {
        DefaultSettles(c, schema[key]);
      }
    }
  }

  /** The stored texts that an export and restore leaves as they are: `true` or `false`, lists without blanks or
    * empty parts, numbers as they are printed, and any plain text.
    */
  predicate Canonical(c: Library, k: Kind, text: string) {
    match k
    case Flag(_) => text == "true" || text == "false"
    case List => CanonicalList(text)
    case Text(_) => true
    case Number(max, _, _) => CanonicalNumber(text, max)
    case Rate => CanonicalRate(c, text)
    case OptText => true
    case OptList => CanonicalList(text)
    case OptNumber(max) => text == "" || CanonicalNumber(text, max)
    case OptRate => text == "" || CanonicalRate(c, text)
  }

  predicate CanonicalNumber(text: string, max: nat) {
    var n := Decimal.Parse(text, max);
    n.Some? && Decimal.Print(n.value) == text
  }

  predicate CanonicalRate(c: Library, text: string) {
    var x := c.parseFloat(text);
    x.Some? && c.printFloat(x.value) == text
  }

  lemma TextSettledExactly(c: Library, k: Kind, text: string)
    requires Faithful(c)
    ensures Encode(c, Decode(c, k, text)) == text <==> Canonical(c, k, text)
  {
    hide SplitCsv, Join, CanonicalList, Faithful, Decimal.Parse, Decimal.Print;
    DefaultRate(c);
    CanonicalListExactly(text);
    if k.Number? {
      Decimal.ParseOfPrint(k.badNumber, k.max);
    }
    if k.OptNumber? {
      Decimal.ParseOfNothing(k.max);
    }
    if text == "" {
      SplitUndoesJoinExactly([]);
      JoinIsEmpty([]);
    }
  }

  /** A key/value table survives an export and restore exactly when it holds every key of the schema, no other
    * key, and canonical texts.
    */
  lemma TableSettledExactly(c: Library, schema: Schema, table: Table)
    requires Faithful(c)
    ensures Written(c, schema, Read(c, schema, table)) == table
       <==> table.Keys == schema.Keys && forall key :: key in schema ==> key in table && Canonical(c, schema[key], table[key])
  {
    hide Faithful, Decode, Encode, Canonical, Default;
    var once := Written(c, schema, Read(c, schema, table));
    assert once.Keys == schema.Keys;
    forall key | key in schema && key in table ensures once[key] == table[key] <==> Canonical(c, schema[key], table[key]) {
      TextSettledExactly(c, schema[key], table[key]);
    }
  }

  lemma DefaultRate(c: Library)
    requires Faithful(c)
    ensures c.parseFloat(c.printFloat(HUNDRED)) == Some(HUNDRED) && c.parseFloat("") == None
  {}

  lemma DefaultSettles(c: Library, k: Kind)
    requires Faithful(c)
    ensures var text := Encode(c, Default(k)); Encode(c, Decode(c, k, text)) == text
  {
    hide Faithful, SplitCsv;
    if k.Number? {
      NumberSettles(k, Default(k), c);
    } else if k.Rate? || k.OptRate? {
      DefaultRate(c);
    } else if k.OptNumber? {
      NumberSettles(k, Missing, c);
    } else if k.List? {
      SplitUndoesJoinExactly([]);
    }
  }

  /** The fields of a section settle after one pass exactly when no peer list is blank, and always after two. */
  lemma FieldsSettle(c: Library, schema: Schema, f: Fields)
    requires Faithful(c) && WellTyped(schema, f)
    ensures WellTyped(schema, Pass(c, schema, f))
    ensures Pass(c, schema, Pass(c, schema, f)) == Pass(c, schema, f)
       <==> forall key :: key in schema ==> !BlankPeers(schema[key], f[key])
    ensures forall key :: key in schema ==> !BlankPeers(schema[key], Pass(c, schema, f)[key])
  {
    hide Faithful, Decode, Encode, Typed, Default, BlankPeers;
    var once := Pass(c, schema, f);
    forall key | key in schema
      ensures Typed(schema[key], once[key]) && !BlankPeers(schema[key], once[key])
      ensures Decode(c, schema[key], Encode(c, once[key])) == once[key] <==> !BlankPeers(schema[key], f[key])
    {
      ValueSettles(c, schema[key], f[key]);
    }
    var twice := Pass(c, schema, once);
    if twice == once {
      forall key | key in schema ensures !BlankPeers(schema[key], f[key]) {
        assert twice[key] == once[key];
      }
    }
  }

  /** Restore the fields into an empty table, then export it. */
  function Pass(c: Library, schema: Schema, f: Fields): Fields
    requires f.Keys == schema.Keys
  {
    Read(c, schema, Written(c, schema, f))
  }

  const GLOBAL: Schema := GLOBAL_TEXTS + GLOBAL_LISTS + GLOBAL_NUMBERS

  const GLOBAL_TEXTS: Schema := map[
    "enabled" := Flag(false),
    "authoritative" := Flag(true),
    "accept_relayed" := Flag(true),
    "domain_name" := Text(""),
    "next_server" := OptText,
    "boot_filename" := OptText,
    "log_level" := Text("info"),
    "log_format" := Text("text")]

  const GLOBAL_LISTS: Schema := map[
    "interfaces" := List,
    "dns_servers" := List,
    "domain_search" := List,
    "ntp_servers" := List,
    "wins_servers" := List]

  const GLOBAL_NUMBERS: Schema := map[
    "default_lease_time" := Number(U32, 3600, 3600),
    "max_lease_time" := Number(U32, 86400, 86400),
    "api_port" := Number(U16, 9967, 9967),
    "workers" := Number(U32, 1, 1),
    "relay_rate_limit_burst" := Number(U32, 200, 200),
    "relay_rate_limit_pps" := Rate]

  const DDNS: Schema := map[
    "enabled" := Flag(false),
    "forward_zone" := Text(""),
    "reverse_zone_v4" := Text(""),
    "reverse_zone_v6" := Text(""),
    "dns_server" := Text(""),
    "tsig_key" := Text(""),
    "tsig_algorithm" := Text(""),
    "tsig_secret" := Text(""),
    "ttl" := Number(U32, 0, 300)]

  const HA_SCALARS: Schema := map[
    "mode" := Text(""),
    "peer" := OptText,
    "listen" := OptText,
    "scope_split" := OptRate,
    "mclt" := OptNumber(U32),
    "partner_down_delay" := OptNumber(U32),
    "node_id" := OptNumber(U64),
    "tls_cert" := OptText,
    "tls_key" := OptText,
    "tls_ca" := OptText]

  const HA: Schema := HA_SCALARS["peers" := OptList]

  ghost predicate NoOptionalList(schema: Schema) {
    forall key :: key in schema ==> !schema[key].OptList?
  }

  /** No key but the HA peers holds an optional list. */
  lemma OnlyPeersAreOptional()
    ensures NoOptionalList(GLOBAL) && NoOptionalList(DDNS)
    ensures forall key :: key in HA && HA[key].OptList? ==> key == "peers"
    ensures "peers" in HA && HA["peers"] == OptList
  {
    hide GLOBAL_TEXTS, GLOBAL_LISTS, GLOBAL_NUMBERS, DDNS, HA_SCALARS;
    assert NoOptionalList(GLOBAL_TEXTS) by { Texts(); }
    assert NoOptionalList(GLOBAL_LISTS) && NoOptionalList(GLOBAL_NUMBERS) by { ListsAndNumbers(); }
    assert NoOptionalList(DDNS) by { Ddns(); }
    assert NoOptionalList(HA_SCALARS) by { HaScalars(); }
  }

  lemma EnabledIsFlag()
    ensures "enabled" in GLOBAL && GLOBAL["enabled"] == Flag(false)
  {
    hide GLOBAL_LISTS, GLOBAL_NUMBERS;
    assert "enabled" in GLOBAL_TEXTS && GLOBAL_TEXTS["enabled"] == Flag(false);
    NotElsewhere();
  }

  lemma NotElsewhere()
    ensures "enabled" !in GLOBAL_LISTS && "enabled" !in GLOBAL_NUMBERS
  {}

  lemma Texts()
    ensures NoOptionalList(GLOBAL_TEXTS)
  {}

  lemma ListsAndNumbers()
    ensures NoOptionalList(GLOBAL_LISTS) && NoOptionalList(GLOBAL_NUMBERS)
  {}

  lemma Ddns()
    ensures NoOptionalList(DDNS)
  {}

  lemma HaScalars()
    ensures NoOptionalList(HA_SCALARS)
  {}

  /** What each stored key reads as, whatever its text. */
  lemma GlobalTextsRead(c: Library, text: string)
    ensures GLOBAL_TEXTS.Keys == {"enabled", "authoritative", "accept_relayed", "domain_name", "next_server", "boot_filename", "log_level", "log_format"}
    ensures Decode(c, GLOBAL_TEXTS["enabled"], text) == B(text == "true")
    ensures Decode(c, GLOBAL_TEXTS["authoritative"], text) == B(text == "true")
    ensures Decode(c, GLOBAL_TEXTS["accept_relayed"], text) == B(text == "true")
    ensures Decode(c, GLOBAL_TEXTS["domain_name"], text) == S(text)
    ensures Decode(c, GLOBAL_TEXTS["log_level"], text) == S(text)
    ensures Decode(c, GLOBAL_TEXTS["log_format"], text) == S(text)
    ensures Decode(c, GLOBAL_TEXTS["next_server"], text) == if text == "" then Missing else S(text)
    ensures Decode(c, GLOBAL_TEXTS["boot_filename"], text) == if text == "" then Missing else S(text)
  {}

  lemma GlobalListsRead(c: Library, text: string)
    ensures GLOBAL_LISTS.Keys == {"interfaces", "dns_servers", "domain_search", "ntp_servers", "wins_servers"}
    ensures forall key :: key in GLOBAL_LISTS ==> Decode(c, GLOBAL_LISTS[key], text) == L(SplitCsv(text))
  {
    hide SplitCsv;
  }

  /** A number, or the fallback for what is no number of the width. */
  function NumberOr(text: string, max: nat, bad: nat): Value {
    match Decimal.Parse(text, max)
    case Some(n) => N(n)
    case None => N(bad)
  }

  lemma GlobalNumbersRead(c: Library, text: string)
    ensures GLOBAL_NUMBERS.Keys == {"default_lease_time", "max_lease_time", "api_port", "workers", "relay_rate_limit_burst", "relay_rate_limit_pps"}
    ensures Decode(c, GLOBAL_NUMBERS["default_lease_time"], text) == NumberOr(text, 4294967295, 3600)
    ensures Decode(c, GLOBAL_NUMBERS["max_lease_time"], text) == NumberOr(text, 4294967295, 86400)
    ensures Decode(c, GLOBAL_NUMBERS["api_port"], text) == NumberOr(text, 65535, 9967)
    ensures Decode(c, GLOBAL_NUMBERS["workers"], text) == NumberOr(text, 4294967295, 1)
    ensures Decode(c, GLOBAL_NUMBERS["relay_rate_limit_burst"], text) == NumberOr(text, 4294967295, 200)
    ensures Decode(c, GLOBAL_NUMBERS["relay_rate_limit_pps"], text)
         == F(if c.parseFloat(text).Some? then c.parseFloat(text).value else Float(0x4059_0000_0000_0000))
  {
    hide Decimal.Parse;
  }

  lemma DdnsRead(c: Library, text: string)
    ensures DDNS.Keys == {"enabled", "forward_zone", "reverse_zone_v4", "reverse_zone_v6", "dns_server", "tsig_key", "tsig_algorithm", "tsig_secret", "ttl"}
    ensures Decode(c, DDNS["enabled"], text) == B(text == "true")
    ensures Decode(c, DDNS["ttl"], text) == NumberOr(text, 4294967295, 300)
    ensures forall key :: key in DDNS && key != "enabled" && key != "ttl" ==> Decode(c, DDNS[key], text) == S(text)
  {
    hide Decimal.Parse;
  }

  lemma HaScalarsRead(c: Library, text: string)
    ensures HA_SCALARS.Keys == {"mode", "peer", "listen", "scope_split", "mclt", "partner_down_delay", "node_id", "tls_cert", "tls_key", "tls_ca"}
    ensures Decode(c, HA_SCALARS["mode"], text) == S(text)
    ensures Decode(c, HA_SCALARS["scope_split"], text) == if c.parseFloat(text).Some? then F(c.parseFloat(text).value) else Missing
    ensures Decode(c, HA_SCALARS["mclt"], text) == OptNumberOf(text, 4294967295)
    ensures Decode(c, HA_SCALARS["partner_down_delay"], text) == OptNumberOf(text, 4294967295)
    ensures Decode(c, HA_SCALARS["node_id"], text) == OptNumberOf(text, 18446744073709551615)
  {
    hide Decimal.Parse;
  }

  lemma HaTextsRead(c: Library, text: string)
    ensures forall key :: key in {"peer", "listen", "tls_cert", "tls_key", "tls_ca"} ==>
      key in HA_SCALARS && Decode(c, HA_SCALARS[key], text) == if text == "" then Missing else S(text)
  {
    hide Decimal.Parse;
  }

  function OptNumberOf(text: string, max: nat): Value {
    match Decimal.Parse(text, max)
    case Some(n) => N(n)
    case None => Missing
  }

  lemma ReadJoins(c: Library, a: Schema, b: Schema, table: Table)
    ensures Read(c, a + b, table) == Read(c, a, table) + Read(c, b, table)
  {
    hide Decode, Default;
  }

  /** What an export of empty tables holds: the server off and authoritative, one hour and one day of lease, and so on. */
  const EMPTY_TEXTS: Fields := map[
    "enabled" := B(false), "authoritative" := B(true), "accept_relayed" := B(true), "domain_name" := S(""),
    "next_server" := Missing, "boot_filename" := Missing, "log_level" := S("info"), "log_format" := S("text")]
  const EMPTY_LISTS: Fields := map[
    "interfaces" := L([]), "dns_servers" := L([]), "domain_search" := L([]), "ntp_servers" := L([]), "wins_servers" := L([])]
  const EMPTY_NUMBERS: Fields := map[
    "default_lease_time" := N(3600), "max_lease_time" := N(86400), "api_port" := N(9967), "workers" := N(1),
    "relay_rate_limit_burst" := N(200), "relay_rate_limit_pps" := F(Float(0x4059_0000_0000_0000))]
  const EMPTY_DDNS: Fields := map[
    "enabled" := B(false), "forward_zone" := S(""), "reverse_zone_v4" := S(""), "reverse_zone_v6" := S(""), "dns_server" := S(""),
    "tsig_key" := S(""), "tsig_algorithm" := S(""), "tsig_secret" := S(""), "ttl" := N(0)]
  const EMPTY_HA: Fields := map[
    "mode" := S(""), "peer" := Missing, "listen" := Missing, "scope_split" := Missing, "mclt" := Missing, "partner_down_delay" := Missing,
    "node_id" := Missing, "tls_cert" := Missing, "tls_key" := Missing, "tls_ca" := Missing]

  lemma EmptyExport(c: Library)
    ensures Read(c, GLOBAL, map[]) == EMPTY_TEXTS + EMPTY_LISTS + EMPTY_NUMBERS
    ensures Read(c, DDNS, map[]) == EMPTY_DDNS
    ensures Read(c, HA, map[]) == EMPTY_HA["peers" := Missing]
  {
    hide GLOBAL_TEXTS, GLOBAL_LISTS, GLOBAL_NUMBERS, DDNS, HA_SCALARS, Read;
    hide EMPTY_TEXTS, EMPTY_LISTS, EMPTY_NUMBERS, EMPTY_DDNS, EMPTY_HA;
    ReadJoins(c, GLOBAL_TEXTS + GLOBAL_LISTS, GLOBAL_NUMBERS, map[]);
    ReadJoins(c, GLOBAL_TEXTS, GLOBAL_LISTS, map[]);
    EmptyTexts(c);
    EmptyLists(c);
    EmptyNumbers(c);
    EmptyDdns(c);
    EmptyHa(c);
    ReadJoins(c, HA_SCALARS, map["peers" := OptList], map[]);
    assert HA == HA_SCALARS + map["peers" := OptList];
    EmptyPeers(c);
    assert EMPTY_HA["peers" := Missing] == EMPTY_HA + map["peers" := Missing];
  }

  lemma EmptyTexts(c: Library)
    ensures Read(c, GLOBAL_TEXTS, map[]) == EMPTY_TEXTS
  {
    hide Decode;
  }

  lemma EmptyLists(c: Library)
    ensures Read(c, GLOBAL_LISTS, map[]) == EMPTY_LISTS
  {
    hide Decode;
  }

  lemma EmptyNumbers(c: Library)
    ensures Read(c, GLOBAL_NUMBERS, map[]) == EMPTY_NUMBERS
  {
    hide Decode;
  }

  lemma EmptyDdns(c: Library)
    ensures Read(c, DDNS, map[]) == EMPTY_DDNS
  {
    hide Decode;
  }

  lemma EmptyHa(c: Library)
    ensures Read(c, HA_SCALARS, map[]) == EMPTY_HA
  {
    hide Decode;
  }

  lemma EmptyPeers(c: Library)
    ensures Read(c, map["peers" := OptList], map[]) == map["peers" := Missing]
  {
    hide Decode;
  }

  // ---------------------------------------------------------------- subnets

  /** The columns that are copied as they are. */
  datatype Copied = Copied(
    id: string, network: string, poolStart: string, poolEnd: string, gateway: string,
    dnsServers: Option<string>, domainName: Option<string>, enabled: bool, description: Option<string>,
    ntpServers: Option<string>, createdAt: string)

  /** A stored row: signed integers that may be null, and JSON texts. */
  datatype SubnetRow = SubnetRow(
    copied: Copied,
    leaseTime: Option<int>, maxLeaseTime: Option<int>, renewalTime: Option<int>, rebindingTime: Option<int>,
    preferredTime: Option<int>, subnetType: Option<string>, delegatedLength: Option<int>,
    trustedRelays: Option<string>, options: Option<string>)

  datatype Subnet = Subnet(
    copied: Copied,
    leaseTime: Option<nat>, maxLeaseTime: Option<nat>, renewalTime: Option<nat>, rebindingTime: Option<nat>,
    preferredTime: Option<nat>, subnetType: string, delegatedLength: Option<nat>,
    trustedRelays: seq<string>, options: seq<DhcpOptions.Override>)

  /** `map(|v| v as uN)`: a truncating cast. */
  function Truncate(v: Option<int>, max: nat): Option<nat> {
    match v
    case None => None
    case Some(n) => Some(n % (max + 1))
  }

  predicate Fits(v: Option<nat>, max: nat) {
    v.Some? ==> v.value <= max
  }

  predicate SubnetFits(s: Subnet) {
    && Fits(s.leaseTime, U32) && Fits(s.maxLeaseTime, U32) && Fits(s.renewalTime, U32) && Fits(s.rebindingTime, U32)
    && Fits(s.preferredTime, U32) && Fits(s.delegatedLength, U8)
  }

  function ExportSubnet(c: Library, r: SubnetRow): (s: Subnet)
    ensures SubnetFits(s)
  {
    Subnet(
      r.copied,
      Truncate(r.leaseTime, U32), Truncate(r.maxLeaseTime, U32), Truncate(r.renewalTime, U32),
      Truncate(r.rebindingTime, U32), Truncate(r.preferredTime, U32),
      if r.subnetType.Some? then r.subnetType.value else "address",
      Truncate(r.delegatedLength, U8),
      OrEmpty(r.trustedRelays, c.parseRelays), OrEmpty(r.options, c.parseOptions))
  }

  function OrEmpty<T>(json: Option<string>, parse: string -> Option<seq<T>>): seq<T> {
    if json.Some? && parse(json.value).Some? then parse(json.value).value else []
  }

  function RestoreSubnet(c: Library, s: Subnet): SubnetRow {
    SubnetRow(
      s.copied, s.leaseTime, s.maxLeaseTime, s.renewalTime, s.rebindingTime, s.preferredTime,
      Some(s.subnetType), s.delegatedLength,
      Some(c.printRelays(Filter(s.trustedRelays, RelayFor(c)))), Some(c.printOptions(Filter(s.options, SafeFor(c)))))
  }

  /** A relay that a restore keeps is, once trimmed, an IPv4 address other than a loopback. */
  function RelayFor(c: Library): string -> bool {
    r => Trim(r) != "" && c.ipv4(Trim(r)) && !c.loopback(Trim(r))
  }

  function SafeFor(c: Library): DhcpOptions.Override -> bool {
    o => DhcpOptions.Safe(c.ipv4, o)
  }

  function Filter<T>(s: seq<T>, keep: T -> bool): (r: seq<T>)
    ensures forall i :: 0 <= i < |r| ==> keep(r[i])
  {
    if s == [] then [] else (if keep(s[0]) then [s[0]] else []) + Filter(s[1..], keep)
  }

  lemma {:induction false} FilterKeepsAll<T>(s: seq<T>, keep: T -> bool)
    requires forall i :: 0 <= i < |s| ==> keep(s[i])
    ensures Filter(s, keep) == s
  {
    if s != [] {
      assert keep(s[0]);
      FilterKeepsAll(s[1..], keep);
    }
  }

  /** A restored row has, in their order, exactly the relays and options that pass. */
  lemma {:induction false} FilterExactly<T>(s: seq<T>, keep: T -> bool, x: T)
    ensures multiset(Filter(s, keep))[x] == if keep(x) then multiset(s)[x] else 0
    ensures |s| == 1 ==> Filter(s, keep) == if keep(s[0]) then s else []
  {
    if s != [] {
      assert s == [s[0]] + s[1..];
      FilterExactly(s[1..], keep, x);
    }
  }

  lemma {:induction false} FilterJoins<T>(a: seq<T>, b: seq<T>, keep: T -> bool)
    ensures Filter(a + b, keep) == Filter(a, keep) + Filter(b, keep)
  {
    if a == [] {
      assert a + b == b;
    } else {
      assert (a + b)[1..] == a[1..] + b;
      FilterJoins(a[1..], b, keep);
    }
  }

  /** What a restore keeps of one relay and one option, and what an export makes of nulls and of wide integers. */
  lemma SubnetEdges(c: Library, r: SubnetRow, s: Subnet, n: nat, m: int, relay: string, option: DhcpOptions.Override)
    ensures r.subnetType == None ==> ExportSubnet(c, r).subnetType == "address"
    ensures r.trustedRelays == None && r.options == None ==> ExportSubnet(c, r).trustedRelays == [] && ExportSubnet(c, r).options == []
    ensures n < 0x1_0000_0000 && r.leaseTime == Some(n + m * 0x1_0000_0000) ==> ExportSubnet(c, r).leaseTime == Some(n)
    ensures n < 0x100 && r.delegatedLength == Some(n + m * 0x100) ==> ExportSubnet(c, r).delegatedLength == Some(n)
    ensures s.trustedRelays == [relay] ==>
      RestoreSubnet(c, s).trustedRelays
      == Some(c.printRelays(if Trim(relay) != "" && c.ipv4(Trim(relay)) && !c.loopback(Trim(relay)) then [relay] else []))
    ensures s.options == [option] ==>
      RestoreSubnet(c, s).options == Some(c.printOptions(if DhcpOptions.Safe(c.ipv4, option) then [option] else []))
  {
    hide Trim, DhcpOptions.Safe;
    FilterExactly([relay], RelayFor(c), relay);
    FilterExactly([option], SafeFor(c), option);
    if n < 0x1_0000_0000 { Wraps(n, m, 0x1_0000_0000); }
    if n < 0x100 { Wraps(n, m, 0x100); }
  }

  lemma Wraps(n: nat, m: int, d: nat)
    requires n < d
    ensures (n + m * d) % d == n
  {
    var q := (n + m * d) / d;
    assert (m - q) * d == (n + m * d) % d - n;
    assert m - q >= 1 ==> (m - q) * d >= d;
    assert q - m >= 1 ==> (q - m) * d >= d;
  }

  lemma TruncateFits(v: Option<nat>, max: nat)
    requires Fits(v, max)
    ensures Truncate(v, max) == v
  {}

  /** A restored row survives an export and restore unchanged. */
  lemma SubnetSettles(c: Library, s: Subnet)
    requires Faithful(c) && SubnetFits(s)
    ensures RestoreSubnet(c, ExportSubnet(c, RestoreSubnet(c, s))) == RestoreSubnet(c, s)
  {
    hide Truncate;
    TruncateFits(s.leaseTime, U32);
    TruncateFits(s.maxLeaseTime, U32);
    TruncateFits(s.renewalTime, U32);
    TruncateFits(s.rebindingTime, U32);
    TruncateFits(s.preferredTime, U32);
    TruncateFits(s.delegatedLength, U8);
    FilterKeepsAll(Filter(s.trustedRelays, RelayFor(c)), RelayFor(c));
    FilterKeepsAll(Filter(s.options, SafeFor(c)), SafeFor(c));
  }

  // ---------------------------------------------------------------- the whole section

  datatype Reservation = Reservation(
    id: string, subnetId: Option<string>, macAddress: string, ipAddress: string, hostname: Option<string>,
    clientId: Option<string>, description: Option<string>, createdAt: string)

  /** The five tables. Rows are listed in some order; nothing below depends on which. */
  datatype Tables = Tables(
    global: Table, ddns: Table, ha: Table, subnets: multiset<SubnetRow>, reservations: multiset<Reservation>)

  datatype Section = Section(
    global: Fields, ddns: Fields, ha: Fields, subnets: seq<Subnet>, reservations: seq<Reservation>)

  function Mapped<A, B>(s: seq<A>, f: A -> B): (r: seq<B>)
    ensures |r| == |s| && forall i :: 0 <= i < |s| ==> r[i] == f(s[i])
  {
    seq(|s|, i requires 0 <= i < |s| => f(s[i]))
  }

  function ExportAll(c: Library, rows: seq<SubnetRow>): seq<Subnet> {
    Mapped(rows, r => ExportSubnet(c, r))
  }

  function RestoreAll(c: Library, subnets: seq<Subnet>): seq<SubnetRow> {
    Mapped(subnets, s => RestoreSubnet(c, s))
  }

  ghost predicate Exports(c: Library, t: Tables, s: Section) {
    && s.global == Read(c, GLOBAL, t.global)
    && s.ddns == Read(c, DDNS, t.ddns)
    && s.ha == Read(c, HA, t.ha)
    && multiset(s.reservations) == t.reservations
    && exists listing :: Lists(listing, t.subnets) && s.subnets == ExportAll(c, listing)
  }

  ghost predicate Lists(listing: seq<SubnetRow>, rows: multiset<SubnetRow>) {
    multiset(listing) == rows
  }

  ghost predicate SectionTyped(s: Section) {
    && WellTyped(GLOBAL, s.global) && WellTyped(DDNS, s.ddns) && WellTyped(HA, s.ha)
    && forall i :: 0 <= i < |s.subnets| ==> SubnetFits(s.subnets[i])
  }

  function Restored(c: Library, s: Section): Tables
    requires s.global.Keys == GLOBAL.Keys && s.ddns.Keys == DDNS.Keys && s.ha.Keys == HA.Keys
  {
    Tables(
      Written(c, GLOBAL, s.global), Written(c, DDNS, s.ddns), Written(c, HA, s.ha),
      multiset(RestoreAll(c, s.subnets)), multiset(s.reservations))
  }

  lemma ExportsTyped(c: Library, t: Tables, s: Section)
    requires Exports(c, t, s)
    ensures SectionTyped(s)
  {
    hide GLOBAL, DDNS, HA, Read;
    ReadTyped(c, GLOBAL, t.global);
    ReadTyped(c, DDNS, t.ddns);
    ReadTyped(c, HA, t.ha);
  }

  /** Restoring what was exported from restored subnets stores the same rows, whatever order they came in. */
  lemma SubnetsSettle(c: Library, subnets: seq<Subnet>, listing: seq<SubnetRow>)
    requires Faithful(c) && forall i :: 0 <= i < |subnets| ==> SubnetFits(subnets[i])
    requires Lists(listing, multiset(RestoreAll(c, subnets)))
    ensures RestoreAll(c, ExportAll(c, listing)) == listing
  {
    hide ExportSubnet, RestoreSubnet, Faithful, SubnetFits;
    var rows := RestoreAll(c, subnets);
    forall i | 0 <= i < |listing| ensures RestoreSubnet(c, ExportSubnet(c, listing[i])) == listing[i] {
      assert listing[i] in multiset(listing);
      assert listing[i] in rows;
      var j :| 0 <= j < |rows| && rows[j] == listing[i];
      SubnetSettles(c, subnets[j]);
    }
  }

  /** Restore what was exported from any tables: the next export and restore changes nothing. */
  lemma DatabaseFixedPoint(c: Library, t: Tables, first: Section, second: Section)
    requires Faithful(c) && Exports(c, t, first)
    requires SectionTyped(first) && Exports(c, Restored(c, first), second)
    ensures SectionTyped(second) && Restored(c, second) == Restored(c, first)
  {
    hide Read, Written, GLOBAL, DDNS, HA, ExportAll, RestoreAll, Faithful, SubnetFits, Typed;
    var once := Restored(c, first);
    ExportsTyped(c, once, second);
    TableSettles(c, GLOBAL, t.global);
    TableSettles(c, DDNS, t.ddns);
    TableSettles(c, HA, t.ha);
    var listing :| Lists(listing, once.subnets) && second.subnets == ExportAll(c, listing);
    SubnetsSettle(c, first.subnets, listing);
  }

  // ---------------------------------------------------------------- sections

  /** Equal up to the order in which subnets and reservations are listed. */
  ghost predicate SameSection(a: Section, b: Section) {
    && a.global == b.global && a.ddns == b.ddns && a.ha == b.ha
    && multiset(a.subnets) == multiset(b.subnets) && multiset(a.reservations) == multiset(b.reservations)
  }

  lemma {:induction false} MappedBag(c: Library, a: seq<SubnetRow>, b: seq<SubnetRow>)
    requires multiset(a) == multiset(b)
    ensures multiset(ExportAll(c, a)) == multiset(ExportAll(c, b))
    decreases |a|
  {
    hide ExportAll;
    if a == [] {
      assert |b| == |multiset(b)|;
    } else {
      var x, rest := a[0], a[1..];
      assert a == [x] + rest;
      var front, back := TakeOut(rest, b, x);
      MappedBag(c, rest, front + back);
      ExportAllConcat(c, [x], rest);
      ExportAllConcat(c, front, [x] + back);
      ExportAllConcat(c, [x], back);
      ExportAllConcat(c, front, back);
      assert b == front + ([x] + back);
    }
  }

  lemma TakeOut(rest: seq<SubnetRow>, b: seq<SubnetRow>, x: SubnetRow) returns (front: seq<SubnetRow>, back: seq<SubnetRow>)
    requires multiset(b) == multiset([x] + rest)
    ensures b == front + [x] + back && multiset(front + back) == multiset(rest)
  {
    assert x in multiset(b);
    var j :| 0 <= j < |b| && b[j] == x;
    front, back := b[..j], b[j + 1..];
    assert b == front + [x] + back;
    assert multiset(b) == multiset(front) + multiset{x} + multiset(back);
    assert multiset([x] + rest) == multiset{x} + multiset(rest);
    assert multiset(front + back) == multiset(b) - multiset{x};
    assert multiset(rest) == multiset(b) - multiset{x};
  }

  lemma ExportAllConcat(c: Library, a: seq<SubnetRow>, b: seq<SubnetRow>)
    ensures ExportAll(c, a + b) == ExportAll(c, a) + ExportAll(c, b)
  {
    hide ExportSubnet;
  }

  /** After restoring `s`, the subnets exported first and second are the same. */
  lemma SubnetPasses(c: Library, s: seq<Subnet>, first: seq<Subnet>, second: seq<Subnet>)
    requires Faithful(c) && forall i :: 0 <= i < |s| ==> SubnetFits(s[i])
    requires exists listing :: Lists(listing, multiset(RestoreAll(c, s))) && first == ExportAll(c, listing)
    requires exists listing :: Lists(listing, multiset(RestoreAll(c, first))) && second == ExportAll(c, listing)
    ensures multiset(first) == multiset(second)
  {
    hide ExportAll, RestoreAll, Faithful, SubnetFits;
    var a :| Lists(a, multiset(RestoreAll(c, s))) && first == ExportAll(c, a);
    var b :| Lists(b, multiset(RestoreAll(c, first))) && second == ExportAll(c, b);
    SubnetsSettle(c, s, a);
    MappedBag(c, a, b);
  }

  /** Restore any section and export it, three times over: the second export repeats the first exactly when the
    * HA peers of `s` were not blank, and the third always repeats the second.
    */
  lemma SectionSettles(c: Library, s: Section, first: Section, second: Section, third: Section)
    requires Faithful(c) && SectionTyped(s) && SectionTyped(first) && SectionTyped(second)
    requires Exports(c, Restored(c, s), first)
    requires Exports(c, Restored(c, first), second)
    requires Exports(c, Restored(c, second), third)
    ensures SameSection(first, second) <==> !BlankPeers(OptList, s.ha["peers"])
    ensures SameSection(second, third)
  {
    hide Read, Written, ExportAll, RestoreAll, Faithful, SubnetFits, Typed, BlankPeers, GLOBAL, DDNS, HA;
    OnlyPeersAreOptional();
    SubnetPasses(c, s.subnets, first.subnets, second.subnets);
    SubnetPasses(c, first.subnets, second.subnets, third.subnets);
    KeysSettle(c, GLOBAL, s.global);
    KeysSettle(c, GLOBAL, first.global);
    KeysSettle(c, DDNS, s.ddns);
    KeysSettle(c, DDNS, first.ddns);
    FieldsSettle(c, HA, s.ha);
    FieldsSettle(c, HA, first.ha);
    NotBlank();
  }

  lemma NotBlank()
    ensures forall k: Kind, v :: !k.OptList? ==> !BlankPeers(k, v)
  {}

  /** Fields without optional lists settle at once. */
  lemma KeysSettle(c: Library, schema: Schema, f: Fields)
    requires Faithful(c) && WellTyped(schema, f)
    requires NoOptionalList(schema)
    ensures Pass(c, schema, Pass(c, schema, f)) == Pass(c, schema, f)
  {
    FieldsSettle(c, schema, f);
    NotBlank();
  }

  /** A backup with such peers: the first export has an empty list of peers, the second has none. */
  lemma BlankPeersExample(c: Library)
    ensures BlankPeers(OptList, L([" "]))
    ensures Decode(c, OptList, Encode(c, L([" "]))) == L([]) && Decode(c, OptList, Encode(c, L([]))) == Missing
  {
    assert Trim(" ") == "" by { assert TrimStart(" ") == TrimStart(""); }
    assert Join([" "]) == " ";
    assert Pieces(" ") == [" "];
    assert Kept([" "]) == Kept([" "][1..]);
  }

  // ---------------------------------------------------------------- the tables in place

  lemma TypedKeys(s: Section)
    requires SectionTyped(s)
    ensures s.global.Keys == GLOBAL.Keys && s.ddns.Keys == DDNS.Keys && s.ha.Keys == HA.Keys
  {
    hide GLOBAL, DDNS, HA, Typed;
  }

  lemma RestoredIs(c: Library, s: Section, t: Tables)
    requires SectionTyped(s)
    requires t.global == Written(c, GLOBAL, s.global) && t.ddns == Written(c, DDNS, s.ddns) && t.ha == Written(c, HA, s.ha)
    requires t.subnets == multiset(RestoreAll(c, s.subnets)) && t.reservations == multiset(s.reservations)
    ensures t == Restored(c, s)
  {
    hide Written, GLOBAL, DDNS, HA, RestoreAll;
  }

  class Store {
    var global: Table
    var ddns: Table
    var ha: Table
    var subnets: multiset<SubnetRow>
    var reservations: multiset<Reservation>

    /** `apply_dhcp_section` when no statement fails: whatever was stored before is gone. */
    method Apply(c: Library, s: Section)
      requires SectionTyped(s)
      modifies this
      ensures Tables(global, ddns, ha, subnets, reservations) == Restored(c, s)
    {
      hide *;
      TypedKeys(s);
      subnets, reservations := multiset{}, multiset{};
      global := WritePairs(c, GLOBAL, s.global);
      InsertSubnets(c, s.subnets);
      InsertReservations(s.reservations);
      ddns := WritePairs(c, DDNS, s.ddns);
      ha := WritePairs(c, HA, s.ha);
      RestoredIs(c, s, Tables(global, ddns, ha, subnets, reservations));
    }

    method InsertSubnets(c: Library, entries: seq<Subnet>)
      requires subnets == multiset{}
      modifies this`subnets
      ensures subnets == multiset(RestoreAll(c, entries))
    {
      hide RestoreSubnet;
      ghost var all := RestoreAll(c, entries);
      for i := 0 to |entries|
        invariant subnets == multiset(all[..i])
      {
        assert all[..i + 1] == all[..i] + [all[i]];
        subnets := subnets + multiset{RestoreSubnet(c, entries[i])};
      }
      assert all[..|entries|] == all;
    }

    method InsertReservations(entries: seq<Reservation>)
      requires reservations == multiset{}
      modifies this`reservations
      ensures reservations == multiset(entries)
    {
      for i := 0 to |entries|
        invariant reservations == multiset(entries[..i])
      {
        assert entries[..i + 1] == entries[..i] + [entries[i]];
        reservations := reservations + multiset{entries[i]};
      }
      assert entries[..|entries|] == entries;
    }

    /** `build_dhcp_section`. */
    method Build(c: Library) returns (s: Section)
      ensures Exports(c, Tables(global, ddns, ha, subnets, reservations), s) && SectionTyped(s)
    {
      hide Read, GLOBAL, DDNS, HA, ExportAll, Typed, SubnetFits;
      var g := ReadPairs(c, GLOBAL, global);
      var rows := Listing(subnets);
      var reserved := Listing(reservations);
      var d := ReadPairs(c, DDNS, ddns);
      var h := ReadPairs(c, HA, ha);
      s := Section(g, d, h, ExportAll(c, rows), reserved);
      assert Lists(rows, subnets);
      ExportsTyped(c, Tables(global, ddns, ha, subnets, reservations), s);
    }
  }

  method Listing<T(==)>(rows: multiset<T>) returns (listing: seq<T>)
    ensures multiset(listing) == rows
  {
    listing := [];
    var todo := rows;
    while todo != multiset{}
      invariant multiset(listing) + todo == rows
      decreases |todo|
    {
      var r :| r in todo;
      listing := listing + [r];
      todo := todo - multiset{r};
    }
  }
}
