/** Configuration restore with rollback (aifw-api/src/backup.rs:1492-2263), interface remapping and the import
  * preview (aifw-api/src/backup.rs:1322-1394), over tables whose every operation may fail.
  */
module Restore {
  import opened Basics
  import Dhcp = DhcpSection

  /** The tables a restore clears and refills, and all the others. */
  datatype Table =
    | WgPeers | WgTunnels | IpsecSas | IpsecTunnels | GeoipRules | Rules | NatRules | Aliases | StaticRoutes
    | QueueConfigs | RateLimitRules
    | SniRules | Ja3Blocklist
    | CarpVips | PfsyncConfig | ClusterNodes
    | DhcpSubnets | DhcpReservations | DhcpConfig | DhcpDdnsConfig | DhcpHaConfig
    | Elsewhere(name: string)

  /** The key/value tables of the DHCP section. */
  predicate IsSettings(t: Table) {
    t == DhcpConfig || t == DhcpDdnsConfig || t == DhcpHaConfig
  }

  function SchemaOf(t: Table): Dhcp.Schema
    requires IsSettings(t)
  {
    if t == DhcpConfig then Dhcp.GLOBAL else if t == DhcpDdnsConfig then Dhcp.DDNS else Dhcp.HA
  }

  /** A row as far as the configuration view carries it. The `owner` of a peer is its tunnel; in a key/value table
    * the `id` is the key and `fields` the value.
    */
  datatype Row = Row(table: Table, id: string, iface: Option<string>, fields: string, owner: Option<string> := None)

  /** A peer, as a configuration lists it under its tunnel. */
  datatype Peer = Peer(id: string, fields: string)

  /** A configuration entry: its interface if it names one, its other fields, and, for a tunnel, its peers. */
  datatype Entry = Entry(id: string, iface: Option<string>, fields: string, peers: seq<Peer>)

  /** The keys of `auth_config`; a restore writes the first three. */
  datatype AuthKey = AccessTokenExpiryMins | RefreshTokenExpiryDays | RequireTotp | OtherKey(name: string)

  datatype Auth = Auth(accessMins: string, refreshDays: string, requireTotp: string)

  const AUTH_KEYS: seq<AuthKey> := [AccessTokenExpiryMins, RefreshTokenExpiryDays, RequireTotp]

  function AuthValue(a: Auth, key: AuthKey): string {
    match key
    case AccessTokenExpiryMins => a.accessMins
    case RefreshTokenExpiryDays => a.refreshDays
    case RequireTotp => a.requireTotp
    case OtherKey(_) => ""
  }

  function AuthRows(a: Auth, keys: seq<AuthKey>): map<AuthKey, string> {
    map key | key in keys :: AuthValue(a, key)
  }

  /** A `FirewallConfig`: the entries per section, named by the table they go to, the DHCP settings per key/value
    * table, and the auth settings. A section that is not mentioned is empty; a setting that is not mentioned has
    * its default.
    */
  datatype Config = Config(sections: map<Table, seq<Entry>>, settings: map<Table, Dhcp.Fields>, auth: Auth)

  function Of(cfg: Config, t: Table): seq<Entry> {
    if t in cfg.sections then cfg.sections[t] else []
  }

  function SettingsOf(cfg: Config, t: Table): (f: Dhcp.Fields)
    requires IsSettings(t)
    ensures f.Keys == SchemaOf(t).Keys
  {
    Dhcp.Filled(SchemaOf(t), if t in cfg.settings then cfg.settings[t] else map[])
  }

  /** Old name to new name; None means that entries on it are dropped. */
  type InterfaceMap = map<string, Option<string>>

  /** How entries become rows and rows entries: the interface map, the `*_from_config` parsers, which copy fields
    * around library address parsing and may reject an entry, how a row is shown in a configuration, and the
    * library code behind the DHCP settings.
    */
  datatype Translation = Translation(
    ifaces: InterfaceMap,
    parse: (Table, string) -> Option<string>, show: (Table, string) -> string,
    peer: string -> string, showPeer: string -> string,
    library: Dhcp.Library
  )

  /** `map_iface`. */
  function MapIface(name: string, ifaces: InterfaceMap): Option<string> {
    if name in ifaces then ifaces[name] else Some(name)
  }

  /** An entry without an interface is always kept; with one, `None` says to drop it. */
  function Resolve(iface: Option<string>, ifaces: InterfaceMap): Option<Option<string>> {
    match iface
    case None => Some(None)
    case Some(name) =>
      match MapIface(name, ifaces)
      case None => None
      case Some(new') => Some(Some(new'))
  }

  // ---------------------------------------------------------------- the image of a configuration

  /** The rows one entry of section `t` stands for. */
  function Products(k: Translation, t: Table, e: Entry): set<Row> {
    match (Resolve(e.iface, k.ifaces), k.parse(t, e.fields))
    case (Some(iface), Some(fields)) => {Row(t, e.id, iface, fields)} + PeerRows(k, t, e)
    case _ => {}
  }

  function PeerRow(k: Translation, tunnel: string, p: Peer): Row {
    Row(WgPeers, p.id, None, k.peer(p.fields), Some(tunnel))
  }

  function PeerRows(k: Translation, t: Table, e: Entry): set<Row> {
    if t == WgTunnels then set p | p in e.peers :: PeerRow(k, e.id, p) else {}
  }

  function SectionImage(k: Translation, t: Table, entries: seq<Entry>): set<Row> {
    if entries == [] then {}
    else SectionImage(k, t, entries[..|entries| - 1]) + Products(k, t, entries[|entries| - 1])
  }

  function KeyRows(t: Table, table: map<string, string>): set<Row> {
    set key | key in table :: Row(t, key, None, table[key])
  }

  /** The rows of one section: in a key/value table, one for every key of its schema. */
  function SectionRows(k: Translation, cfg: Config, t: Table): set<Row> {
    if IsSettings(t) then KeyRows(t, Dhcp.Written(k.library, SchemaOf(t), SettingsOf(cfg, t)))
    else SectionImage(k, t, Of(cfg, t))
  }

  function ImageOf(k: Translation, cfg: Config, sections: seq<Table>): set<Row> {
    if sections == [] then {}
    else ImageOf(k, cfg, sections[..|sections| - 1]) + SectionRows(k, cfg, sections[|sections| - 1])
  }

  /** One stage of a restore: the tables it clears, then the sections it refills, in the code's order. */
  datatype Stage = Stage(clears: seq<Table>, refills: seq<Table>)

  const FIREWALL := Stage(
    [WgPeers, WgTunnels, IpsecSas, IpsecTunnels, GeoipRules, Rules, NatRules, Aliases, StaticRoutes],
    [Rules, NatRules, Aliases, StaticRoutes, GeoipRules, WgTunnels, IpsecSas, IpsecTunnels])
  const SHAPING := Stage([QueueConfigs, RateLimitRules], [QueueConfigs, RateLimitRules])
  const TLS := Stage([SniRules, Ja3Blocklist], [SniRules, Ja3Blocklist])
  const HA := Stage([CarpVips, PfsyncConfig, ClusterNodes], [CarpVips, PfsyncConfig, ClusterNodes])
  const DHCP := Stage(
    [DhcpSubnets, DhcpReservations, DhcpConfig, DhcpDdnsConfig, DhcpHaConfig],
    [DhcpConfig, DhcpSubnets, DhcpReservations, DhcpDdnsConfig, DhcpHaConfig])

  const CLEARS: seq<Table> := FIREWALL.clears + SHAPING.clears + TLS.clears + HA.clears + DHCP.clears
  const SECTIONS: seq<Table> := FIREWALL.refills + SHAPING.refills + TLS.refills + HA.refills + DHCP.refills

  /** The rows a configuration stands for. */
  function Image(k: Translation, cfg: Config): set<Row> {
    ImageOf(k, cfg, SECTIONS)
  }

  /** The rows of tables that a restore does not manage. */
  function Unmanaged(rows: set<Row>): set<Row> {
    set r | r in rows && r.table.Elsewhere?
  }

  function Managed(rows: set<Row>): set<Row> {
    set r | r in rows && !r.table.Elsewhere?
  }

  function Without(rows: set<Row>, tables: seq<Table>): set<Row> {
    set r | r in rows && r.table !in tables
  }

  function InTable(rows: set<Row>, t: Table): set<Row> {
    set r | r in rows && r.table == t
  }

  // ---------------------------------------------------------------- the data plane

  /** What a restore loads into the kernel: queues, rate limits, filter rules, NAT rules and geo-IP rules. */
  datatype Plane = QueuePlane | LimitPlane | FilterPlane | NatPlane | GeoPlane

  type Kernel = map<Plane, set<Row>>

  /** The kernel enforces what the tables hold; the filter rules include those of the WireGuard tunnels. */
  ghost predicate InStep(kernel: Kernel, rows: set<Row>) {
    && ShapingInStep(kernel, rows)
    && FilterPlane in kernel && kernel[FilterPlane] == InTable(rows, Rules) + InTable(rows, WgTunnels)
    && NatPlane in kernel && kernel[NatPlane] == InTable(rows, NatRules)
    && GeoPlane in kernel && kernel[GeoPlane] == InTable(rows, GeoipRules)
  }

  ghost predicate ShapingInStep(kernel: Kernel, rows: set<Row>) {
    && QueuePlane in kernel && kernel[QueuePlane] == InTable(rows, QueueConfigs)
    && LimitPlane in kernel && kernel[LimitPlane] == InTable(rows, RateLimitRules)
  }

  // ---------------------------------------------------------------- tables with faults

  /** Operation number i succeeds when `ok(i)`; a failing insert may still have left its row behind when
    * `partial(i)`, as when the row is written and the data-plane sync after it fails.
    */
  datatype Faults = Faults(ok: nat -> bool, partial: nat -> bool)

  /** No operation numbered from `a` up to but not including `b` fails. */
  ghost predicate Clean(f: Faults, a: nat, b: nat) {
    forall i :: a <= i < b ==> f.ok(i)
  }

  class Database {
    var rows: set<Row>
    var auth: map<AuthKey, string>
    var kernel: Kernel
    var clock: nat
    const faults: Faults

    constructor (rows: set<Row>, auth: map<AuthKey, string>, kernel: Kernel, faults: Faults)
      ensures this.rows == rows && this.auth == auth && this.kernel == kernel && clock == 0 && this.faults == faults
    {
      this.rows, this.auth, this.kernel, this.clock, this.faults := rows, auth, kernel, 0, faults;
    }

    /** A required step that touches no table here: a migration, or a data-plane apply. */
    method Require() returns (ok: bool)
      modifies this`clock
      ensures clock == old(clock) + 1 && ok == faults.ok(old(clock))
    {
      ok := faults.ok(clock);
      clock := clock + 1;
    }

    method Clear(t: Table) returns (ok: bool)
      modifies this`clock, this`rows
      ensures clock == old(clock) + 1 && ok == faults.ok(old(clock))
      ensures rows == if ok then Without(old(rows), [t]) else old(rows)
    {
      ok := Require();
      if ok {
        rows := Without(rows, [t]);
      }
    }

    method Insert(r: Row) returns (ok: bool)
      modifies this`clock, this`rows
      ensures clock == old(clock) + 1 && ok == faults.ok(old(clock))
      ensures ok ==> rows == old(rows) + {r}
      ensures old(rows) <= rows <= old(rows) + {r}
    {
      var kept := faults.partial(clock);
      ok := Require();
      if ok || kept {
        rows := rows + {r};
      }
    }

    method ClearAll(tables: seq<Table>) returns (ok: bool)
      requires forall t :: t in tables ==> !t.Elsewhere?
      modifies this`clock, this`rows
      ensures old(clock) <= clock && (ok <==> Clean(faults, old(clock), clock))
      ensures ok ==> rows == Without(old(rows), tables)
      ensures Unmanaged(rows) == Unmanaged(old(rows))
    {
      assert tables[..0] == [];
      for i := 0 to |tables|
        invariant old(clock) <= clock && Clean(faults, old(clock), clock)
        invariant rows == Without(old(rows), tables[..i])
      {
        assert tables[..i + 1] == tables[..i] + [tables[i]];
        assert tables[i] in tables;
        ok := Clear(tables[i]);
        if !ok {
          return false;
        }
      }
      assert tables[..|tables|] == tables;
      ok := true;
    }

    method InsertPeers(k: Translation, e: Entry) returns (ok: bool)
      modifies this`clock, this`rows
      ensures old(clock) <= clock && (ok <==> Clean(faults, old(clock), clock))
      ensures ok ==> rows == old(rows) + PeerRows(k, WgTunnels, e)
      ensures Unmanaged(rows) == Unmanaged(old(rows))
    {
      for i := 0 to |e.peers|
        invariant old(clock) <= clock && Clean(faults, old(clock), clock)
        invariant rows == old(rows) + (set p | p in e.peers[..i] :: PeerRow(k, e.id, p))
      {
        var r := PeerRow(k, e.id, e.peers[i]);
        assert e.peers[..i + 1] == e.peers[..i] + [e.peers[i]];
        ok := Insert(r);
        if !ok {
          return false;
        }
      }
      assert e.peers[..|e.peers|] == e.peers;
      ok := true;
    }

    /** The body of one section loop: drop, skip or insert the entry. */
    method InsertEntry(k: Translation, t: Table, e: Entry) returns (ok: bool)
      requires !t.Elsewhere?
      modifies this`clock, this`rows
      ensures old(clock) <= clock && (ok <==> Clean(faults, old(clock), clock))
      ensures ok ==> rows == old(rows) + Products(k, t, e)
      ensures Unmanaged(rows) == Unmanaged(old(rows))
    {
      var iface := Resolve(e.iface, k.ifaces);
      var fields := k.parse(t, e.fields);
      if iface.None? || fields.None? {
        return true;
      }
      ok := Insert(Row(t, e.id, iface.value, fields.value));
      if ok && t == WgTunnels {
        ok := InsertPeers(k, e);
      }
    }

    method Refill(k: Translation, t: Table, entries: seq<Entry>) returns (ok: bool)
      requires !t.Elsewhere?
      modifies this`clock, this`rows
      ensures old(clock) <= clock && (ok <==> Clean(faults, old(clock), clock))
      ensures ok ==> rows == old(rows) + SectionImage(k, t, entries)
      ensures Unmanaged(rows) == Unmanaged(old(rows))
    {
      hide SectionImage, Products, Unmanaged;
      SectionImageOfNothing(k, t);
      assert entries[..0] == [];
      for i := 0 to |entries|
        invariant old(clock) <= clock && Clean(faults, old(clock), clock)
        invariant rows == old(rows) + SectionImage(k, t, entries[..i])
        invariant Unmanaged(rows) == Unmanaged(old(rows))
      {
        SectionImageSnoc(k, t, entries, i);
        ok := InsertEntry(k, t, entries[i]);
        if !ok {
          return false;
        }
      }
      assert entries[..|entries|] == entries;
      ok := true;
    }

    /** The `INSERT OR REPLACE` of one key/value section into its emptied table, in whatever order of the keys. */
    method WriteSettings(k: Translation, t: Table, f: Dhcp.Fields) returns (ok: bool)
      requires IsSettings(t) && f.Keys == SchemaOf(t).Keys
      modifies this`clock, this`rows
      ensures old(clock) <= clock && (ok <==> Clean(faults, old(clock), clock))
      ensures ok ==> rows == old(rows) + KeyRows(t, Dhcp.Written(k.library, SchemaOf(t), f))
      ensures Unmanaged(rows) == Unmanaged(old(rows))
    {
      hide KeyRows, Unmanaged, SchemaOf, Dhcp.Encode, Dhcp.Written;
      var todo := f.Keys;
      ghost var texts := Dhcp.Written(k.library, SchemaOf(t), f);
      ghost var done: map<string, string> := map[];
      NoKeyRows(t);
      while todo != {}
        invariant todo <= f.Keys && done.Keys == f.Keys - todo
        invariant forall key :: key in done ==> done[key] == Dhcp.Encode(k.library, f[key])
        invariant old(clock) <= clock && Clean(faults, old(clock), clock)
        invariant rows == old(rows) + KeyRows(t, done)
        invariant Unmanaged(rows) == Unmanaged(old(rows))
      {
        var key :| key in todo;
        var text := Dhcp.Encode(k.library, f[key]);
        KeyRowsNext(t, done, key, text);
        ok := InsertSetting(t, key, text);
        if !ok {
          return false;
        }
        done := done[key := text];
        todo := todo - {key};
      }
      AllWritten(k.library, SchemaOf(t), f, done);
      ok := true;
    }

    method InsertSetting(t: Table, key: string, text: string) returns (ok: bool)
      requires IsSettings(t)
      modifies this`clock, this`rows
      ensures clock == old(clock) + 1 && ok == faults.ok(old(clock))
      ensures ok ==> rows == old(rows) + {Row(t, key, None, text)}
      ensures Unmanaged(rows) == Unmanaged(old(rows))
    {
      ok := Insert(Row(t, key, None, text));
    }

    method RefillSection(k: Translation, cfg: Config, t: Table) returns (ok: bool)
      requires !t.Elsewhere?
      modifies this`clock, this`rows
      ensures old(clock) <= clock && (ok <==> Clean(faults, old(clock), clock))
      ensures ok ==> rows == old(rows) + SectionRows(k, cfg, t)
      ensures Unmanaged(rows) == Unmanaged(old(rows))
    {
      hide SectionImage, Of, SettingsOf, SchemaOf, KeyRows, Dhcp.Written, Unmanaged;
      if IsSettings(t) {
        ok := WriteSettings(k, t, SettingsOf(cfg, t));
      } else {
        ok := Refill(k, t, Of(cfg, t));
      }
    }

    method RunStage(k: Translation, cfg: Config, stage: Stage) returns (ok: bool)
      requires forall t :: t in stage.clears + stage.refills ==> !t.Elsewhere?
      modifies this`clock, this`rows
      ensures old(clock) <= clock && (ok <==> Clean(faults, old(clock), clock))
      ensures ok ==> rows == Without(old(rows), stage.clears) + ImageOf(k, cfg, stage.refills)
      ensures Unmanaged(rows) == Unmanaged(old(rows))
    {
      hide ImageOf, SectionRows;
      ok := ClearAll(stage.clears);
      if !ok {
        return false;
      }
      ghost var cleared := rows;
      ImageOfNothing(k, cfg);
      assert stage.refills[..0] == [];
      for i := 0 to |stage.refills|
        invariant old(clock) <= clock && Clean(faults, old(clock), clock)
        invariant rows == cleared + ImageOf(k, cfg, stage.refills[..i])
        invariant Unmanaged(rows) == Unmanaged(old(rows))
      {
        var t := stage.refills[i];
        ImageOfSnoc(k, cfg, stage.refills, i);
        assert t in stage.clears + stage.refills;
        ok := RefillSection(k, cfg, t);
        if !ok {
          return false;
        }
      }
      assert stage.refills[..|stage.refills|] == stage.refills;
      ok := true;
    }

    /** The `INSERT OR REPLACE` of the auth settings. */
    method WriteAuth(a: Auth) returns (ok: bool)
      modifies this`clock, this`auth
      ensures old(clock) <= clock && (ok <==> Clean(faults, old(clock), clock))
      ensures ok ==> auth == old(auth) + AuthRows(a, AUTH_KEYS)
      ensures forall key :: key !in AUTH_KEYS ==> (key in auth <==> key in old(auth))
      ensures forall key :: key !in AUTH_KEYS && key in auth ==> auth[key] == old(auth)[key]
    {
      hide AUTH_KEYS, AuthValue, AuthRows;
      AuthNone(a, AUTH_KEYS[..0]);
      for i := 0 to |AUTH_KEYS|
        invariant old(clock) <= clock && Clean(faults, old(clock), clock)
        invariant auth == old(auth) + AuthRows(a, AUTH_KEYS[..i])
      {
        ok := Require();
        AuthOutside(old(auth), a, AUTH_KEYS, i);
        if !ok {
          return false;
        }
        AuthNext(old(auth), a, AUTH_KEYS, i);
        auth := auth[AUTH_KEYS[i] := AuthValue(a, AUTH_KEYS[i])];
      }
      AuthOutside(old(auth), a, AUTH_KEYS, |AUTH_KEYS|);
      assert AUTH_KEYS[..|AUTH_KEYS|] == AUTH_KEYS;
      ok := true;
    }

    /** A data-plane apply: the kernel gets these rows, or keeps what it had. */
    method Load(p: Plane, content: set<Row>) returns (ok: bool)
      modifies this`clock, this`kernel
      ensures clock == old(clock) + 1 && ok == faults.ok(old(clock))
      ensures kernel == if ok then old(kernel)[p := content] else old(kernel)
    {
      ok := Require();
      if ok {
        kernel := kernel[p := content];
      }
    }

    /** A stage, after its migration if it has one, on top of the stages that cleared `cleared` and refilled
      * `refilled` starting from `start`.
      */
    method NextStage(k: Translation, cfg: Config, migrates: bool, stage: Stage,
                     ghost start: set<Row>, ghost cleared: seq<Table>, ghost refilled: seq<Table>) returns (ok: bool)
      requires forall t :: t in stage.clears + stage.refills ==> !t.Elsewhere?
      requires forall t :: t in refilled ==> t !in stage.clears
      requires WgPeers !in stage.clears || WgTunnels !in refilled
      requires rows == Without(start, cleared) + ImageOf(k, cfg, refilled)
      modifies this`clock, this`rows
      ensures old(clock) <= clock && (ok <==> Clean(faults, old(clock), clock))
      ensures ok ==> rows == Without(start, cleared + stage.clears) + ImageOf(k, cfg, refilled + stage.refills)
      ensures ok ==> forall t :: Apart(stage, t) ==> InTable(rows, t) == InTable(old(rows), t)
      ensures Unmanaged(rows) == Unmanaged(old(rows))
    {
      hide Without, ImageOf, Unmanaged, InTable, Apart, Clean;
      CleanJoins(faults);
      CleanOne(faults, clock);
      ok := true;
      if migrates {
        ok := Require();
      }
      if ok {
        ghost var before := rows;
        ok := RunStage(k, cfg, stage);
        if ok {
          StagesCompose(k, cfg, start, cleared, refilled, stage);
          forall t | Apart(stage, t) ensures InTable(rows, t) == InTable(before, t) {
            StageKeeps(k, cfg, stage, before, t);
          }
        }
      }
    }

    /** The shaping stage with its two applies. */
    method ApplyShaping(k: Translation, cfg: Config, ghost start: set<Row>) returns (ok: bool)
      requires rows == Without(start, [] + FIREWALL.clears) + ImageOf(k, cfg, [] + FIREWALL.refills)
      modifies this`clock, this`rows, this`kernel
      ensures old(clock) <= clock && (ok <==> Clean(faults, old(clock), clock))
      ensures ok ==> rows == Without(start, [] + FIREWALL.clears + SHAPING.clears) + ImageOf(k, cfg, [] + FIREWALL.refills + SHAPING.refills)
      ensures ok ==> ShapingInStep(kernel, rows)
      ensures Unmanaged(rows) == Unmanaged(old(rows))
    {
      hide Without, ImageOf, Unmanaged, InTable, Apart, Clean, FIREWALL, SHAPING;
      StagesAreApart();
      CleanJoins(faults);
      ok := NextStage(k, cfg, true, SHAPING, start, [] + FIREWALL.clears, [] + FIREWALL.refills);
      if !ok { return; }
      CleanOne(faults, clock);
      ok := Load(QueuePlane, InTable(rows, QueueConfigs));
      if !ok { return; }
      CleanOne(faults, clock);
      ok := Load(LimitPlane, InTable(rows, RateLimitRules));
    }

    /** The final applies: the VPN rules are collected, then filter, NAT and geo-IP rules are loaded. */
    method ApplyRules() returns (ok: bool)
      modifies this`clock, this`kernel
      ensures old(clock) <= clock && (ok <==> Clean(faults, old(clock), clock))
      ensures ok && old(ShapingInStep(kernel, rows)) ==> InStep(kernel, rows)
    {
      hide InTable, Clean;
      CleanJoins(faults);
      CleanOne(faults, clock);
      ok := Require();
      if !ok { return; }
      var vpn := InTable(rows, WgTunnels);
      CleanOne(faults, clock);
      ok := Load(FilterPlane, InTable(rows, Rules) + vpn);
      if !ok { return; }
      CleanOne(faults, clock);
      ok := Load(NatPlane, InTable(rows, NatRules));
      if !ok { return; }
      CleanOne(faults, clock);
      ok := Load(GeoPlane, InTable(rows, GeoipRules));
    }

    /** `apply_firewall_config`. Success also means that the kernel enforces what was restored. */
    method ApplyFirewallConfig(k: Translation, cfg: Config) returns (ok: bool)
      modifies this`clock, this`rows, this`auth, this`kernel
      ensures old(clock) <= clock && (ok <==> Clean(faults, old(clock), clock))
      ensures ok ==> rows == Unmanaged(old(rows)) + Image(k, cfg)
      ensures ok ==> InStep(kernel, rows)
      ensures ok ==> auth == old(auth) + AuthRows(cfg.auth, AUTH_KEYS)
      ensures Unmanaged(rows) == Unmanaged(old(rows))
      ensures forall key :: key !in AUTH_KEYS ==> (key in auth <==> key in old(auth))
      ensures forall key :: key !in AUTH_KEYS && key in auth ==> auth[key] == old(auth)[key]
    {
      hide *;
      StagesAreApart();
      ShapingIsApart();
      CleanJoins(faults);
      NothingDone(k, cfg, rows);
      ok := NextStage(k, cfg, false, FIREWALL, old(rows), [], []);
      if !ok { return; }
      ok := WriteAuth(cfg.auth);
      if !ok { return; }
      ok := ApplyShaping(k, cfg, old(rows));
      if !ok { return; }
      ghost var shaped := rows;
      ghost var cleared, refilled := [] + FIREWALL.clears + SHAPING.clears, [] + FIREWALL.refills + SHAPING.refills;
      ok := NextStage(k, cfg, true, TLS, old(rows), cleared, refilled);
      if !ok { return; }
      cleared, refilled := cleared + TLS.clears, refilled + TLS.refills;
      ok := NextStage(k, cfg, true, HA, old(rows), cleared, refilled);
      if !ok { return; }
      cleared, refilled := cleared + HA.clears, refilled + HA.refills;
      ok := NextStage(k, cfg, false, DHCP, old(rows), cleared, refilled);
      if !ok { return; }
      AllStages(k, cfg, old(rows));
      ShapingKept(kernel, shaped, rows);
      ok := ApplyRules();
    }
  }

  lemma AuthNone(a: Auth, keys: seq<AuthKey>)
    requires keys == []
    ensures AuthRows(a, keys) == map[]
  {}

  lemma AuthNext(before: map<AuthKey, string>, a: Auth, keys: seq<AuthKey>, i: nat)
    requires i < |keys|
    ensures (before + AuthRows(a, keys[..i]))[keys[i] := AuthValue(a, keys[i])] == before + AuthRows(a, keys[..i + 1])
  {
    hide AuthValue;
    assert keys[..i + 1] == keys[..i] + [keys[i]];
  }

  lemma AuthOutside(before: map<AuthKey, string>, a: Auth, keys: seq<AuthKey>, i: nat)
    requires i <= |keys|
    ensures forall key :: key !in keys ==> (key in before + AuthRows(a, keys[..i]) <==> key in before)
    ensures forall key :: key !in keys && key in before ==> (before + AuthRows(a, keys[..i]))[key] == before[key]
  {
    hide AuthValue;
  }

  /** The stage neither clears nor refills the table. */
  predicate Apart(stage: Stage, t: Table) {
    t !in stage.clears && t !in stage.refills && t != WgPeers
  }

  lemma ShapingKept(kernel: Kernel, before: set<Row>, after: set<Row>)
    requires InTable(after, QueueConfigs) == InTable(before, QueueConfigs)
    requires InTable(after, RateLimitRules) == InTable(before, RateLimitRules)
    ensures ShapingInStep(kernel, before) == ShapingInStep(kernel, after)
  {}

  lemma ShapingIsApart()
    ensures forall stage :: stage == TLS || stage == HA || stage == DHCP ==> Apart(stage, QueueConfigs) && Apart(stage, RateLimitRules)
  {
    hide FIREWALL, SHAPING, TLS, HA, DHCP;
    StageTables(QueueConfigs);
    StageTables(RateLimitRules);
  }

  lemma StageKeeps(k: Translation, cfg: Config, stage: Stage, rows: set<Row>, t: Table)
    requires Apart(stage, t)
    ensures InTable(Without(rows, stage.clears) + ImageOf(k, cfg, stage.refills), t) == InTable(rows, t)
  {
    hide ImageOf;
    forall r | r in ImageOf(k, cfg, stage.refills) ensures r.table != t {
      ImageTables(k, cfg, stage.refills, r);
    }
  }

  lemma CleanOne(f: Faults, i: nat)
    ensures Clean(f, i, i) && (Clean(f, i, i + 1) <==> f.ok(i))
  {}

  lemma CleanJoins(f: Faults)
    ensures forall a: nat, b: nat, c: nat :: a <= b <= c ==> (Clean(f, a, c) <==> Clean(f, a, b) && Clean(f, b, c))
  {}

  lemma NothingDone(k: Translation, cfg: Config, rows: set<Row>)
    ensures rows == Without(rows, []) + ImageOf(k, cfg, [])
  {}

  lemma StagesAreApart()
    ensures forall t :: t in FIREWALL.clears + FIREWALL.refills ==> !t.Elsewhere?
    ensures forall t :: t in SHAPING.clears + SHAPING.refills ==> !t.Elsewhere?
    ensures forall t :: t in TLS.clears + TLS.refills ==> !t.Elsewhere?
    ensures forall t :: t in HA.clears + HA.refills ==> !t.Elsewhere?
    ensures forall t :: t in DHCP.clears + DHCP.refills ==> !t.Elsewhere?
    ensures forall t :: t in [] + FIREWALL.refills ==> t !in SHAPING.clears
    ensures forall t :: t in [] + FIREWALL.refills + SHAPING.refills ==> t !in TLS.clears
    ensures forall t :: t in [] + FIREWALL.refills + SHAPING.refills + TLS.refills ==> t !in HA.clears
    ensures forall t :: t in [] + FIREWALL.refills + SHAPING.refills + TLS.refills + HA.refills ==> t !in DHCP.clears
    ensures WgPeers !in SHAPING.clears && WgPeers !in TLS.clears && WgPeers !in HA.clears && WgPeers !in DHCP.clears
  {
    hide FIREWALL, SHAPING, TLS, HA, DHCP;
    forall t | t in FIREWALL.clears + FIREWALL.refills ensures !t.Elsewhere? { StageTables(t); }
    forall t | t in SHAPING.clears + SHAPING.refills ensures !t.Elsewhere? { StageTables(t); }
    forall t | t in TLS.clears + TLS.refills ensures !t.Elsewhere? { StageTables(t); }
    forall t | t in HA.clears + HA.refills ensures !t.Elsewhere? { StageTables(t); }
    forall t | t in DHCP.clears + DHCP.refills ensures !t.Elsewhere? { StageTables(t); }
    forall t | t in [] + FIREWALL.refills ensures t !in SHAPING.clears { StageTables(t); }
    forall t | t in [] + FIREWALL.refills + SHAPING.refills ensures t !in TLS.clears { StageTables(t); }
    forall t | t in [] + FIREWALL.refills + SHAPING.refills + TLS.refills ensures t !in HA.clears { StageTables(t); }
    forall t | t in [] + FIREWALL.refills + SHAPING.refills + TLS.refills + HA.refills ensures t !in DHCP.clears { StageTables(t); }
    StageTables(WgPeers);
  }

  function StageNumber(t: Table): nat {
    match t
    case QueueConfigs | RateLimitRules => 2
    case SniRules | Ja3Blocklist => 3
    case CarpVips | PfsyncConfig | ClusterNodes => 4
    case DhcpSubnets | DhcpReservations | DhcpConfig | DhcpDdnsConfig | DhcpHaConfig => 5
    case Elsewhere(_) => 0
    case _ => 1
  }

  ghost predicate InStage(t: Table) {
    && (t.Elsewhere? <==> StageNumber(t) == 0)
    && (t in FIREWALL.clears <==> StageNumber(t) == 1)
    && (t in FIREWALL.refills <==> StageNumber(t) == 1 && t != WgPeers)
    && (t in SHAPING.clears <==> StageNumber(t) == 2) && (t in SHAPING.refills <==> StageNumber(t) == 2)
    && (t in TLS.clears <==> StageNumber(t) == 3) && (t in TLS.refills <==> StageNumber(t) == 3)
    && (t in HA.clears <==> StageNumber(t) == 4) && (t in HA.refills <==> StageNumber(t) == 4)
    && (t in DHCP.clears <==> StageNumber(t) == 5) && (t in DHCP.refills <==> StageNumber(t) == 5)
  }

  lemma StageTables(t: Table)
    ensures InStage(t)
  {
    hide FIREWALL, SHAPING, TLS, HA, DHCP;
    FirewallTables(t);
    OtherTables(t);
    DhcpTables(t);
  }

  lemma FirewallTables(t: Table)
    ensures t in FIREWALL.clears <==> StageNumber(t) == 1
    ensures t in FIREWALL.refills <==> StageNumber(t) == 1 && t != WgPeers
  {
    hide SHAPING, TLS, HA, DHCP;
  }

  lemma OtherTables(t: Table)
    ensures (t in SHAPING.clears <==> StageNumber(t) == 2) && (t in SHAPING.refills <==> StageNumber(t) == 2)
    ensures (t in TLS.clears <==> StageNumber(t) == 3) && (t in TLS.refills <==> StageNumber(t) == 3)
    ensures (t in HA.clears <==> StageNumber(t) == 4) && (t in HA.refills <==> StageNumber(t) == 4)
  {
    hide FIREWALL, DHCP;
  }

  lemma DhcpTables(t: Table)
    ensures (t in DHCP.clears <==> StageNumber(t) == 5) && (t in DHCP.refills <==> StageNumber(t) == 5)
  {
    hide FIREWALL, SHAPING, TLS, HA;
  }

  lemma AllStages(k: Translation, cfg: Config, rows: set<Row>)
    ensures Without(rows, [] + FIREWALL.clears + SHAPING.clears + TLS.clears + HA.clears + DHCP.clears) == Unmanaged(rows)
    ensures ImageOf(k, cfg, [] + FIREWALL.refills + SHAPING.refills + TLS.refills + HA.refills + DHCP.refills) == Image(k, cfg)
  {
    assert [] + FIREWALL.refills + SHAPING.refills + TLS.refills + HA.refills + DHCP.refills == SECTIONS;
    assert [] + FIREWALL.clears + SHAPING.clears + TLS.clears + HA.clears + DHCP.clears == CLEARS;
    forall r | r in rows ensures r.table in CLEARS <==> !r.table.Elsewhere? {
      ManagedTables(r.table);
    }
  }

  lemma ManagedTables(t: Table)
    ensures t in CLEARS <==> !t.Elsewhere?
    ensures t in SECTIONS <==> !t.Elsewhere? && t != WgPeers
  {
    hide FIREWALL, SHAPING, TLS, HA, DHCP;
    StageTables(t);
  }

  lemma {:induction false} ImageTables(k: Translation, cfg: Config, sections: seq<Table>, r: Row)
    requires r in ImageOf(k, cfg, sections)
    ensures r.table in sections || (r.table == WgPeers && WgTunnels in sections)
  {
    hide SectionRows;
    var last := sections[|sections| - 1];
    if r in SectionRows(k, cfg, last) {
      SectionTables(k, cfg, last, r);
    } else {
      ImageTables(k, cfg, sections[..|sections| - 1], r);
    }
  }

  lemma SectionTables(k: Translation, cfg: Config, t: Table, r: Row)
    requires r in SectionRows(k, cfg, t)
    ensures r.table == t || (t == WgTunnels && r.table == WgPeers)
  {
    hide SettingsOf, SchemaOf, Dhcp.Written, Of, SectionImage;
    if !IsSettings(t) {
      EntryTables(k, t, Of(cfg, t), r);
    }
  }

  lemma {:induction false} EntryTables(k: Translation, t: Table, entries: seq<Entry>, r: Row)
    requires r in SectionImage(k, t, entries)
    ensures r.table == t || (t == WgTunnels && r.table == WgPeers)
  {
    if r !in Products(k, t, entries[|entries| - 1]) {
      EntryTables(k, t, entries[..|entries| - 1], r);
    }
  }

  lemma NoKeyRows(t: Table)
    ensures KeyRows(t, map[]) == {}
  {}

  lemma AllWritten(c: Dhcp.Library, schema: Dhcp.Schema, f: Dhcp.Fields, texts: map<string, string>)
    requires texts.Keys == f.Keys == schema.Keys
    requires forall key :: key in texts ==> texts[key] == Dhcp.Encode(c, f[key])
    ensures texts == Dhcp.Written(c, schema, f)
  {
    hide Dhcp.Encode;
  }

  lemma KeyRowsNext(t: Table, table: map<string, string>, key: string, text: string)
    requires key !in table
    ensures KeyRows(t, table[key := text]) == KeyRows(t, table) + {Row(t, key, None, text)}
  {
    forall k | k in table ensures Row(t, k, None, table[k]) in KeyRows(t, table[key := text]) {
      assert k in table[key := text];
    }
    assert key in table[key := text];
  }

  lemma {:induction false} ImageOfConcat(k: Translation, cfg: Config, a: seq<Table>, b: seq<Table>)
    ensures ImageOf(k, cfg, a + b) == ImageOf(k, cfg, a) + ImageOf(k, cfg, b)
  {
    hide SectionRows;
    if b == [] {
      assert a + b == a;
    } else {
      assert (a + b)[..|a + b| - 1] == a + b[..|b| - 1];
      ImageOfConcat(k, cfg, a, b[..|b| - 1]);
    }
  }

  /** The three key/value tables of the image are those that restoring the DHCP section writes. */
  lemma SettingsAreRestored(k: Translation, cfg: Config, s: Dhcp.Section)
    requires s.global.Keys == Dhcp.GLOBAL.Keys && s.ddns.Keys == Dhcp.DDNS.Keys && s.ha.Keys == Dhcp.HA.Keys
    requires cfg.settings == map[DhcpConfig := s.global, DhcpDdnsConfig := s.ddns, DhcpHaConfig := s.ha]
    ensures InTable(Image(k, cfg), DhcpConfig) == KeyRows(DhcpConfig, Dhcp.Restored(k.library, s).global)
    ensures InTable(Image(k, cfg), DhcpDdnsConfig) == KeyRows(DhcpDdnsConfig, Dhcp.Restored(k.library, s).ddns)
    ensures InTable(Image(k, cfg), DhcpHaConfig) == KeyRows(DhcpHaConfig, Dhcp.Restored(k.library, s).ha)
  {
    hide SECTIONS, KeyRows, ImageOf, SectionRows, Dhcp.Restored, Dhcp.GLOBAL, Dhcp.DDNS, Dhcp.HA;
    ImageInTable(k, cfg, DhcpConfig);
    ImageInTable(k, cfg, DhcpDdnsConfig);
    ImageInTable(k, cfg, DhcpHaConfig);
    SectionSettings(k, cfg, s);
  }

  lemma SectionSettings(k: Translation, cfg: Config, s: Dhcp.Section)
    requires s.global.Keys == Dhcp.GLOBAL.Keys && s.ddns.Keys == Dhcp.DDNS.Keys && s.ha.Keys == Dhcp.HA.Keys
    requires cfg.settings == map[DhcpConfig := s.global, DhcpDdnsConfig := s.ddns, DhcpHaConfig := s.ha]
    ensures SectionRows(k, cfg, DhcpConfig) == KeyRows(DhcpConfig, Dhcp.Restored(k.library, s).global)
    ensures SectionRows(k, cfg, DhcpDdnsConfig) == KeyRows(DhcpDdnsConfig, Dhcp.Restored(k.library, s).ddns)
    ensures SectionRows(k, cfg, DhcpHaConfig) == KeyRows(DhcpHaConfig, Dhcp.Restored(k.library, s).ha)
  {
    hide KeyRows, Dhcp.Written, Dhcp.RestoreAll, Dhcp.GLOBAL, Dhcp.DDNS, Dhcp.HA, Dhcp.Filled;
    FilledIsSame(Dhcp.GLOBAL, s.global);
    FilledIsSame(Dhcp.DDNS, s.ddns);
    FilledIsSame(Dhcp.HA, s.ha);
  }

  lemma FilledIsSame(schema: Dhcp.Schema, f: Dhcp.Fields)
    requires f.Keys == schema.Keys
    ensures Dhcp.Filled(schema, f) == f
  {
    hide Dhcp.Default;
  }

  /** The rows of a settings table come from its section alone. */
  lemma ImageInTable(k: Translation, cfg: Config, t: Table)
    requires IsSettings(t)
    ensures InTable(Image(k, cfg), t) == SectionRows(k, cfg, t)
  {
    hide SECTIONS, SectionRows, ImageOf;
    ManagedTables(t);
    forall r ensures r in InTable(Image(k, cfg), t) <==> r in SectionRows(k, cfg, t) {
      InImage(k, cfg, SECTIONS, r);
      if r in SectionRows(k, cfg, t) {
        SectionTables(k, cfg, t, r);
      }
      if r in InTable(Image(k, cfg), t) {
        var u :| u in SECTIONS && r in SectionRows(k, cfg, u);
        SectionTables(k, cfg, u, r);
      }
    }
  }

  lemma {:induction false} InImage(k: Translation, cfg: Config, sections: seq<Table>, r: Row)
    ensures r in ImageOf(k, cfg, sections) <==> exists t :: t in sections && r in SectionRows(k, cfg, t)
  {
    hide SectionRows;
    if sections != [] {
      var front, last := sections[..|sections| - 1], sections[|sections| - 1];
      InImage(k, cfg, front, r);
      assert sections == front + [last];
    }
  }

  /** A later stage leaves the rows of the earlier ones alone. */
  lemma StagesCompose(k: Translation, cfg: Config, start: set<Row>, cleared: seq<Table>, refilled: seq<Table>, stage: Stage)
    requires forall t :: t in refilled ==> t !in stage.clears
    requires WgPeers !in stage.clears || WgTunnels !in refilled
    ensures Without(Without(start, cleared) + ImageOf(k, cfg, refilled), stage.clears) + ImageOf(k, cfg, stage.refills)
         == Without(start, cleared + stage.clears) + ImageOf(k, cfg, refilled + stage.refills)
  {
    hide ImageOf;
    ImageOfConcat(k, cfg, refilled, stage.refills);
    forall r | r in ImageOf(k, cfg, refilled) ensures r.table !in stage.clears {
      ImageTables(k, cfg, refilled, r);
    }
  }

  lemma SectionImageSnoc(k: Translation, t: Table, entries: seq<Entry>, i: nat)
    requires i < |entries|
    ensures SectionImage(k, t, entries[..i + 1]) == SectionImage(k, t, entries[..i]) + Products(k, t, entries[i])
  {
    assert entries[..i + 1][..i] == entries[..i];
  }

  lemma ImageOfSnoc(k: Translation, cfg: Config, sections: seq<Table>, i: nat)
    requires i < |sections|
    ensures ImageOf(k, cfg, sections[..i + 1]) == ImageOf(k, cfg, sections[..i]) + SectionRows(k, cfg, sections[i])
  {
    hide SectionRows;
    assert sections[..i + 1][..i] == sections[..i];
  }

  lemma SectionImageOfNothing(k: Translation, t: Table)
    ensures SectionImage(k, t, []) == {}
  {}

  lemma ImageOfNothing(k: Translation, cfg: Config)
    ensures ImageOf(k, cfg, []) == {}
  {}
}
