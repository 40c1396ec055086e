/** The pre-restore snapshot, the restore-or-rollback wrapper (aifw-api/src/backup.rs:1514-1572) and the smaller
  * snapshot that commit-confirm reverts to (aifw-api/src/backup.rs:377-450).
  */
module Rollback {
  import opened Basics
  import opened Restore
  import Dhcp = DhcpSection

  /** Ids are primary keys, and a key/value table has no interface and no owner column. */
  ghost predicate KeysUnique(rows: set<Row>) {
    && (forall r :: r in rows && IsSettings(r.table) ==> r.iface.None? && r.owner.None?)
    && (forall r, s :: r in rows && s in rows && !r.table.Elsewhere? && r.table == s.table && r.id == s.id ==> r == s)
  }

  /** What a literal restore makes of a row that was shown: the row as it parses back, if it does. */
  function Back(k: Translation, r: Row): Option<Row> {
    if r.table == WgPeers then Some(Row(WgPeers, r.id, None, k.peer(k.showPeer(r.fields)), r.owner))
    else
      match k.parse(r.table, k.show(r.table, r.fields))
      case None => None
      case Some(fields) => Some(Row(r.table, r.id, r.iface, fields))
  }

  ghost function Returned(k: Translation, rows: set<Row>): set<Row> {
    set r | r in rows && Back(k, r).Some? :: Back(k, r).value
  }

  /** A literal restore: the empty interface map. */
  function Literal(k: Translation): Translation {
    k.(ifaces := map[])
  }

  // ---------------------------------------------------------------- reading the tables

  /** A failed listing of these fails the snapshot. */
  const HARD: seq<Table> := [Rules, NatRules, GeoipRules, WgTunnels, IpsecSas, IpsecTunnels]

  /** A failed listing of these reads as an empty table. */
  const SOFT: seq<Table> := [
    QueueConfigs, RateLimitRules, SniRules, Ja3Blocklist, CarpVips, ClusterNodes, PfsyncConfig, WgPeers,
    DhcpConfig, DhcpSubnets, DhcpReservations, DhcpDdnsConfig, DhcpHaConfig, Aliases, StaticRoutes]

  /** The tables whose tolerant listings, starting at operation `at`, failed. */
  ghost function Missed(f: Faults, tables: seq<Table>, at: nat): set<Table> {
    set i | 0 <= i < |tables| && !f.ok(at + i) :: tables[i]
  }

  /** The rows that a snapshot shows when it reads `tables` and misses `missed`, key/value tables aside: peers hang
    * under their tunnels, and are dropped with a tunnel that does not parse back.
    */
  ghost function Captured(k: Translation, rows: set<Row>, tables: seq<Table>, missed: set<Table>): set<Row> {
    set r | r in rows && r.table in tables && r.table !in missed && !IsSettings(r.table)
         && (r.table == WgPeers ==> HasTunnel(k, rows, r))
  }

  ghost predicate HasTunnel(k: Translation, rows: set<Row>, peer: Row) {
    exists w :: w in rows && w.table == WgTunnels && peer.owner == Some(w.id) && Back(k, w).Some?
  }

  type Listing = map<Table, seq<Row>>

  /** The listings read so far: all the rows of each table, or none where the listing was missed. */
  ghost predicate Listed(lists: Listing, rows: set<Row>, missed: set<Table>) {
    forall t :: t in lists ==> ListedOne(lists[t], rows, missed, t)
  }

  ghost predicate ListedOne(listed: seq<Row>, rows: set<Row>, missed: set<Table>, t: Table) {
    forall r :: r in listed <==> r in rows && r.table == t && t !in missed
  }

  function ListOf(lists: Listing, t: Table): seq<Row> {
    if t in lists then lists[t] else []
  }

  method List(db: Database, t: Table) returns (ok: bool, out: seq<Row>)
    modifies db`clock
    ensures db.clock == old(db.clock) + 1 && ok == db.faults.ok(old(db.clock))
    ensures forall r :: r in out <==> ok && r in db.rows && r.table == t
  {
    ok := db.Require();
    out := [];
    if ok {
      var todo := set r | r in db.rows && r.table == t;
      while todo != {}
        invariant forall r :: r in out || r in todo <==> r in db.rows && r.table == t
      {
        var r :| r in todo;
        todo := todo - {r};
        out := out + [r];
      }
    }
  }

  method ListHard(db: Database, tables: seq<Table>) returns (ok: bool, lists: Listing)
    modifies db`clock
    ensures db.clock >= old(db.clock) && (ok ==> db.clock == old(db.clock) + |tables|)
    ensures ok <==> Clean(db.faults, old(db.clock), old(db.clock) + |tables|)
    ensures ok ==> lists.Keys == (set t | t in tables) && Listed(lists, db.rows, {})
  {
    lists := map[];
    for i := 0 to |tables|
      invariant db.clock == old(db.clock) + i && Clean(db.faults, old(db.clock), db.clock)
      invariant lists.Keys == set t | t in tables[..i]
      invariant Listed(lists, db.rows, {})
    {
      var l;
      ok, l := List(db, tables[i]);
      if !ok {
        return;
      }
      lists := lists[tables[i] := l];
      assert tables[..i + 1] == tables[..i] + [tables[i]];
    }
    assert tables[..|tables|] == tables;
    ok := true;
  }

  method ListSoft(db: Database, tables: seq<Table>, got: Listing) returns (lists: Listing)
    requires Listed(got, db.rows, {})
    requires forall t :: t in tables ==> t !in got
    requires forall i, j :: 0 <= i < j < |tables| ==> tables[i] != tables[j]
    modifies db`clock
    ensures db.clock == old(db.clock) + |tables|
    ensures lists.Keys == got.Keys + (set t | t in tables)
    ensures Listed(lists, db.rows, Missed(db.faults, tables, old(db.clock)))
  {
    hide Listed, Missed;
    lists := got;
    ghost var missed := Missed(db.faults, tables[..0], db.clock);
    MissedNone(db.faults, tables[..0], db.clock);
    for i := 0 to |tables|
      invariant db.clock == old(db.clock) + i
      invariant lists.Keys == got.Keys + set t | t in tables[..i]
      invariant missed == Missed(db.faults, tables[..i], old(db.clock))
      invariant Listed(lists, db.rows, missed)
    {
      var ok, l := List(db, tables[i]);
      MissedNext(db.faults, tables, i, old(db.clock));
      assert tables[i] !in lists;
      ListedNext(lists, db.rows, missed, tables[i], ok, l);
      missed := missed + if ok then {} else {tables[i]};
      lists := lists[tables[i] := l];
      assert tables[..i + 1] == tables[..i] + [tables[i]];
    }
    assert tables[..|tables|] == tables;
  }

  lemma MissedNone(f: Faults, tables: seq<Table>, at: nat)
    ensures tables == [] ==> Missed(f, tables, at) == {}
  {}

  lemma MissedNext(f: Faults, tables: seq<Table>, i: nat, at: nat)
    requires i < |tables|
    requires forall i, j :: 0 <= i < j < |tables| ==> tables[i] != tables[j]
    ensures tables[i] !in Missed(f, tables[..i], at)
    ensures Missed(f, tables[..i + 1], at) == Missed(f, tables[..i], at) + if f.ok(at + i) then {} else {tables[i]}
  {
    ghost var front, more := Missed(f, tables[..i], at), Missed(f, tables[..i + 1], at);
    forall t ensures t in more <==> t in front || (!f.ok(at + i) && t == tables[i]) {
      if t in front {
        var j :| 0 <= j < i && !f.ok(at + j) && tables[..i][j] == t;
        assert tables[..i + 1][j] == t;
      }
      if !f.ok(at + i) {
        assert tables[..i + 1][i] == tables[i];
      }
    }
  }

  lemma ListedNext(lists: Listing, rows: set<Row>, missed: set<Table>, t: Table, ok: bool, l: seq<Row>)
    requires Listed(lists, rows, missed) && t !in missed && t !in lists
    requires forall r :: r in l <==> ok && r in rows && r.table == t
    ensures Listed(lists[t := l], rows, missed + if ok then {} else {t})
  {
    var lists', missed' := lists[t := l], missed + if ok then {} else {t};
    forall u | u in lists' ensures ListedOne(lists'[u], rows, missed', u) {
      if u != t {
        assert u in lists && ListedOne(lists[u], rows, missed, u);
      }
    }
  }

  // ---------------------------------------------------------------- showing the rows

  function PeersOf(k: Translation, peers: seq<Row>, tunnel: string): seq<Peer> {
    if peers == [] then []
    else
      var last := peers[|peers| - 1];
      PeersOf(k, peers[..|peers| - 1], tunnel) + (if last.owner == Some(tunnel) then [Peer(last.id, k.showPeer(last.fields))] else [])
  }

  function Shown(k: Translation, r: Row, peers: seq<Row>): Entry {
    Entry(r.id, r.iface, k.show(r.table, r.fields), PeersOf(k, peers, r.id))
  }

  /** The peers shown under the tunnels of a listing. */
  ghost function Attached(k: Translation, listed: seq<Row>, peers: seq<Row>): set<Row> {
    set x, w | x in peers && w in listed && x.owner == Some(w.id) && Back(k, w).Some? :: x
  }

  ghost function Owned(peers: seq<Row>, tunnel: string): set<Row> {
    set x | x in peers && x.owner == Some(tunnel)
  }

  lemma {:induction false} PeersComeBack(k: Translation, peers: seq<Row>, tunnel: string)
    requires forall x :: x in peers ==> x.table == WgPeers
    ensures (set q | q in PeersOf(k, peers, tunnel) :: PeerRow(k, tunnel, q)) == Returned(k, Owned(peers, tunnel))
  {
    if peers != [] {
      var front, last := peers[..|peers| - 1], peers[|peers| - 1];
      assert peers == front + [last];
      PeersComeBack(k, front, tunnel);
      assert last in peers;
      if last.owner == Some(tunnel) {
        SetOfPeersSnoc(k, PeersOf(k, front, tunnel), Peer(last.id, k.showPeer(last.fields)), tunnel);
        assert Owned(peers, tunnel) == Owned(front, tunnel) + {last};
        ReturnedJoins(k, Owned(front, tunnel), {last});
        ReturnedOne(k, last);
        assert Back(k, last) == Some(PeerRow(k, tunnel, Peer(last.id, k.showPeer(last.fields))));
      } else {
        assert Owned(peers, tunnel) == Owned(front, tunnel);
        assert PeersOf(k, peers, tunnel) == PeersOf(k, front, tunnel);
      }
    }
  }

  lemma ReturnedJoins(k: Translation, a: set<Row>, b: set<Row>)
    ensures Returned(k, a + b) == Returned(k, a) + Returned(k, b)
  {
    hide Back;
  }

  lemma ReturnedOne(k: Translation, r: Row)
    ensures Returned(k, {r}) == if Back(k, r).Some? then {Back(k, r).value} else {}
    ensures Returned(k, {}) == {}
  {
    hide Back;
  }

  lemma SetOfPeersSnoc(k: Translation, qs: seq<Peer>, q: Peer, tunnel: string)
    ensures (set x | x in qs + [q] :: PeerRow(k, tunnel, x)) == (set x | x in qs :: PeerRow(k, tunnel, x)) + {PeerRow(k, tunnel, q)}
  {
    assert q in qs + [q];
  }

  /** The rows that one shown row stands for: itself and, if it is a tunnel that parses back, its peers. */
  ghost function ShownWith(k: Translation, r: Row, peers: seq<Row>): set<Row> {
    {r} + if r.table == WgTunnels && Back(k, r).Some? then Owned(peers, r.id) else {}
  }

  /** The image of an entry is what comes back of the rows it was made from. */
  lemma RowComesBack(k: Translation, r: Row, peers: seq<Row>)
    requires k.ifaces == map[]
    requires !r.table.Elsewhere? && !IsSettings(r.table) && r.table != WgPeers
    requires forall x :: x in peers ==> x.table == WgPeers
    ensures Products(k, r.table, Shown(k, r, peers)) == Returned(k, ShownWith(k, r, peers))
  {
    hide PeersOf, Returned, Owned;
    PeersComeBack(k, peers, r.id);
    ReturnedOne(k, r);
    ReturnedJoins(k, {r}, if r.table == WgTunnels && Back(k, r).Some? then Owned(peers, r.id) else {});
  }

  ghost function ShownAll(k: Translation, t: Table, listed: seq<Row>, peers: seq<Row>): set<Row> {
    (set r | r in listed) + if t == WgTunnels then Attached(k, listed, peers) else {}
  }

  /** The `iter().map(..).collect()` of one section. */
  method ShowSection(k: Translation, t: Table, listed: seq<Row>, peers: seq<Row>) returns (entries: seq<Entry>)
    requires k.ifaces == map[]
    requires !t.Elsewhere? && !IsSettings(t) && t != WgPeers
    requires forall r :: r in listed ==> r.table == t
    requires forall r :: r in peers ==> r.table == WgPeers
    ensures SectionImage(k, t, entries) == Returned(k, ShownAll(k, t, listed, peers))
  {
    hide PeersOf, Products, SectionImage, Returned, ShownAll, ShownWith, Back;
    entries := [];
    NothingShown(k, t, peers);
    assert listed[..0] == [];
    for i := 0 to |listed|
      invariant |entries| == i
      invariant SectionImage(k, t, entries) == Returned(k, ShownAll(k, t, listed[..i], peers))
    {
      var r := listed[i];
      assert r in listed;
      RowComesBack(k, r, peers);
      ghost var before := entries;
      entries := entries + [Shown(k, r, peers)];
      SectionImageSnoc(k, t, entries, i);
      assert entries[..i] == before && entries[..i + 1] == entries;
      assert listed[..i + 1] == listed[..i] + [r];
      ShownAllSnoc(k, t, listed[..i], r, peers);
      ReturnedJoins(k, ShownAll(k, t, listed[..i], peers), ShownWith(k, r, peers));
    }
    assert listed[..|listed|] == listed;
  }

  lemma NothingShown(k: Translation, t: Table, peers: seq<Row>)
    ensures SectionImage(k, t, []) == Returned(k, ShownAll(k, t, [], peers))
  {
    assert ShownAll(k, t, [], peers) == {};
  }

  lemma ShownAllSnoc(k: Translation, t: Table, listed: seq<Row>, r: Row, peers: seq<Row>)
    requires r.table == t
    ensures ShownAll(k, t, listed + [r], peers) == ShownAll(k, t, listed, peers) + ShownWith(k, r, peers)
  {
    hide Back;
    if t == WgTunnels {
      assert Attached(k, listed + [r], peers)
          == Attached(k, listed, peers) + if Back(k, r).Some? then Owned(peers, r.id) else {} by {
        assert r in listed + [r];
        assert forall w :: w in listed ==> w in listed + [r];
      }
    }
  }

  // ---------------------------------------------------------------- key/value tables

  ghost function Ids(rows: set<Row>, t: Table): set<string> {
    set r | r in rows && r.table == t :: r.id
  }

  ghost function TextAt(rows: set<Row>, t: Table, key: string): string
    requires key in Ids(rows, t)
  {
    var r :| r in rows && r.table == t && r.id == key;
    r.fields
  }

  /** The contents of a key/value table. */
  ghost function Stored(rows: set<Row>, t: Table): map<string, string> {
    map key | key in Ids(rows, t) :: TextAt(rows, t, key)
  }

  /** What is left of a key/value table after an export and restore; a table that was not read, or whose listing
    * was missed, comes back with every default.
    */
  ghost function Settled(k: Translation, rows: set<Row>, t: Table, read: bool): map<string, string>
    requires IsSettings(t)
  {
    Dhcp.Written(k.library, SchemaOf(t), Dhcp.Read(k.library, SchemaOf(t), if read then Stored(rows, t) else map[]))
  }

  ghost function SettledRows(k: Translation, rows: set<Row>, tables: seq<Table>, missed: set<Table>): set<Row> {
    SettledOf(k, rows, tables, missed, DhcpConfig) + SettledOf(k, rows, tables, missed, DhcpDdnsConfig)
    + SettledOf(k, rows, tables, missed, DhcpHaConfig)
  }

  ghost function SettledOf(k: Translation, rows: set<Row>, tables: seq<Table>, missed: set<Table>, t: Table): set<Row>
    requires IsSettings(t)
  {
    KeyRows(t, Settled(k, rows, t, t in tables && t !in missed))
  }

  /** The pairs of a listing, the last one winning. */
  method AsMap(listed: seq<Row>, ghost rows: set<Row>, ghost t: Table) returns (m: map<string, string>)
    requires IsSettings(t) && forall r :: r in listed <==> r in rows && r.table == t
    ensures KeysUnique(rows) ==> m == Stored(rows, t)
  {
    m := map[];
    for i := 0 to |listed|
      invariant forall key :: key in m <==> exists r :: r in listed[..i] && r.id == key
      invariant forall key :: key in m ==> exists r :: r in listed[..i] && r.id == key && r.fields == m[key]
    {
      assert listed[..i + 1] == listed[..i] + [listed[i]];
      ghost var before := m;
      m := m[listed[i].id := listed[i].fields];
      forall key | key in m ensures exists r :: r in listed[..i + 1] && r.id == key && r.fields == m[key] {
        if key == listed[i].id {
          assert listed[i] in listed[..i + 1];
        } else {
          var r :| r in listed[..i] && r.id == key && r.fields == before[key];
          assert r in listed[..i + 1];
        }
      }
    }
    assert listed[..|listed|] == listed;
    if KeysUnique(rows) {
      MapIsStored(listed, rows, t, m);
    }
  }

  lemma MapIsStored(listed: seq<Row>, rows: set<Row>, t: Table, m: map<string, string>)
    requires IsSettings(t) && forall r :: r in listed <==> r in rows && r.table == t
    requires KeysUnique(rows)
    requires forall key :: key in m <==> exists r :: r in listed && r.id == key
    requires forall key :: key in m ==> exists r :: r in listed && r.id == key && r.fields == m[key]
    ensures m == Stored(rows, t)
  {
    forall key ensures key in m <==> key in Ids(rows, t) {
      if key in Ids(rows, t) {
        var r :| r in rows && r.table == t && r.id == key;
        assert r in listed;
      }
    }
    forall key | key in m ensures m[key] == Stored(rows, t)[key] {
      var r :| r in listed && r.id == key && r.fields == m[key];
      TextIs(rows, r);
    }
  }

  lemma TextIs(rows: set<Row>, r: Row)
    requires KeysUnique(rows) && r in rows && IsSettings(r.table)
    ensures r.id in Stored(rows, r.table) && Stored(rows, r.table)[r.id] == r.fields
  {
    assert r.id in Ids(rows, r.table);
    var s :| s in rows && s.table == r.table && s.id == r.id && TextAt(rows, r.table, r.id) == s.fields;
  }

  /** The rows of a key/value table are those of its contents. */
  lemma StoredRows(rows: set<Row>, t: Table)
    requires KeysUnique(rows) && IsSettings(t)
    ensures KeyRows(t, Stored(rows, t)) == set r | r in rows && r.table == t
  {
    var table := Stored(rows, t);
    forall r | r in rows && r.table == t ensures r in KeyRows(t, table) {
      TextIs(rows, r);
    }
    forall r | r in KeyRows(t, table) ensures r in rows && r.table == t {
      assert r.id in Ids(rows, t);
      var s :| s in rows && s.table == t && s.id == r.id;
      TextIs(rows, s);
      assert r == s;
    }
  }

  // ---------------------------------------------------------------- snapshots

  /** Shows every section that was listed. */
  method ShowAll(k: Translation, lists: Listing, auth: Auth, ghost rows: set<Row>, ghost missed: set<Table>)
    returns (cfg: Config)
    requires k.ifaces == map[]
    requires Listed(lists, rows, missed)
    requires WgTunnels !in missed
    ensures cfg.auth == auth
    ensures KeysUnique(rows) ==> forall t :: t in SECTIONS ==>
      SectionRows(k, cfg, t) == CapturedOf(k, rows, lists.Keys, missed, t)
  {
    hide *;
    cfg := Config(map[], map[], auth);
    assert SECTIONS[..0] == [];
    for i := 0 to |SECTIONS|
      invariant cfg.auth == auth && cfg.settings.Keys <= lists.Keys
      invariant KeysUnique(rows) ==> forall t :: t in SECTIONS[..i] ==>
        SectionRows(k, cfg, t) == CapturedOf(k, rows, lists.Keys, missed, t)
    {
      var t := SECTIONS[i];
      ManagedTables(t);
      cfg := ShowOne(k, t, lists, cfg, rows, missed);
      assert SECTIONS[..i + 1] == SECTIONS[..i] + [t];
    }
    assert SECTIONS[..|SECTIONS|] == SECTIONS;
  }

  method ShowOne(k: Translation, t: Table, lists: Listing, cfg0: Config, ghost rows: set<Row>, ghost missed: set<Table>)
    returns (cfg: Config)
    requires k.ifaces == map[] && !t.Elsewhere? && t != WgPeers
    requires Listed(lists, rows, missed) && WgTunnels !in missed && cfg0.settings.Keys <= lists.Keys
    ensures cfg.auth == cfg0.auth && cfg.settings.Keys <= lists.Keys
    ensures forall u :: u != t ==> SectionRows(k, cfg, u) == SectionRows(k, cfg0, u)
    ensures KeysUnique(rows) ==> SectionRows(k, cfg, t) == CapturedOf(k, rows, lists.Keys, missed, t)
  {
    hide *;
    if IsSettings(t) {
      cfg := ShowSettings(k, t, lists, cfg0, rows, missed);
    } else {
      cfg := ShowEntries(k, t, lists, cfg0, rows, missed);
    }
    forall u | u != t ensures SectionRows(k, cfg, u) == SectionRows(k, cfg0, u) {
      SameSection(k, cfg, cfg0, u);
    }
  }

  lemma SameSection(k: Translation, a: Config, b: Config, t: Table)
    requires t in a.sections <==> t in b.sections
    requires t in a.settings <==> t in b.settings
    requires t in a.sections ==> a.sections[t] == b.sections[t]
    requires t in a.settings ==> a.settings[t] == b.settings[t]
    ensures SectionRows(k, a, t) == SectionRows(k, b, t)
  {
    hide SectionImage, KeyRows, Dhcp.Written, Dhcp.Filled, SchemaOf;
  }

  method ShowEntries(k: Translation, t: Table, lists: Listing, cfg0: Config, ghost rows: set<Row>, ghost missed: set<Table>)
    returns (cfg: Config)
    requires k.ifaces == map[] && !t.Elsewhere? && !IsSettings(t) && t != WgPeers
    requires Listed(lists, rows, missed) && WgTunnels !in missed
    ensures cfg.settings == cfg0.settings && cfg.auth == cfg0.auth && cfg.sections.Keys == cfg0.sections.Keys + {t}
    ensures forall u :: u in cfg0.sections && u != t ==> cfg.sections[u] == cfg0.sections[u]
    ensures SectionRows(k, cfg, t) == CapturedOf(k, rows, lists.Keys, missed, t)
  {
    hide SectionImage, Listed, ListOf, CapturedOf, Returned, ShownAll;
    ListedRows(lists, rows, missed, t);
    ListedRows(lists, rows, missed, WgPeers);
    var entries := ShowSection(k, t, ListOf(lists, t), ListOf(lists, WgPeers));
    ListingCaptures(k, lists, rows, missed, t);
    cfg := cfg0.(sections := cfg0.sections[t := entries]);
  }

  /** A table that was listed is read over the defaults; one that is no part of the snapshot has none but them. */
  method ShowSettings(k: Translation, t: Table, lists: Listing, cfg0: Config, ghost rows: set<Row>, ghost missed: set<Table>)
    returns (cfg: Config)
    requires IsSettings(t) && Listed(lists, rows, missed) && cfg0.settings.Keys <= lists.Keys
    ensures cfg.sections == cfg0.sections && cfg.auth == cfg0.auth
    ensures cfg0.settings.Keys <= cfg.settings.Keys <= lists.Keys && cfg.settings.Keys <= cfg0.settings.Keys + {t}
    ensures forall u :: u in cfg0.settings && u != t ==> cfg.settings[u] == cfg0.settings[u]
    ensures KeysUnique(rows) ==> SectionRows(k, cfg, t) == CapturedOf(k, rows, lists.Keys, missed, t)
  {
    hide KeysUnique, SchemaOf, KeyRows, Stored, Listed, Dhcp.Filled, Dhcp.Read, Dhcp.Written, HasTunnel;
    cfg := cfg0;
    if t in lists {
      ghost var listed := if t in missed then {} else rows;
      ListingOf(lists, rows, missed, t);
      var m := AsMap(lists[t], listed, t);
      var f := Dhcp.ReadPairs(k.library, SchemaOf(t), m);
      cfg := cfg0.(settings := cfg0.settings[t := f]);
      ReadFills(k, SchemaOf(t), m);
      NothingStored(t);
    } else {
      ReadFills(k, SchemaOf(t), map[]);
    }
  }

  lemma ListingOf(lists: Listing, rows: set<Row>, missed: set<Table>, t: Table)
    requires Listed(lists, rows, missed) && t in lists
    ensures var listed := if t in missed then {} else rows; forall r :: r in lists[t] <==> r in listed && r.table == t
  {}

  lemma ReadFills(k: Translation, schema: Dhcp.Schema, table: map<string, string>)
    ensures Dhcp.Filled(schema, Dhcp.Read(k.library, schema, table)) == Dhcp.Read(k.library, schema, table)
    ensures Dhcp.Filled(schema, map[]) == Dhcp.Read(k.library, schema, map[])
  {
    hide Dhcp.Default, Dhcp.Decode;
  }

  lemma NothingStored(t: Table)
    ensures Stored({}, t) == map[] && KeysUnique({})
  {}

  lemma ListedRows(lists: Listing, rows: set<Row>, missed: set<Table>, t: Table)
    requires Listed(lists, rows, missed)
    ensures forall r :: r in ListOf(lists, t) ==> r in rows && r.table == t
  {}

  /** The part of a snapshot that section `t` holds. */
  ghost function CapturedOf(k: Translation, rows: set<Row>, tables: set<Table>, missed: set<Table>, t: Table): set<Row> {
    if IsSettings(t) then KeyRows(t, Settled(k, rows, t, t in tables && t !in missed))
    else Returned(k, ShownOf(k, rows, tables, missed, t))
  }

  /** The rows that section `t` shows: its own and, under tunnels, their peers. */
  ghost function ShownOf(k: Translation, rows: set<Row>, tables: set<Table>, missed: set<Table>, t: Table): set<Row> {
    set r | r in rows && r.table in tables && r.table !in missed && !IsSettings(r.table)
         && (r.table == t || (t == WgTunnels && t in tables && r.table == WgPeers && HasTunnel(k, rows, r)))
  }

  lemma ListingCaptures(k: Translation, lists: Listing, rows: set<Row>, missed: set<Table>, t: Table)
    requires Listed(lists, rows, missed) && WgTunnels !in missed && t != WgPeers && !IsSettings(t)
    ensures Returned(k, ShownAll(k, t, ListOf(lists, t), ListOf(lists, WgPeers))) == CapturedOf(k, rows, lists.Keys, missed, t)
  {
    hide Settled, KeyRows, HasTunnel, Attached, Listed, Returned;
    ListedRowsExactly(lists, rows, missed, t);
    ListedRowsExactly(lists, rows, missed, WgPeers);
    if t == WgTunnels {
      AttachedExactly(k, lists, rows, missed);
    }
    assert ShownAll(k, t, ListOf(lists, t), ListOf(lists, WgPeers)) == ShownOf(k, rows, lists.Keys, missed, t);
  }

  lemma ListedRowsExactly(lists: Listing, rows: set<Row>, missed: set<Table>, t: Table)
    requires Listed(lists, rows, missed)
    ensures forall r :: r in ListOf(lists, t) <==> t in lists && r in rows && r.table == t && t !in missed
  {}

  lemma AttachedExactly(k: Translation, lists: Listing, rows: set<Row>, missed: set<Table>)
    requires Listed(lists, rows, missed) && WgTunnels !in missed
    ensures forall x :: x in Attached(k, ListOf(lists, WgTunnels), ListOf(lists, WgPeers)) <==>
      x in ListOf(lists, WgPeers) && WgTunnels in lists && HasTunnel(k, rows, x)
  {
    var tunnels, peers := ListOf(lists, WgTunnels), ListOf(lists, WgPeers);
    forall x | x in peers && WgTunnels in lists && HasTunnel(k, rows, x) ensures x in Attached(k, tunnels, peers) {
      var w :| w in rows && w.table == WgTunnels && x.owner == Some(w.id) && Back(k, w).Some?;
      assert w in tunnels;
    }
  }

  /** The rows a snapshot stands for. */
  ghost function SnapshotRows(k: Translation, rows: set<Row>, tables: seq<Table>, missed: set<Table>): set<Row> {
    Returned(k, Captured(k, rows, tables, missed)) + SettledRows(k, rows, tables, missed)
  }

  lemma SectionsMakeImage(k: Translation, cfg: Config, rows: set<Row>, tables: seq<Table>, keys: set<Table>, missed: set<Table>)
    requires keys == set t | t in tables
    requires forall t :: t in tables ==> !t.Elsewhere?
    requires WgPeers in tables ==> WgTunnels in tables
    requires forall t :: t in SECTIONS ==> SectionRows(k, cfg, t) == CapturedOf(k, rows, keys, missed, t)
    ensures Image(k, cfg) == SnapshotRows(k, rows, tables, missed)
  {
    hide SectionRows, SECTIONS, ImageOf, Settled, KeyRows;
    forall r ensures r in Image(k, cfg) <==> r in SnapshotRows(k, rows, tables, missed) {
      InImage(k, cfg, SECTIONS, r);
      InSnapshot(k, rows, tables, keys, missed, r);
    }
  }

  lemma InSnapshot(k: Translation, rows: set<Row>, tables: seq<Table>, keys: set<Table>, missed: set<Table>, r: Row)
    requires keys == set t | t in tables
    requires forall t :: t in tables ==> !t.Elsewhere?
    requires WgPeers in tables ==> WgTunnels in tables
    ensures r in SnapshotRows(k, rows, tables, missed)
       <==> exists t :: t in SECTIONS && r in CapturedOf(k, rows, keys, missed, t)
  {
    hide SECTIONS, Settled, KeyRows;
    ManagedTables(r.table);
    ManagedTables(WgTunnels);
    ManagedTables(DhcpConfig);
    ManagedTables(DhcpDdnsConfig);
    ManagedTables(DhcpHaConfig);
    if r in Returned(k, Captured(k, rows, tables, missed)) {
      var s :| s in Captured(k, rows, tables, missed) && Back(k, s) == Some(r);
      var t := if s.table == WgPeers then WgTunnels else s.table;
      ManagedTables(s.table);
      assert s in ShownOf(k, rows, keys, missed, t);
      assert t in SECTIONS && r in CapturedOf(k, rows, keys, missed, t);
    } else if r in SettledOf(k, rows, tables, missed, DhcpConfig) {
      assert r in CapturedOf(k, rows, keys, missed, DhcpConfig);
    } else if r in SettledOf(k, rows, tables, missed, DhcpDdnsConfig) {
      assert r in CapturedOf(k, rows, keys, missed, DhcpDdnsConfig);
    } else if r in SettledOf(k, rows, tables, missed, DhcpHaConfig) {
      assert r in CapturedOf(k, rows, keys, missed, DhcpHaConfig);
    }
  }

  /** What a snapshot reads, and how strictly. */
  ghost predicate Plan(hard: seq<Table>, soft: seq<Table>) {
    && (forall t :: t in hard + soft ==> !t.Elsewhere?)
    && (forall t :: t in soft ==> t !in hard && t != WgTunnels)
    && (forall i, j :: 0 <= i < j < |soft| ==> soft[i] != soft[j])
    && (WgPeers in soft ==> WgTunnels in hard)
    && WgPeers !in hard
  }

  lemma Plans()
    ensures Plan(HARD, SOFT) && Plan(RUNTIME_HARD, RUNTIME_SOFT)
  {
    hide HARD, SOFT, RUNTIME_HARD, RUNTIME_SOFT;
    forall t | t in HARD + SOFT ensures !t.Elsewhere? { ListPositions(t); }
    forall t | t in SOFT ensures t !in HARD && t != WgTunnels { ListPositions(t); }
    ListPositions(WgPeers);
    ListPositions(WgTunnels);
    SoftDistinct();
    RuntimePlan();
  }

  lemma RuntimePlan()
    ensures Plan(RUNTIME_HARD, RUNTIME_SOFT)
  {}

  /** Which of the two lists a table is read with. */
  lemma ListPositions(t: Table)
    ensures t in HARD <==> t in {Rules, NatRules, GeoipRules, WgTunnels, IpsecSas, IpsecTunnels}
    ensures t in SOFT ==> !t.Elsewhere? && t !in {Rules, NatRules, GeoipRules, WgTunnels, IpsecSas, IpsecTunnels}
  {
    hide SOFT;
    SoftPositions(t);
  }

  lemma SoftPositions(t: Table)
    ensures t in SOFT ==> !t.Elsewhere? && t !in {Rules, NatRules, GeoipRules, WgTunnels, IpsecSas, IpsecTunnels}
  {
    hide HARD;
  }

  lemma SoftDistinct()
    ensures forall i, j :: 0 <= i < j < |SOFT| ==> SOFT[i] != SOFT[j]
  {}

  /** A snapshot fails exactly when a strict listing fails; otherwise restoring it literally would give the
    * rows it captured, and every key of the key/value tables.
    */
  method Snapshot(db: Database, k: Translation, hard: seq<Table>, soft: seq<Table>, auth: Auth) returns (r: Option<Config>)
    requires Plan(hard, soft) && k.ifaces == map[]
    modifies db`clock
    ensures db.clock >= old(db.clock)
    ensures r.Some? <==> Clean(db.faults, old(db.clock), old(db.clock) + |hard|)
    ensures r.Some? ==> r.value.auth == auth
    ensures r.Some? && KeysUnique(db.rows) ==>
      Image(k, r.value) == SnapshotRows(k, db.rows, hard + soft, Missed(db.faults, soft, old(db.clock) + |hard|))
  {
    hide KeysUnique, SectionRows, Image, ImageOf, SnapshotRows, CapturedOf, Missed, Listed, SECTIONS;
    var ok, lists := ListHard(db, hard);
    if !ok {
      return None;
    }
    ghost var missed := Missed(db.faults, soft, old(db.clock) + |hard|);
    lists := ListSoft(db, soft, lists);
    MissedAreSoft(db.faults, soft, old(db.clock) + |hard|);
    var cfg := ShowAll(k, lists, auth, db.rows, missed);
    if KeysUnique(db.rows) {
      SectionsMakeImage(k, cfg, db.rows, hard + soft, lists.Keys, missed);
    }
    r := Some(cfg);
  }

  lemma MissedAreSoft(f: Faults, tables: seq<Table>, at: nat)
    ensures forall t :: t in Missed(f, tables, at) ==> t in tables
  {}

  // ---------------------------------------------------------------- restore or roll back

  /** The three outcomes the source documents, and the early return of a failed snapshot. */
  datatype Outcome = SnapshotFailed | Applied | RolledBack | HalfRestored

  ghost function Plain(rows: set<Row>): set<Row> {
    set r | r in rows && !IsSettings(r.table)
  }

  /** The rows after a rollback: what comes back of those the snapshot shows, and the key/value tables settled. */
  ghost function RolledBackRows(k: Translation, rows: set<Row>, missed: set<Table>): set<Row> {
    Unmanaged(rows) + Returned(k, Captured(k, rows, HARD + SOFT, missed)) + SettledRows(k, rows, HARD + SOFT, missed)
  }

  /** What is lost even if every row parses back: the rows of tolerantly read tables whose listing failed, and peers
    * without a tunnel.
    */
  ghost function Lost(k: Translation, rows: set<Row>, missed: set<Table>): set<Row> {
    set r | r in rows && !r.table.Elsewhere? && !IsSettings(r.table)
         && (r.table in missed || (r.table == WgPeers && !HasTunnel(k, rows, r)))
  }

  lemma LostExactly(k: Translation, rows: set<Row>, missed: set<Table>)
    requires forall r :: r in rows && !r.table.Elsewhere? && !IsSettings(r.table) ==> Back(k, r) == Some(r)
    ensures RolledBackRows(k, rows, missed) == Plain(rows) - Lost(k, rows, missed) + SettledRows(k, rows, HARD + SOFT, missed)
  {
    hide HARD, SOFT, SettledRows, HasTunnel, Back;
    forall r | r in rows ensures r.table in HARD + SOFT <==> !r.table.Elsewhere? {
      InHardOrSoft(r.table);
    }
    var kept := Captured(k, rows, HARD + SOFT, missed);
    forall r | r in kept ensures Back(k, r) == Some(r) {}
    assert Returned(k, kept) == kept by { ReturnedSame(k, kept); }
    assert Unmanaged(rows) + kept == Plain(rows) - Lost(k, rows, missed);
  }

  lemma ReturnedSame(k: Translation, rows: set<Row>)
    requires forall r :: r in rows ==> Back(k, r) == Some(r)
    ensures Returned(k, rows) == rows
  {
    hide Back;
  }

  lemma InHardOrSoft(t: Table)
    ensures t in HARD || t in SOFT <==> !t.Elsewhere?
  {}

  /** `apply_firewall_config_or_rollback`. */
  method ApplyOrRollback(db: Database, k: Translation, cfg: Config, inMemory: Auth)
    returns (outcome: Outcome, ghost taken: Option<Config>, ghost first: nat, ghost second: nat)
    modifies db`clock, db`rows, db`auth, db`kernel
    ensures outcome == SnapshotFailed <==> !Clean(db.faults, old(db.clock), old(db.clock) + |HARD|)
    ensures outcome == SnapshotFailed ==> db.rows == old(db.rows) && db.auth == old(db.auth) && db.kernel == old(db.kernel)
    ensures outcome == Applied || outcome == RolledBack ==> InStep(db.kernel, db.rows)
    ensures outcome == Applied ==> db.rows == Unmanaged(old(db.rows)) + Image(k, cfg)
    ensures outcome == Applied ==> db.auth == old(db.auth) + AuthRows(cfg.auth, AUTH_KEYS)
    // Rolled back means the image of the snapshot that was taken first, whatever that holds ...
    ensures outcome == RolledBack ==> taken.Some? && db.rows == Unmanaged(old(db.rows)) + Image(Literal(k), taken.value)
    // ... and that is what comes back of the prior rows it could list.
    ensures outcome == RolledBack && KeysUnique(old(db.rows)) ==>
      db.rows == RolledBackRows(Literal(k), old(db.rows), Missed(db.faults, SOFT, old(db.clock) + |HARD|))
    ensures outcome == RolledBack ==> db.auth == old(db.auth) + AuthRows(inMemory, AUTH_KEYS)
    ensures Unmanaged(db.rows) == Unmanaged(old(db.rows))
    // The target is applied from operation `first` on, the snapshot from `second` on.
    ensures outcome == Applied ==> Clean(db.faults, first, db.clock)
    ensures outcome == RolledBack || outcome == HalfRestored ==> !Clean(db.faults, first, second)
    ensures outcome == RolledBack ==> Clean(db.faults, second, db.clock)
    ensures outcome == HalfRestored ==> !Clean(db.faults, second, db.clock)
  {
    hide *;
    Plans();
    LiteralMap(k);
    first, second := db.clock, db.clock;
    var snapshot := Snapshot(db, Literal(k), HARD, SOFT, inMemory);
    taken := snapshot;
    if snapshot.None? {
      outcome := SnapshotFailed;
      return;
    }
    first := db.clock;
    var ok := db.ApplyFirewallConfig(k, cfg);
    if ok {
      outcome := Applied;
      return;
    }
    ghost var tried := db.auth;
    second := db.clock;
    ok := db.ApplyFirewallConfig(Literal(k), snapshot.value);
    outcome := if ok then RolledBack else HalfRestored;
    RolledBackIs(Literal(k), old(db.rows), Missed(db.faults, SOFT, old(db.clock) + |HARD|));
    AuthOverwritten(old(db.auth), tried, inMemory);
  }

  lemma RolledBackIs(k: Translation, rows: set<Row>, missed: set<Table>)
    ensures Unmanaged(rows) + SnapshotRows(k, rows, HARD + SOFT, missed) == RolledBackRows(k, rows, missed)
  {
    hide HARD, SOFT, SettledRows, Captured, Returned;
  }

  lemma LiteralMap(k: Translation)
    ensures Literal(k).ifaces == map[]
  {}

  lemma AuthOverwritten(before: map<AuthKey, string>, tried: map<AuthKey, string>, a: Auth)
    requires forall key :: key !in AUTH_KEYS ==> (key in tried <==> key in before)
    requires forall key :: key !in AUTH_KEYS && key in tried ==> tried[key] == before[key]
    ensures tried + AuthRows(a, AUTH_KEYS) == before + AuthRows(a, AUTH_KEYS)
  {}

  /** A key/value table that a rollback leaves as it was: read, it holds every key of its schema in canonical text
    * and no other key; missed, it holds the defaults and nothing else.
    */
  ghost predicate Unmoved(k: Translation, rows: set<Row>, t: Table, missed: set<Table>)
    requires IsSettings(t)
  {
    var table, schema := Stored(rows, t), SchemaOf(t);
    if t in missed then table == Settled(k, rows, t, false)
    else table.Keys == schema.Keys && forall key :: key in schema ==> key in table && Dhcp.Canonical(k.library, schema[key], table[key])
  }

  /** Nothing of the row is lost or changed by a rollback. */
  ghost predicate Survives(k: Translation, rows: set<Row>, missed: set<Table>, r: Row) {
    r.table !in missed && Back(k, r) == Some(r) && (r.table == WgPeers ==> HasTunnel(k, rows, r))
  }

  /** "Prior state restored" holds exactly when no listing of a table with rows was missed, every row parses back to
    * itself, no peer is orphaned, each of the three key/value tables is one that a rollback leaves as it was, and the
    * three auth keys are stored with the values in memory.
    */
  lemma PriorStateExactly(k: Translation, rows: set<Row>, missed: set<Table>, auth: map<AuthKey, string>, inMemory: Auth)
    requires KeysUnique(rows) && Dhcp.Faithful(k.library)
    ensures RolledBackRows(k, rows, missed) == rows && auth + AuthRows(inMemory, AUTH_KEYS) == auth
       <==> && (forall r :: r in rows && !r.table.Elsewhere? && !IsSettings(r.table) ==> Survives(k, rows, missed, r))
            && Unmoved(k, rows, DhcpConfig, missed) && Unmoved(k, rows, DhcpDdnsConfig, missed) && Unmoved(k, rows, DhcpHaConfig, missed)
            && (forall key :: key in AUTH_KEYS ==> key in auth && auth[key] == AuthValue(inMemory, key))
  {
    hide *;
    AuthKeptExactly(auth, inMemory);
    PriorRowsExactly(k, rows, missed);
  }

  lemma AuthKeptExactly(auth: map<AuthKey, string>, a: Auth)
    ensures auth + AuthRows(a, AUTH_KEYS) == auth
       <==> forall key :: key in AUTH_KEYS ==> key in auth && auth[key] == AuthValue(a, key)
  {
    hide AUTH_KEYS;
    var after := auth + AuthRows(a, AUTH_KEYS);
    if after == auth {
      forall key | key in AUTH_KEYS ensures key in auth && auth[key] == AuthValue(a, key) {
        assert key in after && after[key] == AuthValue(a, key);
      }
    }
  }

  lemma PriorRowsExactly(k: Translation, rows: set<Row>, missed: set<Table>)
    requires KeysUnique(rows) && Dhcp.Faithful(k.library)
    ensures RolledBackRows(k, rows, missed) == rows
       <==> && (forall r :: r in rows && !r.table.Elsewhere? && !IsSettings(r.table) ==> Survives(k, rows, missed, r))
            && Unmoved(k, rows, DhcpConfig, missed) && Unmoved(k, rows, DhcpDdnsConfig, missed) && Unmoved(k, rows, DhcpHaConfig, missed)
  {
    hide KeyRows, Settled, Stored, SettledOf, Unmoved, HARD, SOFT, KeysUnique, Survives, Returned, Captured, Dhcp.Faithful;
    var after := RolledBackRows(k, rows, missed);
    forall t | IsSettings(t)
      ensures InTable(after, t) == SettledOf(k, rows, HARD + SOFT, missed, t)
      ensures SettledOf(k, rows, HARD + SOFT, missed, t) == InTable(rows, t) <==> Unmoved(k, rows, t, missed)
    {
      SettingsAfter(k, rows, missed, t);
      UnmovedExactly(k, rows, missed, t);
    }
    PlainAfter(k, rows, missed);
    PlainRowsExactly(k, rows, missed);
    SplitRows(after);
    SplitRows(rows);
  }

  lemma PlainAfter(k: Translation, rows: set<Row>, missed: set<Table>)
    ensures Plain(RolledBackRows(k, rows, missed)) == Unmanaged(rows) + Returned(k, Captured(k, rows, HARD + SOFT, missed))
  {
    hide HARD, SOFT, SettledRows, Captured;
    NoPlainSettings(k, rows, missed);
    CapturedTables(k, rows, HARD + SOFT, missed);
  }

  /** What comes back stays in its table and keeps its id. */
  lemma CapturedTables(k: Translation, rows: set<Row>, tables: seq<Table>, missed: set<Table>)
    ensures forall r :: r in Returned(k, Captured(k, rows, tables, missed)) ==> r.table in tables && !IsSettings(r.table)
  {
    hide HasTunnel;
  }

  lemma PlainRowsExactly(k: Translation, rows: set<Row>, missed: set<Table>)
    requires KeysUnique(rows)
    ensures Unmanaged(rows) + Returned(k, Captured(k, rows, HARD + SOFT, missed)) == Plain(rows)
       <==> forall r :: r in rows && !r.table.Elsewhere? && !IsSettings(r.table) ==> Survives(k, rows, missed, r)
  {
    hide HARD, SOFT, HasTunnel;
    var kept := Captured(k, rows, HARD + SOFT, missed);
    if Unmanaged(rows) + Returned(k, kept) == Plain(rows) {
      forall r | r in rows && !r.table.Elsewhere? && !IsSettings(r.table) ensures Survives(k, rows, missed, r) {
        assert r in Returned(k, kept);
        var s :| s in kept && Back(k, s) == Some(r);
        assert s == r;
      }
    }
    if forall r :: r in rows && !r.table.Elsewhere? && !IsSettings(r.table) ==> Survives(k, rows, missed, r) {
      forall r | r in rows && !r.table.Elsewhere? && !IsSettings(r.table) ensures r in kept && Back(k, r) == Some(r) {
        InHardOrSoft(r.table);
        assert Survives(k, rows, missed, r);
      }
      forall r | r in kept ensures Back(k, r) == Some(r) {
        InHardOrSoft(r.table);
      }
      ReturnedSame(k, kept);
    }
  }

  lemma SplitRows(rows: set<Row>)
    ensures rows == Plain(rows) + InTable(rows, DhcpConfig) + InTable(rows, DhcpDdnsConfig) + InTable(rows, DhcpHaConfig)
  {}

  lemma SettledTable(k: Translation, rows: set<Row>, missed: set<Table>, t: Table)
    requires IsSettings(t)
    ensures forall r :: r in SettledOf(k, rows, HARD + SOFT, missed, t) ==> r.table == t
  {
    hide Settled, HARD, SOFT;
  }

  lemma NoPlainSettings(k: Translation, rows: set<Row>, missed: set<Table>)
    ensures forall r :: r in SettledRows(k, rows, HARD + SOFT, missed) ==> IsSettings(r.table)
  {
    hide SettledOf, HARD, SOFT;
    SettledTable(k, rows, missed, DhcpConfig);
    SettledTable(k, rows, missed, DhcpDdnsConfig);
    SettledTable(k, rows, missed, DhcpHaConfig);
  }

  lemma SettingsAfter(k: Translation, rows: set<Row>, missed: set<Table>, t: Table)
    requires IsSettings(t)
    ensures InTable(RolledBackRows(k, rows, missed), t) == SettledOf(k, rows, HARD + SOFT, missed, t)
  {
    hide SettledOf, HARD, SOFT;
    SettledTable(k, rows, missed, DhcpConfig);
    SettledTable(k, rows, missed, DhcpDdnsConfig);
    SettledTable(k, rows, missed, DhcpHaConfig);
  }

  lemma UnmovedExactly(k: Translation, rows: set<Row>, missed: set<Table>, t: Table)
    requires IsSettings(t) && KeysUnique(rows) && Dhcp.Faithful(k.library)
    ensures SettledOf(k, rows, HARD + SOFT, missed, t) == InTable(rows, t) <==> Unmoved(k, rows, t, missed)
  {
    hide HARD, SOFT, KeyRows, Stored, KeysUnique, Dhcp.Faithful, Dhcp.Written, Dhcp.Read, Dhcp.Canonical, SchemaOf;
    InHardOrSoft(t);
    StoredRows(rows, t);
    var settled := Settled(k, rows, t, t !in missed);
    KeyRowsInjective(t, settled, Stored(rows, t));
    Dhcp.TableSettledExactly(k.library, SchemaOf(t), Stored(rows, t));
  }

  lemma KeyRowsInjective(t: Table, a: map<string, string>, b: map<string, string>)
    ensures KeyRows(t, a) == KeyRows(t, b) <==> a == b
  {
    if KeyRows(t, a) == KeyRows(t, b) {
      forall key | key in a ensures key in b && b[key] == a[key] {
        assert Row(t, key, None, a[key]) in KeyRows(t, b);
      }
      forall key | key in b ensures key in a {
        assert Row(t, key, None, b[key]) in KeyRows(t, a);
      }
    }
  }

  /** A rolled-back restore can lose rows: a failed listing of the queues, and nothing else, is enough. */
  lemma RollbackLosesQueues(k: Translation)
    ensures var queue := Row(QueueConfigs, "q", Some("em0"), "k");
      Lost(k, {queue}, Missed(Faults((i: nat) => i != |HARD|, (i: nat) => false), SOFT, |HARD|)) == {queue}
  {
    var f := Faults((i: nat) => i != |HARD|, (i: nat) => false);
    assert SOFT[0] == QueueConfigs && !f.ok(|HARD| + 0);
    assert QueueConfigs in Missed(f, SOFT, |HARD|);
  }

  /** And it can add rows: where nothing was ever stored, every default of the HA settings appears. */
  lemma RollbackAddsDefaults(k: Translation)
    ensures Row(DhcpHaConfig, "peers", None, "") in RolledBackRows(k, {}, {})
  {
    hide HARD, SOFT, Settled, KeyRows, Dhcp.HA;
    Dhcp.OnlyPeersAreOptional();
    SettledDefault(k, DhcpHaConfig, "peers");
    InHardOrSoft(DhcpHaConfig);
    SettledNothing(k, DhcpHaConfig);
  }

  /** And it can undo a setting: two-factor logins were required in the database only, and are no longer. */
  lemma RollbackDropsTotp(auth: map<AuthKey, string>, inMemory: Auth)
    requires RequireTotp in auth && auth[RequireTotp] == "true" && inMemory.requireTotp == "false"
    ensures (auth + AuthRows(inMemory, AUTH_KEYS))[RequireTotp] == "false"
  {
    assert AUTH_KEYS[2] == RequireTotp;
  }

  /** A default appears under every key. */
  lemma SettledDefault(k: Translation, t: Table, key: string)
    requires IsSettings(t) && key in SchemaOf(t)
    ensures var texts := Settled(k, {}, t, false);
      && key in texts && texts[key] == Dhcp.Encode(k.library, Dhcp.Default(SchemaOf(t)[key]))
      && Row(t, key, None, texts[key]) in KeyRows(t, texts)
  {
    hide Dhcp.Encode, Dhcp.Default, Dhcp.Decode, SchemaOf;
    var texts := Settled(k, {}, t, false);
    assert key in texts;
  }

  lemma SettledNothing(k: Translation, t: Table)
    requires IsSettings(t)
    ensures Settled(k, {}, t, true) == Settled(k, {}, t, false)
  {
    hide Dhcp.Written, Dhcp.Read, SchemaOf;
    NothingStored(t);
  }

  // ---------------------------------------------------------------- the commit-confirm snapshot

  const RUNTIME_HARD: seq<Table> := [Rules, NatRules]
  const RUNTIME_SOFT: seq<Table> := [Aliases, StaticRoutes]
  const DEFAULT_AUTH := Auth("15", "7", "false")

  /** The rows of the default DHCP settings: every key of the three tables. */
  ghost function DefaultRows(k: Translation): set<Row> {
    KeyRows(DhcpConfig, Settled(k, {}, DhcpConfig, false)) + KeyRows(DhcpDdnsConfig, Settled(k, {}, DhcpDdnsConfig, false))
    + KeyRows(DhcpHaConfig, Settled(k, {}, DhcpHaConfig, false))
  }

  /** `capture_runtime_snapshot`: the other sections are left at their defaults, which are empty but for the DHCP
    * settings.
    */
  method CaptureRuntime(db: Database, k: Translation) returns (r: Option<Config>)
    requires k.ifaces == map[]
    modifies db`clock
    ensures r.Some? <==> Clean(db.faults, old(db.clock), old(db.clock) + |RUNTIME_HARD|)
    ensures r.Some? ==> r.value.auth == DEFAULT_AUTH
    ensures r.Some? && KeysUnique(db.rows) ==>
      RuntimeImage(k, r.value, db.rows, Missed(db.faults, RUNTIME_SOFT, old(db.clock) + |RUNTIME_HARD|))
  {
    hide *;
    Plans();
    r := Snapshot(db, k, RUNTIME_HARD, RUNTIME_SOFT, DEFAULT_AUTH);
    RuntimeSettings(k, db.rows, Missed(db.faults, RUNTIME_SOFT, old(db.clock) + |RUNTIME_HARD|));
    if r.Some? {
      RuntimeImageIs(k, r.value, db.rows, Missed(db.faults, RUNTIME_SOFT, old(db.clock) + |RUNTIME_HARD|));
    }
  }

  /** `cfg` stands for what was captured of `rows` in the four sections, and the default DHCP settings. */
  ghost predicate RuntimeImage(k: Translation, cfg: Config, rows: set<Row>, missed: set<Table>) {
    Image(k, cfg) == Returned(k, Captured(k, rows, RUNTIME_HARD + RUNTIME_SOFT, missed)) + DefaultRows(k)
  }

  lemma RuntimeImageIs(k: Translation, cfg: Config, rows: set<Row>, missed: set<Table>)
    requires SnapshotRows(k, rows, RUNTIME_HARD + RUNTIME_SOFT, missed)
          == Returned(k, Captured(k, rows, RUNTIME_HARD + RUNTIME_SOFT, missed)) + DefaultRows(k)
    ensures RuntimeImage(k, cfg, rows, missed) <==> Image(k, cfg) == SnapshotRows(k, rows, RUNTIME_HARD + RUNTIME_SOFT, missed)
  {
    hide Image, SnapshotRows, Captured, Returned, DefaultRows;
  }

  lemma RuntimeSettings(k: Translation, rows: set<Row>, missed: set<Table>)
    ensures SnapshotRows(k, rows, RUNTIME_HARD + RUNTIME_SOFT, missed)
         == Returned(k, Captured(k, rows, RUNTIME_HARD + RUNTIME_SOFT, missed)) + DefaultRows(k)
  {
    hide Captured, Returned, KeyRows, Stored, Dhcp.Written, Dhcp.Read;
    assert forall t :: IsSettings(t) ==> t !in RUNTIME_HARD + RUNTIME_SOFT;
  }

  /** What a revert to `cfg` makes of the rows stored when the window expires. */
  function Reverted(k: Translation, cfg: Config, rows: set<Row>): set<Row> {
    Unmanaged(rows) + Image(k, cfg)
  }

  /** The documented promise that a revert leaves VPN, geo-IP and everything else outside the snapshot untouched holds
    * exactly when the other tables held the default DHCP settings and nothing else, and the three auth keys their
    * defaults.
    */
  lemma RevertLeavesOthersExactly(k: Translation, cfg: Config, captured: set<Row>, missed: set<Table>, rows: set<Row>, auth: map<AuthKey, string>)
    requires RuntimeImage(k, cfg, captured, missed) && cfg.auth == DEFAULT_AUTH
    ensures && Without(Reverted(k, cfg, rows), RUNTIME_HARD + RUNTIME_SOFT) == Without(rows, RUNTIME_HARD + RUNTIME_SOFT)
            && auth + AuthRows(cfg.auth, AUTH_KEYS) == auth
       <==> && Without(Managed(rows), RUNTIME_HARD + RUNTIME_SOFT) == DefaultRows(k)
            && (forall key :: key in AUTH_KEYS ==> key in auth && auth[key] == AuthValue(DEFAULT_AUTH, key))
  {
    hide *;
    AuthKeptExactly(auth, DEFAULT_AUTH);
    RevertLeavesRowsExactly(k, cfg, captured, missed, rows);
  }

  lemma RevertLeavesRowsExactly(k: Translation, cfg: Config, captured: set<Row>, missed: set<Table>, rows: set<Row>)
    requires RuntimeImage(k, cfg, captured, missed)
    ensures Without(Reverted(k, cfg, rows), RUNTIME_HARD + RUNTIME_SOFT) == Without(rows, RUNTIME_HARD + RUNTIME_SOFT)
       <==> Without(Managed(rows), RUNTIME_HARD + RUNTIME_SOFT) == DefaultRows(k)
  {
    hide Image, DefaultRows, RUNTIME_HARD, RUNTIME_SOFT, Returned, Captured;
    var tables := RUNTIME_HARD + RUNTIME_SOFT;
    DefaultTables(k);
    RuntimeTables();
    CapturedTables(k, captured, tables, missed);
    forall r ensures r in Without(Reverted(k, cfg, rows), tables) <==> r in Unmanaged(rows) || r in DefaultRows(k) {
      assert r.table.Elsewhere? ==> r.table !in tables;
    }
    forall r ensures r in Without(rows, tables) <==> r in Unmanaged(rows) || r in Without(Managed(rows), tables) {
      assert r.table.Elsewhere? ==> r.table !in tables;
    }
    forall r ensures !(r in Unmanaged(rows) && (r in DefaultRows(k) || r in Managed(rows))) {}
  }

  /** A revert brings back every rule, NAT rule, alias and static route that was listed and parses back, and of these
    * tables nothing else.
    */
  lemma RevertBringsBackExactly(k: Translation, cfg: Config, captured: set<Row>, missed: set<Table>, rows: set<Row>, r: Row)
    requires RuntimeImage(k, cfg, captured, missed) && r.table in {Rules, NatRules, Aliases, StaticRoutes}
    ensures r in Reverted(k, cfg, rows)
       <==> exists s :: s in captured && s.table == r.table && s.table !in missed && Back(k, s) == Some(r)
  {
    hide Image, DefaultRows, Back;
    BackStays(k);
    DefaultTables(k);
    assert forall t :: t in RUNTIME_HARD + RUNTIME_SOFT <==> t in {Rules, NatRules, Aliases, StaticRoutes};
    if s :| s in captured && s.table == r.table && s.table !in missed && Back(k, s) == Some(r) {
      assert s in Captured(k, captured, RUNTIME_HARD + RUNTIME_SOFT, missed);
    }
  }

  lemma BackStays(k: Translation)
    ensures forall s, r :: Back(k, s) == Some(r) ==> r.table == s.table && r.id == s.id
  {}

  /** Rules and NAT rules must be listed for a snapshot to be taken; aliases and static routes need not. */
  lemma RuntimeStrictness()
    ensures RUNTIME_HARD == [Rules, NatRules] && RUNTIME_SOFT == [Aliases, StaticRoutes]
  {}

  lemma RuntimeTables()
    ensures forall t :: t in RUNTIME_HARD + RUNTIME_SOFT ==> !t.Elsewhere? && !IsSettings(t)
  {}

  lemma DefaultTables(k: Translation)
    ensures forall r :: r in DefaultRows(k) ==> IsSettings(r.table)
  {
    hide Settled;
  }

  /** A WireGuard tunnel that nobody touched is gone after a revert. */
  lemma RevertDropsTunnel(k: Translation, cfg: Config, tunnel: Row, missed: set<Table>)
    requires tunnel == Row(WgTunnels, "a", Some("wg0"), "k")
    requires RuntimeImage(k, cfg, {tunnel}, missed)
    ensures tunnel !in Reverted(k, cfg, {tunnel})
  {
    hide Image, DefaultRows, RUNTIME_HARD, RUNTIME_SOFT, Returned, Captured;
    DefaultTables(k);
    CapturedTables(k, {tunnel}, RUNTIME_HARD + RUNTIME_SOFT, missed);
    assert WgTunnels !in RUNTIME_HARD + RUNTIME_SOFT by { TunnelsNotRuntime(); }
  }

  lemma TunnelsNotRuntime()
    ensures WgTunnels !in RUNTIME_HARD + RUNTIME_SOFT
  {}

  /** Every revert switches the DHCP server off, whatever was configured before. */
  lemma RevertStopsDhcp(k: Translation, cfg: Config, captured: set<Row>, missed: set<Table>, rows: set<Row>)
    requires RuntimeImage(k, cfg, captured, missed)
    ensures Row(DhcpConfig, "enabled", None, "false") in Reverted(k, cfg, rows)
    ensures forall r :: r in Reverted(k, cfg, rows) && r.table == DhcpConfig && r.id == "enabled" ==> r.fields == "false"
  {
    hide Image, DefaultRows, RUNTIME_HARD, RUNTIME_SOFT, Returned, Captured;
    DefaultEnabled(k);
    RuntimeTables();
    CapturedTables(k, captured, RUNTIME_HARD + RUNTIME_SOFT, missed);
  }

  /** Every revert stops requiring two-factor logins and resets the token lifetimes. */
  lemma RevertDropsTotp(auth: map<AuthKey, string>)
    requires RequireTotp in auth && auth[RequireTotp] == "true"
    ensures var after := auth + AuthRows(DEFAULT_AUTH, AUTH_KEYS);
      after[RequireTotp] == "false" && after[AccessTokenExpiryMins] == "15" && after[RefreshTokenExpiryDays] == "7"
  {
    assert AUTH_KEYS[0] == AccessTokenExpiryMins && AUTH_KEYS[1] == RefreshTokenExpiryDays && AUTH_KEYS[2] == RequireTotp;
  }

  lemma DefaultEnabled(k: Translation)
    ensures Row(DhcpConfig, "enabled", None, "false") in DefaultRows(k)
    ensures forall r :: r in DefaultRows(k) && r.table == DhcpConfig && r.id == "enabled" ==> r.fields == "false"
  {
    hide Settled, Dhcp.GLOBAL;
    Dhcp.EnabledIsFlag();
    SettledDefault(k, DhcpConfig, "enabled");
    assert Dhcp.Encode(k.library, Dhcp.Default(Dhcp.GLOBAL["enabled"])) == "false";
  }
}
