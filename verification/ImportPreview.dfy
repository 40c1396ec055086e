/** The import preview and what it promises about interface remapping (aifw-api/src/backup.rs:1300-1461). */
module ImportPreview {
  import opened Basics
  import opened Restore

  /** The sections whose interfaces are collected, in the order of the code. Static routes are not among them. */
  const REFERRING: seq<Table> := [Rules, NatRules, WgTunnels, CarpVips, PfsyncConfig, QueueConfigs, RateLimitRules]

  ghost predicate Names(cfg: Config, sections: seq<Table>, name: string) {
    exists t, e :: t in sections && e in Of(cfg, t) && e.iface == Some(name)
  }

  method CollectSection(entries: seq<Entry>, known: set<string>) returns (refs: set<string>)
    ensures forall name :: name in refs <==> name in known || exists e :: e in entries && e.iface == Some(name)
  {
    refs := known;
    for i := 0 to |entries|
      invariant forall name :: name in refs <==> name in known || exists e :: e in entries[..i] && e.iface == Some(name)
    {
      if entries[i].iface.Some? {
        refs := refs + {entries[i].iface.value};
      }
      assert entries[..i + 1] == entries[..i] + [entries[i]];
    }
    assert entries[..|entries|] == entries;
  }

  /** `collect_interface_refs`. */
  method CollectInterfaceRefs(cfg: Config) returns (refs: set<string>)
    ensures forall name :: name in refs <==> Names(cfg, REFERRING, name)
  {
    hide REFERRING, Of;
    refs := {};
    for i := 0 to |REFERRING|
      invariant forall name :: name in refs <==> Names(cfg, REFERRING[..i], name)
    {
      var t := REFERRING[i];
      ghost var before := refs;
      refs := CollectSection(Of(cfg, t), refs);
      assert REFERRING[..i + 1] == REFERRING[..i] + [t];
      forall name ensures name in refs <==> Names(cfg, REFERRING[..i + 1], name) {
        NamesNext(cfg, REFERRING[..i], t, name);
      }
    }
    assert REFERRING[..|REFERRING|] == REFERRING;
  }

  lemma NamesNext(cfg: Config, sections: seq<Table>, t: Table, name: string)
    ensures Names(cfg, sections + [t], name) <==>
      Names(cfg, sections, name) || exists e :: e in Of(cfg, t) && e.iface == Some(name)
  {
    hide Of;
    if Names(cfg, sections, name) {
      var u, e :| u in sections && e in Of(cfg, u) && e.iface == Some(name);
      assert u in sections + [t];
    }
    if e :| e in Of(cfg, t) && e.iface == Some(name) {
      assert t in sections + [t];
    }
  }

  // ---------------------------------------------------------------- the drop counts

  /** How many entries `map_iface` drops. */
  function Dropped(entries: seq<Entry>, ifaces: InterfaceMap): nat {
    if entries == [] then 0
    else Dropped(entries[..|entries| - 1], ifaces) + if Resolve(entries[|entries| - 1].iface, ifaces).None? then 1 else 0
  }

  datatype DropSummary = DropSummary(
    rules: nat, nat_: nat, wireguard: nat, carp: nat, queues: nat, rateLimits: nat, pfsync: bool)

  function Unmapped(missing: set<string>): InterfaceMap {
    map name | name in missing :: None
  }

  method CountSection(entries: seq<Entry>, missing: set<string>) returns (n: nat)
    ensures n == Dropped(entries, Unmapped(missing))
  {
    n := 0;
    for i := 0 to |entries|
      invariant n == Dropped(entries[..i], Unmapped(missing))
    {
      if entries[i].iface.Some? && entries[i].iface.value in missing {
        n := n + 1;
      }
      assert entries[..i + 1][..i] == entries[..i];
    }
    assert entries[..|entries|] == entries;
  }

  /** `compute_drop_summary`: each count is what `map_iface` drops with every missing interface left unmapped. */
  method ComputeDropSummary(cfg: Config, missing: set<string>) returns (s: DropSummary)
    ensures s.rules == Dropped(Of(cfg, Rules), Unmapped(missing))
    ensures s.nat_ == Dropped(Of(cfg, NatRules), Unmapped(missing))
    ensures s.wireguard == Dropped(Of(cfg, WgTunnels), Unmapped(missing))
    ensures s.carp == Dropped(Of(cfg, CarpVips), Unmapped(missing))
    ensures s.queues == Dropped(Of(cfg, QueueConfigs), Unmapped(missing))
    ensures s.rateLimits == Dropped(Of(cfg, RateLimitRules), Unmapped(missing))
    ensures s.pfsync <==> Dropped(Of(cfg, PfsyncConfig), Unmapped(missing)) > 0
  {
    hide Dropped, Of;
    var rules := CountSection(Of(cfg, Rules), missing);
    var nats := CountSection(Of(cfg, NatRules), missing);
    var wireguard := CountSection(Of(cfg, WgTunnels), missing);
    var carp := CountSection(Of(cfg, CarpVips), missing);
    var queues := CountSection(Of(cfg, QueueConfigs), missing);
    var rateLimits := CountSection(Of(cfg, RateLimitRules), missing);
    var pfsync := CountSection(Of(cfg, PfsyncConfig), missing);
    s := DropSummary(rules, nats, wireguard, carp, queues, rateLimits, pfsync > 0);
  }

  /** `build_import_preview`: the interfaces found, those of them absent, and the counts. */
  method BuildImportPreview(cfg: Config, present: set<string>) returns (found: set<string>, missing: set<string>, s: DropSummary)
    ensures forall name :: name in found <==> Names(cfg, REFERRING, name)
    ensures missing == found - present
    ensures s.rules == Dropped(Of(cfg, Rules), Unmapped(missing))
    ensures s.nat_ == Dropped(Of(cfg, NatRules), Unmapped(missing))
    ensures s.wireguard == Dropped(Of(cfg, WgTunnels), Unmapped(missing))
    ensures s.carp == Dropped(Of(cfg, CarpVips), Unmapped(missing))
    ensures s.queues == Dropped(Of(cfg, QueueConfigs), Unmapped(missing))
    ensures s.rateLimits == Dropped(Of(cfg, RateLimitRules), Unmapped(missing))
    ensures s.pfsync <==> Dropped(Of(cfg, PfsyncConfig), Unmapped(missing)) > 0
  {
    hide Dropped, Of, REFERRING;
    found := CollectInterfaceRefs(cfg);
    missing := found - present;
    s := ComputeDropSummary(cfg, missing);
  }

  /** The rows of the section's own table; a tunnel's peers go to another. */
  function OwnRows(k: Translation, t: Table, entries: seq<Entry>): set<Row> {
    set r | r in SectionImage(k, t, entries) && r.table == t
  }

  /** When everything parses and ids are distinct, what a section restores and what its count drops add up. */
  lemma {:induction false} CountsAddUp(k: Translation, t: Table, entries: seq<Entry>)
    requires t != WgPeers
    requires forall i :: 0 <= i < |entries| ==> k.parse(t, entries[i].fields).Some?
    requires forall i, j :: 0 <= i < j < |entries| ==> entries[i].id != entries[j].id
    ensures |OwnRows(k, t, entries)| + Dropped(entries, k.ifaces) == |entries|
    ensures forall r :: r in OwnRows(k, t, entries) ==> ComesFrom(entries, r)
  {
    hide Products, SectionImage, OwnRows;
    if entries == [] {
      OwnRowsOfNothing(k, t);
    } else {
      var n := |entries| - 1;
      var front, last := entries[..n], entries[n];
      CountsAddUp(k, t, front);
      var own := ProductsOfOne(k, t, last);
      OwnRowsSnoc(k, t, entries, own);
      forall r | r in OwnRows(k, t, front) ensures ComesFrom(entries, r) && r.id != last.id {
        assert ComesFrom(front, r);
      }
      assert OwnRows(k, t, front) !! own;
    }
  }

  lemma OwnRowsOfNothing(k: Translation, t: Table)
    ensures OwnRows(k, t, []) == {}
  {}

  lemma OwnRowsSnoc(k: Translation, t: Table, entries: seq<Entry>, own: set<Row>)
    requires entries != [] && own == set r | r in Products(k, t, entries[|entries| - 1]) && r.table == t
    ensures OwnRows(k, t, entries) == OwnRows(k, t, entries[..|entries| - 1]) + own
  {
    hide Products;
  }

  ghost predicate ComesFrom(entries: seq<Entry>, r: Row) {
    exists i :: 0 <= i < |entries| && entries[i].id == r.id
  }

  lemma ProductsOfOne(k: Translation, t: Table, e: Entry) returns (own: set<Row>)
    requires t != WgPeers && k.parse(t, e.fields).Some?
    ensures own == set r | r in Products(k, t, e) && r.table == t
    ensures |own| == if Resolve(e.iface, k.ifaces).None? then 0 else 1
    ensures forall r :: r in own ==> r.id == e.id
  {
    own := {};
    if Resolve(e.iface, k.ifaces).Some? {
      own := {Row(t, e.id, Resolve(e.iface, k.ifaces).value, k.parse(t, e.fields).value)};
    }
  }

  // ---------------------------------------------------------------- closure

  /** Every missing name is dropped or sent to a present one, and no other name is mapped. */
  ghost predicate Resolved(ifaces: InterfaceMap, missing: set<string>, present: set<string>) {
    && (forall name :: name in missing ==> name in ifaces)
    && (forall name :: name in ifaces ==> name in missing && (ifaces[name].Some? ==> ifaces[name].value in present))
  }

  ghost predicate OnPresent(r: Row, present: set<string>) {
    r.iface.Some? ==> r.iface.value in present
  }

  /** No restored rule, NAT rule, tunnel, VIP, pfsync, queue or rate limit names an absent interface. */
  lemma RemapIsClosed(k: Translation, cfg: Config, found: set<string>, present: set<string>, r: Row)
    requires forall name :: Names(cfg, REFERRING, name) ==> name in found
    requires Resolved(k.ifaces, found - present, present)
    requires r in Image(k, cfg)
    requires r.table in {Rules, NatRules, WgTunnels, CarpVips, PfsyncConfig, QueueConfigs, RateLimitRules}
    ensures OnPresent(r, present)
  {
    ReferringExactly(r.table);
    hide REFERRING, SECTIONS;
    NoPeers();
    var t := SectionOf(k, cfg, SECTIONS, r);
    SectionTables(k, cfg, t, r);
    assert t == r.table;
    var e := EntryIn(k, t, Of(cfg, t), r);
    if e.iface.Some? {
      assert Names(cfg, REFERRING, e.iface.value) by {
        assert t in REFERRING && e in Of(cfg, t);
      }
    }
  }

  lemma ReferringExactly(t: Table)
    ensures t in REFERRING <==> t in {Rules, NatRules, WgTunnels, CarpVips, PfsyncConfig, QueueConfigs, RateLimitRules}
  {}

  lemma NoPeers()
    ensures WgPeers !in REFERRING && forall t :: t in REFERRING ==> !IsSettings(t)
  {}

  /** The section a restored row comes from. */
  lemma {:induction false} SectionOf(k: Translation, cfg: Config, sections: seq<Table>, r: Row) returns (t: Table)
    requires r in ImageOf(k, cfg, sections)
    ensures t in sections && r in SectionRows(k, cfg, t)
  {
    hide SectionRows;
    t := sections[|sections| - 1];
    if r !in SectionRows(k, cfg, t) {
      t := SectionOf(k, cfg, sections[..|sections| - 1], r);
    }
  }

  /** The entry of a section that a restored row comes from. */
  lemma {:induction false} EntryIn(k: Translation, t: Table, entries: seq<Entry>, r: Row) returns (e: Entry)
    requires r in SectionImage(k, t, entries)
    ensures e in entries && r in Products(k, t, e)
  {
    hide Products;
    e := entries[|entries| - 1];
    if r !in Products(k, t, e) {
      e := EntryIn(k, t, entries[..|entries| - 1], r);
    }
  }

  /** Static routes stay outside: one on an absent interface is found by nothing and restored as it is. */
  lemma StaticRouteEscapes(k: Translation, present: set<string>)
    requires k.ifaces == map[] && k.parse(StaticRoutes, "") == Some("") && "em9" !in present
    ensures var cfg := Config(map[StaticRoutes := [Entry("r", Some("em9"), "", [])]], map[], Auth("", "", ""));
      && (forall name :: !Names(cfg, REFERRING, name))
      && Resolved(k.ifaces, {} - present, present)
      && exists r :: r in SectionImage(k, StaticRoutes, Of(cfg, StaticRoutes)) && !OnPresent(r, present)
  {
    var cfg := Config(map[StaticRoutes := [Entry("r", Some("em9"), "", [])]], map[], Auth("", "", ""));
    var e := Entry("r", Some("em9"), "", []);
    var r := Row(StaticRoutes, "r", Some("em9"), "");
    assert Of(cfg, StaticRoutes) == [e] && [e][..0] == [];
    assert r in Products(k, StaticRoutes, e);
    assert r in SectionImage(k, StaticRoutes, [e]);
    assert !OnPresent(r, present);
    assert StaticRoutes !in REFERRING;
  }
}
