# Verification of the AiFw API core

AiFw is a FreeBSD firewall appliance. This project models the parts of its API crate (`aifw-api`) that hold
self-contained logic, and proves what they are for: a backwards log tail, a hand-written SHA-256 and base64 decoder,
configuration restore with rollback, the commit-confirm window, debounced snapshots, the multi-WAN apply coalescer,
the login limiter, the cluster snapshot cache, the pf.conf patcher, the DNS backend switch, DHCP option validation
and its TOML text, the DHCP backup section, the audit-hook dispatcher, and the IPv4 scope checks.

`dafny verify dfyconfig.toml` checks everything.

| file | what it models | how |
|---|---|---|
| `LogTail.dfy` | `log_tail.rs` | the chunked loop, against split / reverse / limit / filter / take |
| `Sha256.dfy` | the hasher of `ca.rs` | loops over 32-bit words, against FIPS 180-4 |
| `Fingerprint.dfy` | the base64 decoder and PEM fingerprint of `ca.rs` | the bit-buffer loop, against section 4 of RFC 4648 |
| `Coalescer.dfy`, `CommitConfirm.dfy`, `AutoSnapshot.dfy`, `SnapshotCache.dfy` | concurrent tasks | step systems; every interleaving of the atomic steps |
| `Restore.dfy`, `Rollback.dfy`, `ImportPreview.dfy` | restore, rollback, runtime snapshot, interface remapping | tables in place, every operation may fail |
| `DhcpSection.dfy`, `Text.dfy` | export and restore of the DHCP tables | tables in place, and the text codecs |
| `DhcpOptions.dfy`, `Toml.dfy` | option validation, its mirror, the generated text | a loop, and a TOML v1.0.0 reader |
| `DnsSwitch.dfy` | the backend switch and the readiness wait | a class over flags, services and keys |
| `LoginLimiter.dfy` | the login limiter | two hash maps, refining an event log |
| `PfAnchor.dfy` | the pf.conf patcher | the line loop |
| `AuditHook.dfy` | the audit-log dispatcher | a class with a cursor |
| `Subnet.dfy` | mask tests and pool checks | arithmetic on 32-bit addresses |

Where the code and what is said about it differ, the model follows the code, and a lemma says exactly when the two agree:

- "First existing path" (`log_tail.rs:34`): a path that exists but shows no line is passed over
  (`LogTail.FirstExistingExactly`).
- "Up to `take` lines" (`log_tail.rs:36`): with `take` zero one matching line still comes back (`LogTail.AtMostTakeExactly`).
- "VPN, geo-IP, and other engine state stays untouched on revert" (`backup.rs:380`): a revert empties those tables,
  fills in the default DHCP settings and so switches DHCP off, and resets the token lifetimes and the TOTP requirement
  (`Rollback.RevertLeavesOthersExactly`, `Rollback.RevertStopsDhcp`, `Rollback.RevertDropsTotp`).
- "Apply failed, prior state restored" (`backup.rs:1520`): tables that the snapshot could not list come back empty or
  with defaults, rows that do not parse back are dropped or changed, the DHCP settings come back with every key, and
  the auth settings come back as they were at boot (`Rollback.PriorStateExactly`, `Rollback.RollbackDropsTotp`).
- "Must mirror `validate_option_overrides`" (`backup.rs:1218`): not for blank text or for text with stray edges
  (`DhcpOptions.MirrorExactly`).
- "Entries written while no plugin is running are skipped" (`plugins.rs:290`): not if the tail query fails, and not in
  a time without plugins that no tick falls into (`AuditHook.IdleSkippedExactly`, `AuditHook.NoReplayExactly`).
- A reorder of policies or a seeding of leaks that fails after writing something leaves saved rows unmarked
  (`Coalescer.WalkWellMarkedExactly`, `Coalescer.PartialWalkLost`).
- A stale rollback timer takes a window armed after its own (`CommitConfirm.TakesOwnWindowExactly`).
- A backend whose flag cannot be read is not stopped, and both end up enabled (`DnsSwitch.AgreeExactly`).
- A validated number such as `064` is emitted as text that is not a TOML integer (`Toml.IntegerReadsBackExactly`).

## Model

| member | source | states |
|---|---|---|
| `LogTail.ReverseTail` | aifw-api/src/log_tail.rs:71-138 | For every file, chunk size, limit and filter: the backwards scan returns the whole-file pipeline's answer, so the chunk size is invisible; stopping early it has read less than one chunk before the newline it stopped at. |
| `LogTail.ScanChunk` | aifw-api/src/log_tail.rs:103-131 | One chunk with a carried partial line: the complete lines in it are handled, what remains is the carry, and the pending result is unchanged. |
| `LogTail.RestIsReversedLines` | aifw-api/src/log_tail.rs:110-136 | The lines met by the scan are the lines of the file in reverse, without the piece after a final newline and without an empty first line. |
| `LogTail.EmitIsPipeline` | aifw-api/src/log_tail.rs:87-100 | Counting, filtering and stopping in one pass equals limit, then filter, then take, from every intermediate state. |
| `LogTail.ScanMeetsSpec` | aifw-api/src/log_tail.rs:67-70 | The line-by-line scan of a whole file is the specification. |
| `LogTail.TailMeaning` | aifw-api/src/log_tail.rs:67-70 | The lines returned are, of the lines of the file newest first and no more than the limit, the first `take` in which the needle occurs, each decoded and without its carriage return; none in between is left out. |
| `LogTail.ContainsExactly` | aifw-api/src/log_tail.rs:91-94 | A needle is found if and only if it stands at some position of the text. |
| `LogTail.StripCrExactly` | aifw-api/src/log_tail.rs:90 | One carriage return at the end is removed and nothing else. |
| `LogTail.NeedleExactly` | aifw-api/src/log_tail.rs:43-46 | A needle filters if and only if something but blanks is left of it after lower-casing, and filters by that. |
| `LogTail.AtMostTakeExactly` | aifw-api/src/log_tail.rs:34-36 | At most `take` lines come back if and only if `take` is positive, or there is no line, or the newest one is not wanted. |
| `LogTail.TailFiltered` | aifw-api/src/log_tail.rs:37-65 | The answer is that of the first path with a non-empty answer, and empty only if all are. |
| `LogTail.FirstExistingExactly` | aifw-api/src/log_tail.rs:34-36 | The answer is that of the first existing path if and only if that answer is not empty or every later one is. |
| `LogTail.SecondPathAnswers` | aifw-api/src/log_tail.rs:48-64 | A concrete pair of paths answered by the second although the first exists. |
| `Fips180.RoundConstantsAreCubeRoots` | aifw-api/src/ca.rs:158-167 | Each of the 64 constants is the 32-bit fraction of the cube root of its prime (section 4.2.2 of FIPS 180-4). |
| `Fips180.InitialHashIsSquareRoots` | aifw-api/src/ca.rs:170-178 | Each initial word is the fraction of the square root of its prime (section 5.3.3). |
| `Fips180.PaddingMinimal` | aifw-api/src/ca.rs:182-188 | Padding gives whole blocks, keeps the message in front, and is the shortest that holds the marker and the length. |
| `Fips180.PaddingInjective` | aifw-api/src/ca.rs:182-188 | Different messages have different paddings. |
| `Fips180.LengthIsRead` | aifw-api/src/ca.rs:183-189 | The last eight octets of a padded message, read most significant first, are its length in bits. |
| `Fips180.BigEndianIsRead` | aifw-api/src/ca.rs:189 | Octets written big-endian are read back as the number. |
| `Fips180.WordIsOctets` | aifw-api/src/ca.rs:194-201 | The octets of a block word are the four octets it was made from, in their order. |
| `Fips180.DigestIsRead` | aifw-api/src/ca.rs:241-245 | The i-th word read from a digest is the i-th hash word. |
| `Fips180.AsWordIs` | aifw-api/src/ca.rs:158-178 | Each tabulated constant becomes the word with its value. |
| `Fips180.InitialWords` | aifw-api/src/ca.rs:170-178 | The eight initial words stand in the order of the primes. |
| `Fips180.AddIs` | aifw-api/src/ca.rs:202-239 | Wrapping addition keeps the low 32 bits of the sum. |
| `Sha256Code.PadLoop` | aifw-api/src/ca.rs:183-188 | The padding loop terminates with the padding of section 5.1.1 for every message under 2^61 bytes. |
| `Sha256Code.ScheduleLoop` | aifw-api/src/ca.rs:193-209 | The 64 schedule words are those of section 6.2.2, step 1. |
| `Sha256Code.ExpandMeetsFips` | aifw-api/src/ca.rs:201-206 | Rotations and the reversed order of addition compute the recurrence of the standard. |
| `Sha256Code.RoundCode` | aifw-api/src/ca.rs:210-231 | One pass of the working variables is the standard's round. |
| `Sha256Code.CompressLoop` | aifw-api/src/ca.rs:192-240 | One block through the loops is the standard's compression. |
| `Sha256Code.Hasher.Update` | aifw-api/src/ca.rs:179-181 | What is fed in is appended to what was fed before. |
| `Sha256Code.DigestInPieces` | aifw-api/src/ca.rs:169-247 | Feeding a message in any pieces gives the digest of the whole. |
| `Sha256Code.Hasher.Finalize` | aifw-api/src/ca.rs:182-247 | The digest is the FIPS 180-4 SHA-256 of everything fed in. |
| `Base64.Base64Decode` | aifw-api/src/ca.rs:249-268 | The bit-buffer loop decodes every text to what its letters stand for in groups of four, ignoring padding and line breaks, and fails on any other stranger. |
| `Base64.ShiftIn` | aifw-api/src/ca.rs:258-264 | At each loop head the buffer holds exactly the 0, 2, 4 or 6 bits not yet put out. |
| `Base64.GroupsRoundTrip` | aifw-api/src/ca.rs:249-268 | Decoding inverts the three-octets-to-four-values encoding of section 4 of RFC 4648. |
| `Base64.DecodeInvertsEncode` | aifw-api/src/ca.rs:249-268 | Any text with the letters of the encoding of `d` in order decodes to `d`, wherever padding, CR and LF stand. |
| `Base64.DecodeSkips` | aifw-api/src/ca.rs:254-256 | A line feed, carriage return or equals sign anywhere changes nothing. |
| `Base64.DecodeRefuses` | aifw-api/src/ca.rs:257 | Any other character outside the alphabet makes the text undecodable. |
| `Base64.EncodeLength` | aifw-api/src/ca.rs:249-268 | The encoding has four letters for every three octets or part of them. |
| `Pem.Fingerprint` | aifw-api/src/ca.rs:133-150 | The fingerprint is the hex text of the hash of the decoded body, or of the text itself if it does not decode. |
| `Pem.PemFingerprint` | aifw-api/src/ca.rs:133-150 | For every wrapping of the encoding between boundary lines, with either line ending and with or without a newline after the last line, the DER octets are what is hashed. |
| `Pem.HexColonsInjective` | aifw-api/src/ca.rs:145-149 | Equal fingerprints mean equal digests. |
| `Pem.FingerprintIsRead` | aifw-api/src/ca.rs:145-149 | Each octet is read back from its two digits, the higher first, with a colon between octets. |
| `Pem.BoundaryExactly` | aifw-api/src/ca.rs:138 | A line is left out if and only if it starts with five dashes. |
| `Coalescer.StepKeepsInv` | aifw-api/src/multiwan.rs:60-106 | Every step keeps: a set flag has a permit, a worker yet to swap it, or a handler that has stored a flag and not yet notified; an unseen save is on its way. |
| `Coalescer.KernelFollowsSuccess` | aifw-api/src/multiwan.rs:82-106 | The kernel changes only when a rebuild succeeds, to what that rebuild read. |
| `Coalescer.NoUpdateLost` | aifw-api/src/multiwan.rs:82-106 | In every interleaving, once things are quiet the last rebuild of each plane read its tables after the last save, and if it succeeded the kernel holds every save. |
| `Coalescer.HandlersWellMarked` | aifw-api/src/multiwan.rs:871-920 | Handlers that save one row and then mark, and imports of any mix of saves, mark what they save. |
| `Coalescer.WalkWellMarkedExactly` | aifw-api/src/multiwan.rs:1257-1279 | A walk over policies or instances that writes a row at some elements and returns at element `stop` marks what it saved if and only if it reached its end or no element before the stop was to be written; a reorder writes at every element, a seeding of escape leaks where a leak is missing. |
| `Coalescer.SeedingExample` | aifw-core/src/multiwan/leak.rs:234-255 | A seeding that has added every missing leak and then fails to look up an instance that has one does not mark. |
| `Coalescer.PartialWalkLost` | aifw-api/src/multiwan.rs:1010-1023 | From any quiet, up-to-date state, every such walk that stops short after writing something runs to a quiet state whose kernel misses exactly what it saved. |
| `Coalescer.StepLowersRank` | aifw-api/src/multiwan.rs:82-106 | Every step but a new request lowers a rank. |
| `Coalescer.RunBounded` | aifw-api/src/multiwan.rs:82-106 | Without new requests a run is no longer than its starting rank, so the rebuild cannot be put off for ever. |
| `Coalescer.StuckIsQuiescent` | aifw-api/src/multiwan.rs:82-106 | The states with no step left are exactly the quiet ones. |
| `CommitConfirm.StepKeepsInv` | aifw-api/src/backup.rs:456-531 | Every step of armers, accepts and timers keeps the window invariant. |
| `CommitConfirm.WindowsConserved` | aifw-api/src/backup.rs:456-531 | In every interleaving windows armed = accepted + taken by timers + stored, and a stored window has its own uncancelled timer still ahead of it. |
| `CommitConfirm.NeverOverwritten` | aifw-api/src/backup.rs:456-485 | An armed window is never replaced. |
| `CommitConfirm.BusyIsRefused` | aifw-api/src/backup.rs:462-485 | While a window is stored, arming is refused at both locks and stores and spawns nothing. |
| `CommitConfirm.AcceptedIsFinal` | aifw-api/src/backup.rs:490-531 | An accepted window is never taken later; what timers applied is, as a multiset, the snapshots of the windows they took. |
| `CommitConfirm.NoWindowForgotten` | aifw-api/src/backup.rs:490-531 | When all timers are done every window was accepted or rolled back. |
| `CommitConfirm.TakesOwnWindowExactly` | aifw-api/src/backup.rs:492-506 | An expired timer takes its own window if and only if that window had not left the store. |
| `CommitConfirm.StaleTimerTakesLaterWindow` | aifw-api/src/backup.rs:492-506 | A concrete run in which an old timer takes a later window. |
| `AutoSnapshot.StepKeepsInv` | aifw-api/src/backup.rs:2565-2624 | Every step keeps the pending-state invariant. |
| `AutoSnapshot.Debounced` | aifw-api/src/backup.rs:2577-2615 | In every interleaving `scheduled` holds exactly while one worker has yet to drain, and the counts the workers took plus the pending one equal the recorded mutations. |
| `AutoSnapshot.VersionsNameLatest` | aifw-api/src/backup.rs:2611-2620 | The workers take the recorded mutations in order, each at least one; the stored version carries the comment of the latest one taken and, if there were more, how many. |
| `AutoSnapshot.EveryChangeIsBuilt` | aifw-api/src/backup.rs:2577-2624 | In a quiet state every recorded change lies before the start of the build of some worker, and all are taken. |
| `AutoSnapshot.StepLowersRank` | aifw-api/src/backup.rs:2577-2624 | Every step but a new change lowers a rank. |
| `AutoSnapshot.RunBounded` | aifw-api/src/backup.rs:2577-2624 | Without further changes a run is no longer than its starting rank. |
| `AutoSnapshot.StuckIsQuiet` | aifw-api/src/backup.rs:2577-2624 | The states in which only a new change can happen are exactly the quiet ones, so every change comes to be built. |
| `SnapshotCache.StepKeepsInv` | aifw-api/src/main.rs:267-297 | Every step keeps each entry and answer sound for its generation. |
| `SnapshotCache.FreshForEveryCaller` | aifw-api/src/main.rs:267-297 | Every answer reflects every mutation bumped before the caller's load, also when an older caller overwrote a newer entry, and the hash is of exactly the returned text. |
| `SnapshotCache.KeepsGeneration` | aifw-api/src/main.rs:267-297 | A caller is answered for the generation it loaded. |
| `Restore.Database.RunStage` | aifw-api/src/backup.rs:1589-1644 | A stage that meets no failure leaves its tables as the image of its sections; it fails exactly when an operation does, and other tables are never touched. |
| `Restore.Database.InsertEntry` | aifw-api/src/backup.rs:1606-1633 | One entry is dropped, skipped or inserted (a tunnel with its peers), as its image says. |
| `Restore.Database.WriteSettings` | aifw-api/src/backup.rs:2057-2104 | A key/value section puts one row per key of its schema into its table, or fails with an operation. |
| `Restore.Database.ApplyFirewallConfig` | aifw-api/src/backup.rs:1574-2034 | Under any fault schedule: success exactly when no operation failed, and then all managed tables together are the image of the configuration under the interface map, whatever was there before, the kernel enforces what those tables hold, and the auth keys are written. |
| `Restore.SettingsAreRestored` | aifw-api/src/backup.rs:2057-2255 | The rows of the three key/value tables in the image are those that restoring the DHCP section writes. |
| `Restore.StagesCompose` | aifw-api/src/backup.rs:1589-1605 | A later stage leaves the rows restored by earlier ones alone. |
| `Rollback.Snapshot` | aifw-api/src/backup.rs:558-837 | A snapshot fails exactly when a strict listing fails; otherwise restoring it literally yields what parses back of the rows it could list, and every key of the DHCP settings, with defaults where nothing was read. |
| `Rollback.RowComesBack` | aifw-api/src/backup.rs:618-651 | The image of an exported row, with the peers of a tunnel, is what parses back of those rows. |
| `Rollback.ApplyOrRollback` | aifw-api/src/backup.rs:1527-1572 | A failed snapshot changes nothing; applied means the image of the target; rolled back means the image of the snapshot taken first, which is what parses back of the prior rows it could list, with the three key/value tables settled and the auth keys overwritten from memory; each outcome is tied to where the faults fell. |
| `Rollback.LostExactly` | aifw-api/src/backup.rs:1514-1526 | If every row parses back to itself, a rollback loses exactly the rows of tables whose listing was missed and orphaned peers. |
| `Rollback.PriorStateExactly` | aifw-api/src/backup.rs:1514-1526 | A rollback restores the prior rows and auth settings if and only if no listing of a table with rows was missed, every row parses back to itself, no peer is orphaned, each key/value table held every key in canonical text and no other key (or, if its listing was missed, exactly the defaults), and the three auth keys were stored with the values in memory. |
| `Rollback.RollbackDropsTotp` | aifw-api/src/backup.rs:616-626 | A TOTP requirement that is stored but not in memory is gone after a rollback. |
| `Rollback.RollbackAddsDefaults` | aifw-api/src/backup.rs:1001-1032 | Where no HA settings were ever stored, a rollback stores them. |
| `Rollback.CaptureRuntime` | aifw-api/src/backup.rs:377-450 | The commit-confirm snapshot stands for what parses back of the rules, NAT, aliases and static routes it could list, every default of the DHCP settings, and default auth settings. |
| `Rollback.RevertLeavesOthersExactly` | aifw-api/src/backup.rs:377-380 | A revert leaves everything outside the four sections untouched if and only if the other managed tables held the default DHCP settings and nothing else, and the three auth keys their defaults. |
| `Rollback.RevertBringsBackExactly` | aifw-api/src/backup.rs:399-447 | A revert brings back every rule, NAT rule, alias and static route that was listed and parses back, and nothing else in those tables. |
| `Rollback.RuntimeStrictness` | aifw-api/src/backup.rs:384-395 | Rules and NAT rules must be listed; aliases and static routes need not. |
| `Rollback.RevertDropsTotp` | aifw-api/src/backup.rs:447 | Every revert resets a stored TOTP requirement and the token lifetimes. |
| `Rollback.RevertStopsDhcp` | aifw-api/src/backup.rs:447 | Every revert leaves the DHCP server disabled. |
| `Rollback.RevertDropsTunnel` | aifw-api/src/backup.rs:492-506 | A concrete tunnel that a revert removes. |
| `Rollback.RollbackLosesQueues` | aifw-api/src/backup.rs:592-597 | A single failed queue listing is enough for a rollback to lose the queues. |
| `ImportPreview.CollectInterfaceRefs` | aifw-api/src/backup.rs:1322-1350 | The names collected are exactly those that entries of the seven sections name. |
| `ImportPreview.ComputeDropSummary` | aifw-api/src/backup.rs:1353-1394 | Each count is the number of entries a restore drops when every missing interface is left unmapped. |
| `ImportPreview.BuildImportPreview` | aifw-api/src/backup.rs:1435-1461 | Found, missing and counts of the preview together. |
| `ImportPreview.CountsAddUp` | aifw-api/src/backup.rs:1353-1394 | Rows restored to a section's table plus entries counted as dropped equal the entries of the section. |
| `ImportPreview.RemapIsClosed` | aifw-api/src/backup.rs:1606-1633 | If every missing name is dropped or sent to a present one and no other is mapped, no restored row of those sections names an absent interface. |
| `ImportPreview.StaticRouteEscapes` | aifw-api/src/backup.rs:1676-1685 | A static route on an absent interface is outside both. |
| `Csv.SplitGivesTokens` | aifw-api/src/backup.rs:1035-1040 | Every element of a split list is trimmed, not empty and free of commas. |
| `Csv.SplitUndoesJoinExactly` | aifw-api/src/backup.rs:1035-1040 | `split_csv` undoes `join` if and only if every token is trimmed, not empty and free of commas. |
| `Csv.CanonicalListExactly` | aifw-api/src/backup.rs:1035-1040 | `join` undoes `split_csv` if and only if the text is empty or has no blanks around its parts and no empty part. |
| `Basics.TrimExactly` | aifw-api/src/backup.rs:1037 | Trimming cuts the blanks at both ends of a text and nothing else. |
| `Decimal.ParseOfPrint` | aifw-api/src/backup.rs:894-920 | A printed number within the width parses back to itself, and one beyond it does not parse. |
| `Decimal.ParseExactly` | aifw-api/src/backup.rs:894-920 | Digits after at most one plus sign parse; the sign and leading zeros change nothing; anything else is an error. |
| `DhcpSection.ReadPairs` | aifw-api/src/backup.rs:889-921 | The export loop gives defaults overwritten key by key, in whatever order rows come. |
| `DhcpSection.WritePairs` | aifw-api/src/backup.rs:2057-2104 | The restore loop writes one text per key into the emptied table. |
| `DhcpSection.ValueSettles` | aifw-api/src/backup.rs:885-1044 | A value of any kind is stable after one write and read if and only if it is not a peer list with text but only blank parts; after two it always is. |
| `DhcpSection.ValueReturnsExactly` | aifw-api/src/backup.rs:885-1044 | A value comes back from a restore and an export as it was, if and only if it is no list with a bad element, no empty optional and no float that does not print and parse. |
| `DhcpSection.EmptyExport` | aifw-core/src/config.rs:820-846 | What an export of empty tables holds, key by key. |
| `DhcpSection.GlobalTextsRead` | aifw-api/src/backup.rs:895-909 | How each flag and text of the global table reads. |
| `DhcpSection.GlobalListsRead` | aifw-api/src/backup.rs:897-904 | How each list of the global table reads. |
| `DhcpSection.GlobalNumbersRead` | aifw-api/src/backup.rs:899-918 | How each number of the global table reads, with its width and fallback. |
| `DhcpSection.DdnsRead` | aifw-api/src/backup.rs:982-1000 | How each key of the DDNS table reads. |
| `DhcpSection.HaScalarsRead` | aifw-api/src/backup.rs:1001-1024 | How the HA keys other than the peers read. |
| `DhcpSection.TextSettles` | aifw-api/src/backup.rs:885-1044 | A stored text of any kind is stable after one read and write. |
| `DhcpSection.TableSettles` | aifw-api/src/backup.rs:885-1044 | The same for a whole key/value table. |
| `DhcpSection.TextSettledExactly` | aifw-api/src/backup.rs:885-1044 | A stored text survives an export and restore if and only if it is canonical: a plain flag, a list without blanks or empty parts, a number as printed, or any text. |
| `DhcpSection.TableSettledExactly` | aifw-api/src/backup.rs:885-1044 | A key/value table survives if and only if it holds every key of its schema, no other key, and canonical texts. |
| `DhcpSection.BlankPeersExample` | aifw-api/src/backup.rs:1018 | Concrete peers that export as an empty list and then as none. |
| `DhcpSection.SubnetSettles` | aifw-api/src/backup.rs:923-968 | A restored subnet row (filtered relays and options, truncated integers) survives export and restore unchanged. |
| `DhcpSection.SubnetEdges` | aifw-api/src/backup.rs:923-968 | Nulls become defaults, wide integers wrap to their width, and a relay or option is kept exactly when it passes its test. |
| `DhcpSection.DatabaseFixedPoint` | aifw-api/src/backup.rs:2036-2263 | From any tables: after one export and restore, the next changes nothing in any of the five tables, whatever the listing order. |
| `DhcpSection.SectionSettles` | aifw-api/src/backup.rs:2036-2263 | Restoring any section and exporting it: the second export repeats the first if and only if the HA peers were not blank; the third always repeats the second. |
| `DhcpSection.Store.Apply` | aifw-api/src/backup.rs:2036-2241 | The five tables become the section's, whatever they held. |
| `DhcpSection.Store.Build` | aifw-api/src/backup.rs:885-1032 | The section built is an export of the five tables. |
| `DhcpOptions.ValidateOptionOverrides` | aifw-api/src/dhcp.rs:699-813 | Accepts exactly the lists of valid entries with distinct codes; otherwise reports the first entry at fault and which check it failed. |
| `DhcpOptions.CodesExactly` | aifw-api/src/dhcp.rs:690-697 | The seventeen codes that may not be overridden. |
| `DhcpOptions.TextAcceptedExactly` | aifw-api/src/dhcp.rs:743-762 | A text is accepted if and only if it has 1 to 255 characters from space to tilde. |
| `DhcpOptions.HexAcceptedExactly` | aifw-api/src/dhcp.rs:784-806 | A hex value is accepted if and only if, trimmed, it is an even number from 2 to 510 of hexadecimal digits of either case. |
| `DhcpOptions.NumberAcceptedExactly` | aifw-api/src/dhcp.rs:763-783 | A number is accepted exactly up to the maximum of its width. |
| `DhcpOptions.MirrorExactly` | aifw-api/src/backup.rs:1218-1257 | The mirror agrees with the validator on an entry unless, and only unless, it is text under an allowed code with blanks at its ends that is all spaces, or whose blanks are not plain spaces or make it too long while its core passes. |
| `DhcpOptions.MirrorExamples` | aifw-api/src/backup.rs:1218-1257 | Concrete entries that each side alone accepts, and a duplicate that a restore keeps. |
| `DhcpOptions.SplitIgnoresTrim` | aifw-api/src/backup.rs:1237-1246 | Trimming a list text before splitting it makes no difference. |
| `Toml.EscapeIsOnePass` | aifw-api/src/dhcp.rs:1050-1054 | Escaping backslashes, then quotes, equals escaping each character once. |
| `Toml.ReadsBackExactly` | aifw-api/src/dhcp.rs:1050-1054 | A TOML basic-string reader returns the original and stops at the closing quote if and only if the value has no control character but tabs; otherwise it rejects the text. |
| `Toml.ReadableExactly` | aifw-api/src/dhcp.rs:1050-1054 | The values that are read back are those without control characters other than tabs. |
| `Toml.ValidatedReadsBack` | aifw-api/src/dhcp.rs:743-762 | Every text value the validator accepts is read back. |
| `Toml.RestoredReadsBackExactly` | aifw-api/src/backup.rs:1247 | A text value that a restore keeps is read back if and only if it has no control character but tabs. |
| `Toml.RestoredNotReadBack` | aifw-api/src/backup.rs:1247 | A concrete value that a restore keeps and whose text is not TOML. |
| `Toml.IntegerReadsBackExactly` | aifw-api/src/dhcp.rs:1055-1057 | An accepted number is read back as itself if and only if it has no leading zero. |
| `Toml.LeadingZeroAccepted` | aifw-api/src/dhcp.rs:763-768 | A concrete accepted value whose emitted text is not a TOML integer. |
| `DnsSwitch.Resolver.StopBackend` | aifw-api/src/dns_resolver.rs:1694-1702 | Switches the flag off whether or not the service obeys the stop; an unknown name does nothing. |
| `DnsSwitch.Resolver.StartBackend` | aifw-api/src/dns_resolver.rs:1704-1731 | Switches the flag on before the restart and keeps it on if the restart fails, which may leave the service up or down. |
| `DnsSwitch.Resolver.SwitchBackend` | aifw-api/src/dns_resolver.rs:1735-1908 | On every return path: the whole new state of flags, services and keys with the recorded reason; early returns change no flag; past config generation and on disable at most the recorded backend is enabled if and only if no flag that is on went unread; a rollback leaves desired, recorded and enabled backend equal to the previous one. |
| `DnsSwitch.Resolver.RollBack` | aifw-api/src/dns_resolver.rs:1875-1897 | Stops the target, starts the previous backend, makes it the desired and the recorded one, and records why and whether it responds. |
| `DnsSwitch.ServicesFollowFlagsExactly` | aifw-api/src/dns_resolver.rs:1735-1908 | If every service that was up had its flag on, the same holds after a call if and only if no service that it stops for good disobeys. |
| `DnsSwitch.RunningAfter` | aifw-api/src/dns_resolver.rs:1735-1908 | A start that worked leaves its service up, a stop that worked leaves it down, on every path. |
| `DnsSwitch.AgreeExactly` | aifw-api/src/dns_resolver.rs:1735-1908 | From any drift, a call past config generation or a disable ends with at most the recorded backend enabled if and only if no flag that is on went unread. |
| `DnsSwitch.UnseenExample` | aifw-api/src/dns_resolver.rs:156-165 | A concrete failed read after which both backends are enabled. |
| `DnsSwitch.RunsAgree` | aifw-api/src/dns_resolver.rs:1735-1908 | With flags that can be read, every run of calls keeps agreement, and one call that is not cut short establishes it. |
| `DnsSwitch.RunsAgreeExactly` | aifw-api/src/dns_resolver.rs:1735-1908 | With unread flags, agreement at the end of a run is decided by its last call that was not cut short. |
| `DnsSwitch.OtherSpellingSurvives` | aifw-api/src/dns_resolver.rs:1735-1908 | On every path a flag with another spelling of yes survives a call if and only if the call does not write that flag unasked. |
| `DnsSwitch.WaitForDnsReady` | aifw-api/src/dns_resolver.rs:96-117 | The turns taken and the time spent are fixed by the probes' answers and costs; it ends within `deadline / 250 ms + 1` turns and one turn past the deadline, reports exactly whether a probe of each kind succeeded, and gives up on UDP only after the deadline. |
| `LoginLimiter.Axis.Bump` | aifw-api/src/main.rs:115-131 | For any clock reading: pruning and counting refine the event log, in which a window that a later prune has dropped ends first, and the answer is what `over_cap` would say at that instant. |
| `LoginLimiter.Axis.OverCap` | aifw-api/src/main.rs:133-151 | For any clock reading: a key is blocked if and only if its current window in the log holds the maximum and has not lapsed, and no later prune has dropped it. |
| `LoginLimiter.Axis.NothingForgotten` | aifw-api/src/main.rs:121-123 | A task served in the order of its clock reading finds no such window. |
| `LoginLimiter.LateAnswerExactly` | aifw-api/src/main.rs:121-130 | For a window dropped by a later prune the answer is still that of the log if and only if the maximum is one or the window would not have reached it. |
| `LoginLimiter.LateExample` | aifw-api/src/main.rs:121-123 | A concrete window that is dropped at one instant and current at an earlier one. |
| `LoginLimiter.LoginRateLimiter.RecordFailure` | aifw-api/src/main.rs:95-101 | A failure is counted on both axes, each with its own clock reading; blocked when either is. |
| `LoginLimiter.LoginRateLimiter.IsBlocked` | aifw-api/src/main.rs:103-107 | Blocked if and only if either axis is blocked. |
| `LoginLimiter.LoginRateLimiter.Clear` | aifw-api/src/main.rs:109-112 | Ends the windows of the two keys and of no other. |
| `LoginLimiter.WindowMeaning` | aifw-api/src/main.rs:115-131 | The current window starts at a failure of its key, no clear follows, and its count is the number of failures since, all of them within it. |
| `LoginLimiter.BlockNotExtended` | aifw-api/src/main.rs:115-131 | Failing again while blocked never changes when the block ends. |
| `LoginLimiter.PruneRefines` | aifw-api/src/main.rs:115-131 | A pruned map stands for the same log, also when the prune comes late. |
| `LoginLimiter.CountRefines` | aifw-api/src/main.rs:115-131 | Counting on a pruned map is the log's window after one more failure. |
| `LoginLimiter.LapsedStays` | aifw-api/src/main.rs:133-151 | With a clock that does not go back, what has lapsed stays lapsed. |
| `LoginLimiter.WindowLength` | aifw-api/src/main.rs:133-151 | Whole-second truncation makes a window of `n` seconds last until `n + 1` have passed. |
| `LoginLimiter.SecondsCut` | aifw-api/src/main.rs:123 | Seconds are cut off towards zero on both sides. |
| `PfAnchor.Patch` | aifw-api/src/main.rs:1233-1289 | The line loop produces the patched file and reports a change if and only if there is one. |
| `PfAnchor.CountPatched` | aifw-api/src/main.rs:1233-1289 | How often every line occurs afterwards: nothing present is duplicated, each missing multi-WAN anchor comes once. |
| `PfAnchor.PatchConservative` | aifw-api/src/main.rs:1233-1289 | Deleting the inserted lines gives back the input lines in order, and only absent anchors were inserted. |
| `PfAnchor.MissingBeforeFilter` | aifw-api/src/main.rs:1250-1280 | The missing anchors stand in fixed order immediately before the first filter anchor. |
| `PfAnchor.SecondPassUnchanged` | aifw-api/src/main.rs:1233-1289 | A file that equals a patched one up to blanks around its lines needs no patch. |
| `PfAnchor.PatchIdempotent` | aifw-api/src/main.rs:1233-1289 | Patching, writing and patching again finds nothing to do, for every file. |
| `PfAnchor.PatchExample` | aifw-api/src/main.rs:1233-1289 | A concrete file gains the four new anchors in these places and words. |
| `AuditHook.PollAdvances` | aifw-api/src/plugins.rs:242-283 | A poll moves the cursor over exactly the rows it fetched. |
| `AuditHook.CatchesUp` | aifw-api/src/plugins.rs:242-283 | Successful polls pass 200 rows each until none is left, for any burst. |
| `AuditHook.AppendKeepsCut` | aifw-api/src/plugins.rs:242-283 | Rows appended later change nothing that the cursor has passed. |
| `AuditHook.Dispatcher.DispatchNew` | aifw-api/src/plugins.rs:240-284 | The cursor and the rows passed advance by exactly the batch, failed queries change nothing, and the pf tables are what the plugins made of the rows they were told of. |
| `AuditHook.ReactionExactly` | aifw-api/src/plugins.rs:267-281 | After any rows told, an address is in a pf table if and only if the last working action on that pair was to add it, or there was none and it was there before. |
| `AuditHook.Dispatcher.Turn` | aifw-api/src/plugins.rs:294-318 | Each turn of the loop (idle, snap or poll) is the step of the step system, and the rows passed since the activation are exactly those in (snap, cursor]. |
| `AuditHook.Dispatcher.Append` | aifw-api/src/plugins.rs:286-293 | A new audit row is its step of the step system. |
| `AuditHook.DeliveredExactly` | aifw-api/src/plugins.rs:286-318 | While a plugin was always running, the rows told are those in (snap, cursor], each once and ascending. |
| `AuditHook.NoReplayExactly` | aifw-api/src/plugins.rs:286-316 | No row from before an activation is dispatched after it if and only if its tail query worked or the log was empty. |
| `AuditHook.StepKeepsInv` | aifw-api/src/plugins.rs:286-318 | Every change of the plugin count, every row and every tick keeps: a row written while no plugin ran lies after the snap exactly when the activation lapsed or a gap went unseen. |
| `AuditHook.IdleSkippedExactly` | aifw-api/src/plugins.rs:290-292 | After any run, once the loop has caught up, no row written while no plugin was running has been handed over since the activation if and only if that activation's tail query worked or found no such row, and none was written in a time without plugins that no tick fell into. |
| `AuditHook.CleanRunSkipsIdle` | aifw-api/src/plugins.rs:290-292 | Over a whole run without such polls no row written while no plugin was running is ever handed over. |
| `AuditHook.GapExample` | aifw-api/src/plugins.rs:298-316 | A concrete row written between a disable and an enable within one interval is handed over, with every query working. |
| `AuditHook.ReplayExample` | aifw-api/src/plugins.rs:230-235 | A concrete row replayed after a failed tail query. |
| `Subnet.MaskTestIsDivision` | aifw-api/src/backup.rs:1268-1274 | The mask test agrees with division by 2^(32 - prefix) for every prefix from 0 to 32 (section 3.1 of RFC 4632). |
| `Subnet.EndpointsSuffice` | aifw-api/src/backup.rs:1096-1118 | Both endpoints pass if and only if every address between them is in the block. |
| `Subnet.CheckPool` | aifw-api/src/backup.rs:1068-1121 | A checked scope raises no pool error if and only if its pool is a well-formed range inside the block. |
| `Subnet.CidrReadsBack` | aifw-api/src/backup.rs:1258-1266 | An address and a printed prefix length are read back, and a length above 32 is refused. |

## Left out

- Library code is an arbitrary function, with only the laws named in a `requires`: lossy UTF-8 decoding, lower-casing, JSON, float printing, address parsing, UUIDs, serialisation and hashing of snapshots.
- Reading and writing of log files and pf.conf, file seeks, and the `pfctl` reload: the models work on contents.
- Commit-confirm: decoding the stored snapshot text is assumed to succeed, and the rollback itself is the restore of `Restore.dfy`; durations are not modelled, any timer may expire at any time.
- Restore: the filter rules of IPsec tunnels, whose collection tolerates a failed read; the best-effort steps (resolv.conf, kernel routes, pf tuning, swanctl, rDHCP restart) and audit writes; fields the configuration view does not carry; primary-key clashes appear as failing inserts.
- Restore: outside the key/value tables the text of a row beyond its id, interface and owning tunnel is one opaque field, shown and parsed by arbitrary functions in place of the section builders and `*_from_config`; "prior state" and "untouched" mean rows as far as a configuration carries them, and the three auth keys.
- Restore: the subnets and reservations of the DHCP section are such rows here; what a restore filters and truncates in them is in `DhcpSection.dfy`.
- Coalescer: `apply_policies` runs the rebuild outside the single consumer; `duplicate_policy` saves a disabled policy without marking; neither is part of the quiescence theorem.
- Coalescer: the rebuilds also read instances, gateways, groups and members, and the handlers of those (create, update and delete of each, and of memberships) never mark; "every save" means every save of a policy or a leak.
- Coalescer: the one-second batching window has no duration; a save is one atomic step.
- Snapshot cache: atomics are sequentially consistent; the 60-second age limit is a rebuild that may happen at any time.
- Auto-snapshot: what is done with the built configuration (hash, save, pruning) and the order in which two workers save.
- Login limiter: the 32-bit width of the failure count; each method is what a task does once it has the lock, with the instant it read before.
- DNS switch: flag and key writes are assumed to take effect (flag reads and service stops may fail); what config generation writes; timestamps and the wording of messages; the readiness probe of a target is one pair of answers in `SwitchBackend`, refined by `WaitForDnsReady`.
- DHCP section: subnets are compared as multisets, so the order on `created_at` and on addresses is not modelled; faults in it are covered by `Restore.dfy`.
- DHCP section: unknown keys of the key/value tables are ignored by an export and gone after a restore.
- TOML: only the basic-string and decimal-integer readers; the other lines of the generated file have no reader here.
- Import preview: interface suggestions, and the 32-bit width of the counts.
- Audit hook: rows are append-only with ascending ids; a tick is one step of the step system, so a plugin that stops in the middle of a batch appears only in `Dispatcher.DispatchNew`; the five-second interval has no duration.
- CRUD handlers, SQL text, JSON responses, S3, ACME, IDS, metrics, cluster shell-outs and zone generation have no deep invariant.
