# A verified model of encedo-wg-hsm

encedo-wg-hsm keeps a whole WireGuard configuration inside a hardware module (HEM): one
identity key whose description field holds a WG:if: record, one imported key per peer whose
field holds a WG:pr: record, and one MAC over the lot. This project models, in Dafny 4.11,
the four parts of that system in which a small mistake would be expensive, and proves what
each of them promises.

* **The authenticated configuration tree.** `Tlv`, `Families`, `InterfaceRecord` and
  `PeerRecord` are the record format on values; `Codec` is the same format as it executes (an
  appending writer, a scanning parser, decoders that fill a value item by item, zeroing in
  place), each method proved equal to the value-level function. `Layout` spells both records out byte
  by byte and proves the encoder equal to that, with the repository's own golden vectors. `Kid` and
  `Mac` are identifiers, references and the canonical message. `Repository` says what it means for an
  identity to load; `Device` is the module as a mutable key repository behind calls that may
  fail; `Loader`, `Provision` and `Commands` are `config`, `provision` and the `peer`
  subcommands, and `Maintenance` any sequence of those. `Example` exhibits smallest devices at either
  record length: one that is provisioned and loads, and one on which a run succeeds and stops every
  identity. `Sharing` is a device with three identities that share two peers, on which commands of
  one owner stop or unseal the others.
* **The daemon's session protocol.** `Daemon` is one transition per critical section, any
  number of connections, any interleaving, and a server that executes exactly those transitions.
* **Failover, routing and teardown.** `Routing` is the routing table with longest-prefix match
  (section 5.2.4.3 of RFC 1812), the plan and the pins; `TunnelRun` is the tunnel that walks
  the peers, owns the pre-shared-key buffers and configures the WireGuard device.
* **Message framing.** `Framing`.

Check it with `dafny verify dfyconfig.toml`.

## How the outside world appears

* SHA-1, HMAC, the key wrap and its inverse are fields of a `Crypto` value: arbitrary deterministic
  functions. Every statement holds for all of them, and the one that needs the device to unwrap what
  it wrapped says so (`TunnelRun.RequestedIsServed`). Where the source relies on a MAC being
  unforgeable, the statement names the alternative: what loads was signed, *or* is itself a
  pair that verifies although nothing produced it.
* The record length is the parameter `RecordSize`, 64 or 128.
* Device calls, tokens, name resolution, handshakes and route changes have nondeterministic
  outcomes; a statement about a method covers every combination of them. A device call that
  fails has changed nothing. On a `steady` device, host or stream no call fails for reasons of its
  own, and there the statements about success are exact as well.
* The device may return a description with trailing zeros missing, lists entries in any order
  and cuts a search into any pages.

## What turned out not to hold as promised

* A provisioned identity does not always load. It does exactly when the identity's key hashes
  to its identifier, the identity's own key is not among the peers, and no two WG:pr: records
  (those already there and those asked for) share a four-byte reference
  (`Provision.ProvisionedLoads`, `Provision.ProvisionedLoadsOnlyIf`). All three can be checked
  beforehand. `Example.ExampleCollides` is a device on which the run succeeds and nothing loads.
* Validation keeps an over-budget peer from leaving anything half written
  (`Provision.ValidatedPeersFit`), but it does not look at the identity's own record. A request that
  passes can fail for that record's size after its peers were imported, exactly when the byte sum in
  `Provision.RequestFitsExactly` is over the record size; at 64 bytes every request for three peers or
  more does, although up to 20 are accepted (`Provision.ThreePeersNeverFit`, `Provision.Run`).
* Provisioning does not always leave other identities alone: one import that collides with a
  reference in use stops every identity (`Provision.CollidingImport`, `Example.ExampleCollides`).
  The exact condition, told from the repository before the run, is `Provision.OthersAfterSuccess`
  for a run that wrote its record and `Provision.OthersAfterFailure` for one that did not.
* `peer add` can do the same, exactly when another record has the new key's reference
  (`Commands.PeerAdd`; `Sharing.AddStopsEveryone` is such an add). `peer remove --delete-key` and
  `peer update` unseal exactly the other identities that refer to a key that goes or to a record
  that changes (`Commands.OthersAfterCommand`; `Sharing.DeleteUnsealsAnother`,
  `Sharing.UpdateUnsealsAnother`). An update that stops between rewriting the peer's record and
  resealing leaves its identity unloadable, unless it wrote what was there
  (`Commands.AfterHalfway`; `Sharing.HalfwayUnloads`).
* Over a sequence of completed commands the stored tree is always the functional edit, and it
  loads exactly when no key was added while another record had its reference, which can be told
  from the first repository and the commands (`Maintenance.Maintain`).
* The comment at internal/mac/mac.go:138-140 allows signing a record without its MAC tag. Such
  a signature never verifies once the tag is stored: `Mac.TaglessNeverCoincides`. The code
  always signs with the tag present.
* A refresh may reach another user's tunnel, because the lock is dropped between the ownership
  check and the read: `Daemon.RefreshRace` is the interleaving, `Daemon.RefreshReaches` the
  exact condition at the second look, `Daemon.RefreshAcross` what must have happened between the
  two, `Daemon.UninterruptedRefresh` the safe case.
* A connection takes down more than what it started: closing it cancels a live session exactly
  when the connection counts itself started and has the session's principal, whoever started the
  session (`Daemon.HangupSpares`; `Daemon.StopSpares` for a stop). The promise holds of the closes
  possible in a state exactly when no other connection of that principal that waits in a read
  counts itself started (`Daemon.OnlyItsOwn`); `Daemon.HangupReachesAnotherConnection` is an interleaving in which it
  does not.
* Routes accumulate over failovers while the plan looks only at the new peer, so a move that
  warns about orphaned ranges can capture the new endpoint: `TunnelRun.WarnedRunCaptures` is such
  a run. Exactly which completed moves leave an endpoint address its path is
  `TunnelRun.MovedOutside`, and, told from the host's table and the ranges routed so far,
  `TunnelRun.MovedEscapes`; a move that warns about nothing always does, as long as no range is a
  single host (`TunnelRun.UnwarnedOutside`).
* Teardown leaves the table as it was found if and only if no recorded pin was in it before:
  `TunnelRun.RestoredExactly`, and `TunnelRun.PreexistingRouteLost` for a route it takes away.
* A message is two writes, so two writers on one connection can corrupt each other's messages.
  For any messages and any interleaving of the writes the reader gets what was sent if and only if
  every header is followed at once by its own body: `Framing.InterleavedWriters`.

## Model

| member | source | states |
|---|---|---|
| `Tlv.ParseOfSeal` | internal/descr/descr.go:375-422 | any ascending item stream that fits is read back from its sealed record, padded or completely full |
| `Tlv.SealOfParse` | internal/descr/descr.go:375-422 | whatever the parser accepts is ascending and is the only record with that item stream: sealing it again gives the normalized bytes |
| `Tlv.Normalize` | internal/descr/descr.go:654-664 | succeeds exactly between header length and record size, and only adds zeros |
| `Families.PrefixFrom` | internal/descr/descr.go:460-471 | accepts only valid prefixes of the given family, and the value bytes are exactly the address and the length |
| `InterfaceRecord.EncodeOfDecode` | internal/descr/descr.go:476-565 | distinguished encoding: re-encoding any accepted interface record succeeds and equals Normalize of the input |
| `InterfaceRecord.DecodeOfEncode` | internal/descr/descr.go:278-320 | round trip: decoding an encoded value gives it back with families regrouped v4 first, zones dropped, reference order untouched |
| `InterfaceRecord.EncodeSucceeds` | internal/descr/descr.go:278-320 | encoding succeeds exactly when all addresses are valid and the closed-form byte budget is at most the record size |
| `InterfaceRecord.DecodedIsCanon` | internal/descr/descr.go:476-565 | a decoded value is already in the form a record can carry, so regrouping it changes nothing |
| `InterfaceRecord.ZeroMacOfEncode` | internal/descr/descr.go:669-687 | zeroing commutes with encoding: for every value and MAC, ZeroMAC of the encoding is the encoding with a zero MAC |
| `InterfaceRecord.ZeroMacOfDecoded` | internal/descr/descr.go:669-687 | on any accepted full-length record ZeroMAC is decode, blank the MAC, encode |
| `InterfaceRecord.ZeroMacInjective` | internal/descr/descr.go:669-687 | two accepted records blank alike if and only if they differ at most in the MAC value |
| `PeerRecord.EncodeOfDecode` | internal/descr/descr.go:568-648 | distinguished encoding for peer records |
| `PeerRecord.DecodeOfEncode` | internal/descr/descr.go:328-362 | round trip for peer records, up to regrouping, zones, and an address hidden by a host name |
| `PeerRecord.EncodeSucceeds` | internal/descr/descr.go:328-362 | encoding succeeds exactly when the endpoint is set, the host name within its cap, prefixes valid, the wrapped key 0 or 40 bytes, and the budget kept |
| `Layout.InterfaceLayout` | internal/descr/descr.go:278-320 | an interface record is, byte for byte, the header and the fields in tag order with their tags, lengths and big-endian numbers written out, then zeros; it is refused exactly when an address is invalid or that is too long |
| `Layout.PeerLayout` | internal/descr/descr.go:328-362 | the same for a peer record, with one of three endpoint forms |
| `Layout.InterfaceVector` | internal/descr/descr_test.go:47-101 | the repository's golden vector for an interface record |
| `Layout.PeerVector` | internal/descr/descr_test.go:103-152 | the repository's golden vector for a peer record |
| `Codec.Writer.Put` | internal/descr/descr.go:207-217 | appends one item to the stream, or latches the failure for a value over 255 bytes |
| `Codec.Writer.Finish` | internal/descr/descr.go:222-236 | the sealed record of the items put so far, or a refusal when it does not fit |
| `Codec.EncodePrefixes` | internal/descr/descr.go:256-273 | fails exactly on an invalid prefix; otherwise appends all IPv4 items, then all IPv6 items |
| `Codec.EncodeInterface` | internal/descr/descr.go:278-320 | the executing encoder agrees with the value-level one on every input |
| `Codec.EncodePeer` | internal/descr/descr.go:328-362 | the executing encoder agrees with the value-level one on every input |
| `Codec.ParseRecord` | internal/descr/descr.go:375-422 | the scanning loop finds the recursive definition's item stream, or refuses when it does |
| `Codec.DecodeInterface` | internal/descr/descr.go:476-565 | the loop with its seen-set and MAC-last check agrees with the item-by-item definition |
| `Codec.DecodePeer` | internal/descr/descr.go:568-648 | the loop that counts endpoints agrees with the definition that refuses a second one at once |
| `Codec.ZeroMac` | internal/descr/descr.go:669-687 | overwriting the array bytes at the recovered offset gives the sealed record of the blanked items |
| `Kid.RefOfKeyId` | internal/descr/descr.go:119-145 | the reference read off a device-reported identifier is the one derived from the key behind it |
| `Kid.RefOfKidExactly` | internal/descr/descr.go:134-145 | a reference is read off exactly the identifiers that, but for white space around them, spell 16 bytes in hexadecimal digits of either case, and is the first four of those |
| `Kid.KeyIdSpells` | internal/descr/descr.go:119-130 | an identifier spells the first 16 bytes of the hash in 32 lower-case digits, and a reference is the first four bytes |
| `Mac.MatchRefs` | internal/mac/mac.go:114-136 | accepts exactly when the derived references are distinct and the named ones are a permutation of them |
| `Mac.BuildCanonical` | internal/mac/mac.go:77-109 | builds exactly the canonical message, or refuses exactly when there is none; what it builds reads as `Mac.CanonicalLayout` says |
| `Mac.LessAtFirstDifference` | internal/mac/mac.go:96-98 | of two keys the one with the smaller byte at their first difference comes first, whatever follows |
| `Mac.CanonicalLayout` | internal/mac/mac.go:77-109 | the message, without a sort: the domain label, the interface key, the record encoded again with its MAC zero, and for some permutation of the peers, ascending by the first byte in which two keys differ, the i-th key and then its record at that peer's place |
| `Mac.CanonicalAccepts` | internal/mac/mac.go:77-109 | a message exists if and only if the record decodes, references are distinct and a permutation, and the count is at most MaxPeers |
| `Mac.CanonicalFits` | internal/mac/mac.go:40-51 | message length in closed form, within the 2048-byte limit, and one peer more than MaxPeers would exceed it |
| `Mac.CanonicalOrderFree` | internal/mac/mac.go:95-109 | the order in which peers are supplied leaves no trace: permuted peers give the same message |
| `Mac.CanonicalInjective` | internal/mac/mac.go:77-109 | equal messages mean the same interface key, the same record up to the MAC value, and the same multiset of peers |
| `Mac.CanonicalFixesFailover` | internal/mac/mac.go:66-76 | with peers in reference order, equal messages mean equal lists: the failover order is authenticated |
| `Mac.TaglessNeverCoincides` | internal/mac/mac.go:138-162 | a message over a record without the MAC tag never equals one over a record with it |
| `Mac.SignedIsVerified` | internal/provision/provision.go:274-306 | the message over the unsigned record is byte for byte the message over the record with any MAC stored in it |
| `Repository.LoadsUnique` | internal/config/config.go:95-182 | a repository determines the tree an identity loads to, however it is listed, paged or trimmed |
| `Repository.LoadedOrder` | internal/config/config.go:144-165 | the i-th peer of a loaded tree hashes to the i-th reference |
| `Repository.LoadedDistinct` | internal/config/config.go:144-165 | no peer appears twice in a loaded tree |
| `Repository.LoadsStable` | internal/config/config.go:127-165 | when a tree's own entries stay as they are, it still loads unchanged if and only if no peer references collide |
| `Repository.CollisionStopsEveryone` | internal/config/config.go:131-142 | two peer records with one reference, whoever they belong to, and no identity loads |
| `Repository.RingInsensitive` | internal/config/keys.go:50-84 | supplied keys cannot change the tree, short of two keys with one identifier |
| `Repository.SealedLoads` | internal/provision/provision.go:274-306 | a sealed interface record with its peers in place loads to exactly that tree if and only if no references collide |
| `Repository.LoadedWasSigned` | internal/config/config.go:167-181 | every tree that loads was authenticated by some call in any log of Sign calls (same keys, records, failover order), or is itself a forgery |
| `Repository.OneMacOneTree` | internal/mac/mac.go:10-13 | one key and one MAC value determine the loaded interface record, peer records and failover order, short of two messages with one MAC |
| `Repository.ChangedPeerUnseals` | internal/mac/mac.go:10-13 | whatever is done to a referenced peer's key or record (changed, emptied, deleted, replaced), the identity no longer loads, short of two messages with one MAC |
| `Repository.RelabelledLoads` | internal/config/config.go:144-181 | labels are not authenticated: with the records still there the identity loads, under whatever labels they carry now |
| `Repository.SealHolds` | internal/mac/mac.go:10-13 | with its own entry unchanged an identity loads if and only if every referenced record is still there and no references collide, short of two messages with one MAC |
| `Loader.Search` | internal/config/config.go:218-242 | terminates and returns every matching entry exactly once, for any page boundaries and a token refusal at any point |
| `Loader.TrimNormalizes` | internal/descr/descr.go:650-664 | widening a trimmed record gives the widened stored one, unless neither can be decoded |
| `Loader.ResolveKey` | internal/config/keys.go:68-84 | yields the key an identifier names, from the device or from supplied keys, refused unless it hashes to that identifier |
| `Loader.Sign` | internal/mac/mac.go:145-162 | returns the device's MAC over the canonical message, and fails where there is no message or no private key |
| `Loader.Verify` | internal/mac/mac.go:170-199 | accepts exactly a tree whose record carries the MAC the device computes for it |
| `Loader.IndexByRef` | internal/config/config.go:131-142 | indexes every peer record by its reference, and refuses exactly when two share one |
| `Loader.LoadPeerList` | internal/config/config.go:144-165 | loads the peers behind the references in order, refusing exactly when no such list exists |
| `Loader.LoadFrom` | internal/config/config.go:95-182 | returns the authenticated tree, and refuses only when there is none; never a partial result; on a steady device one or the other |
| `Loader.LoadNamed` | internal/config/identity.go:97-108 | the same for the identity with a given identifier; and what it returns was authenticated by a Sign call this device answered, or is itself a forgery |
| `Provision.Validate` | internal/provision/provision.go:84-124 | accepts exactly the parameters that name addresses and distinct peers, few enough, in range, each of which encodes |
| `Provision.AcceptableExactly` | internal/provision/provision.go:84-124 | what that comes to in numbers: at least one address and one peer, at most 20 or 11 peers, distinct keys, 16-bit MTU and port, and for each peer an endpoint, valid ranges, a host name of at most 53 or 60 bytes and the byte sum of its record |
| `Provision.ValidatedPeersFit` | internal/provision/provision.go:111-122 | a request that passed leaves no peer record to fail for its size once the device is being written |
| `Provision.RequestFitsExactly` | internal/provision/provision.go:223-229 | whether the identity's record for an acceptable request fits, which validation does not ask: exactly when its addresses are valid and 41 bytes, each field's and 6 for every peer are at most the record size |
| `Provision.ThreePeersNeverFit` | internal/provision/provision.go:84-124 | at 64 bytes no acceptable request for three peers or more can be provisioned |
| `Provision.ReadPeerRecord` | internal/provision/adopt.go:118-147 | finds a key's stored peer record through any paging, and reports none only when there is none |
| `Provision.PlacePeer` | internal/provision/adopt.go:26-114 | imports a new key, or adopts a record that matches or may be taken as it is, and otherwise changes nothing; refuses only a key that is there with a record that may not be taken |
| `Provision.WrapPsk` | internal/provision/psk.go:17-33 | the wrap for this identity and this peer, nothing when there is no key |
| `Provision.EnteredMeans` | internal/provision/peerspec.go:134-149 | a peer that entered the tree under a new key has the endpoint, ranges and keepalive asked for, up to regrouping, its own label, and the key wrapped for it or none; one whose key was there has the stored record, which says the same or was taken over and carries no key |
| `Provision.PlaceOne` | internal/provision/provision.go:231-267 | the peer that enters the tree is in the device; under a new key its record has the endpoint, ranges, keepalive and wrapped key asked for; otherwise it is the stored record, which says the same or was adopted and carries no key; on a steady device it enters if and only if its key wraps, its record fits and its key is new or adoptable |
| `Provision.WritePeers` | internal/provision/provision.go:230-272 | every peer placed in the given order; on any exit existing entries are untouched and only peers' keys are new |
| `Provision.SealInterface` | internal/provision/provision.go:274-309 | the record is written sealed with the key's own MAC, or nothing is written; the read-back never disagrees; on a steady device it is written if and only if the private key is there, the record fits and the references are distinct and few enough |
| `Provision.Rollback` | internal/provision/provision.go:170-187 | deletes only a key this run created and that carries no record, and on a steady device every such key |
| `Provision.Run` | internal/provision/provision.go:157-326 | on every exit no existing entry but the identity's changes and none disappears; on success the tree is complete, has the addresses, servers, MTU, port, label and peers asked for, and loads under the stated conditions; on failure either the tree is complete or the device is as it was plus the peers placed so far, and the reported import count accounts for every new entry; on a steady device a failed run takes the identity it created out again, leaves all its peers imported when nothing stood in the way of any, and it succeeds if and only if the parameters are acceptable and `Runnable` in the repository it starts on |
| `Provision.ProvisionedLoads` | internal/provision/provision.go:157-326 | the tree sealed over the request loads when the identity's key hashes to its identifier, is not among the peers, and no references collide |
| `Provision.LoadedAsRequested` | internal/provision/provision.go:223-267 | whatever loads after a completed run has the MTU, port, addresses and name servers of the request, and as its i-th peer the i-th one asked for, with its endpoint, ranges, keepalive, label and a key wrapped for it, unless its key was there before |
| `Provision.ProvisionedLoadsOnlyIf` | internal/provision/provision.go:157-326 | it loads on no other condition, short of two messages with one MAC |
| `Provision.OthersKeepLoading` | internal/provision/adopt.go:14-25 | after any exit, another identity loads to the same tree if and only if no references collide and it did not use this identity's key as a peer |
| `Provision.OthersAfterSuccess` | internal/provision/adopt.go:14-25 | the same after a run that wrote its record, told from the repository before it |
| `Provision.OthersAfterFailure` | internal/provision/provision.go:170-187 | after a run that stopped with some peers placed, every identity loads as before if and only if those and the ones already there share no reference |
| `Provision.ClearBeforehand` | internal/config/config.go:131-142 | what is clear for the whole run is clear wherever it stops |
| `Provision.CollidingImport` | internal/config/config.go:137-140 | importing a key that shares a reference with a peer in use stops every identity |
| `Example.IsComplete` | internal/provision/provision.go:157-326 | on any device with an identity key and without the peer's, at either record length, this is what a successful run leaves |
| `Example.IsRunnable` | internal/provision/provision.go:157-326 | and a run there does succeed when no call fails |
| `Example.ExampleLoads` | internal/provision/provision.go:157-326 | on a device with nothing else its identity then loads, with the MTU, port, address, peer and range of the request |
| `Example.ExampleCollides` | internal/config/config.go:131-142 | a device with a loading identity on which a run for another one succeeds and after which no identity loads |
| `Commands.Reseal` | cmd/wg-hem/peer.go:316-359 | the stored tree becomes the edited list over an otherwise unchanged interface record, and loads if and only if no references collide; a failed reseal has written that or nothing |
| `Commands.PeerAdd` | cmd/wg-hem/peer.go:56-160 | a completed add puts exactly the requested or adopted peer first if asked to and else last, the other peers as they were, touches nothing else, and the tree loads if and only if no other peer record has the key's reference; a failed one has changed nothing, stopped before the reseal, or written everything; on a steady device it completes if and only if `Completable` in the tree that loads |
| `Commands.PeerRemove` | cmd/wg-hem/peer.go:162-220 | a completed remove deletes exactly that peer, never the last one, with or without its key, touches nothing else, and the tree loads; a failed one has changed nothing or left only the key behind; on a steady device it completes if and only if the peer is there and is not the only one |
| `Commands.PeerUpdate` | cmd/wg-hem/peer.go:222-308 | a completed update leaves the peer in its place with the endpoint, ranges, keepalive and label given now, its wrapped key kept, gone or wrapped anew for this peer as asked, and every other peer as it was, touches nothing else, and the tree loads; a failed one has changed nothing, rewritten the peer's record under the old seal, or written everything; on a steady device it completes if and only if the peer is there, the key wraps and the record fits |
| `Commands.EditDelivers` | cmd/wg-hem/peer.go:142-300 | the edit any command makes of any loaded list comes to what the command says, told in positions and fields and without the edit |
| `Commands.CompletedTouches` | cmd/wg-hem/peer.go:56-359 | a completed command leaves the identity's key with another record, the added key there, the removed one there or gone as asked, the updated one under its new label, and every other entry as it was |
| `Commands.CanComplete` | cmd/wg-hem/peer.go:56-359 | every command that can complete has a completion: a repository that meets everything a completed command promises |
| `Commands.AfterHalfway` | cmd/wg-hem/peer.go:222-308 | a command stopped before its reseal leaves its identity loading if and only if an added key is uncontested and an updated record has the bytes it had, short of two messages with one MAC |
| `Commands.OthersAfterCommand` | cmd/wg-hem/peer.go:56-308 | after a completed command another identity loads if and only if an added key is uncontested and no peer it refers to was deleted or given other bytes, short of two messages with one MAC |
| `Maintenance.Maintain` | cmd/wg-hem/peer.go:56-359 | over any sequence of commands, run until one fails: after each completed one the stored tree is the functional edit of the first, never empty, interface otherwise unchanged, and nothing else loads; it loads if and only if the last command's key was uncontested, and if and only if every key was, as told from the start; where it stops, the failed command has left one of the states it can leave, and on a steady device it could not have completed |
| `Maintenance.HistoryDelivers` | cmd/wg-hem/peer.go:56-308 | in any such sequence every completed command delivered what it promises, to the list the earlier ones had left |
| `Maintenance.AnyOrderIsClear` | cmd/wg-hem/peer.go:56-160 | if no two keys that are there or are ever added share a reference, every order of the commands is clear throughout |
| `Sharing.AddStopsEveryone` | cmd/wg-hem/peer.go:56-160 | a device with three loading identities on which an add completes and after which none loads |
| `Sharing.UpdateUnsealsAnother` | cmd/wg-hem/peer.go:222-308 | an update that completes and after which another identity that refers to the peer does not load, under a MAC without coincidences |
| `Sharing.DeleteUnsealsAnother` | cmd/wg-hem/peer.go:162-220 | the same for a remove that deletes the key |
| `Sharing.HalfwayUnloads` | cmd/wg-hem/peer.go:222-308 | an update stopped before its reseal, after which its own identity does not load |
| `Sharing.ReplacedByTwin` | cmd/wg-hem/peer.go:162-220 | two commands that are clear throughout although their keys share a reference, since the two are never there together |
| `Daemon.Perform` | internal/daemon/daemon.go:87-241 | a server that runs one step, doing to its slot only what a critical section does (both looks of refresh included), ends exactly in the state the transition system names |
| `Daemon.Replay` | internal/daemon/daemon.go:87-241 | any sequence of steps run on a new server comes to what the transition system says, with the invariant and with the server's own fields as the slot |
| `Daemon.Reachable` | internal/daemon/daemon.go:87-241 | the invariant holds in every state reachable by any interleaving of steps |
| `Daemon.NeverStuck` | internal/daemon/daemon.go:87-155 | in every reachable state an open connection can go on: from a read with every request and with the end, inside start at the one point its session has come to, elsewhere to the end of its call; a closed one never acts again |
| `Daemon.TunnelNeverStuck` | internal/daemon/daemon.go:193-203 | a tunnel that came up can come back, then gives the slot up, then is cancelled; one that has not come up is inside its connection's start |
| `Daemon.FailedIsCancelled` | internal/daemon/daemon.go:182-187 | in every reachable state a session whose start failed has been cancelled |
| `Daemon.SlotNeverLost` | internal/daemon/daemon.go:157-215 | from every reachable state a connection that waits in a read can still come to hold the slot with a live tunnel of its own |
| `Daemon.StartedMeans` | internal/daemon/daemon.go:98-139 | a connection counts itself started exactly from a start of its own that went through until its own next stop |
| `Daemon.OwnerCanStop` | internal/daemon/daemon.go:134-137 | any connection of the owner that waits in a read can stop, and then the session is not live |
| `Daemon.NoWindowNoTunnel` | internal/daemon/daemon.go:87-155 | a session neither cancelled nor finished belongs to an open connection of its principal that has started it or is still inside start |
| `Daemon.HangupCancels` | internal/daemon/daemon.go:99-105 | after a connection closes, no session it started is live |
| `Daemon.HangupSpares` | internal/daemon/daemon.go:99-105 | closing a connection leaves a live session alone if and only if the connection does not count itself started or has another principal |
| `Daemon.StopSpares` | internal/daemon/daemon.go:134-137 | a stop leaves a live session alone if and only if it comes from another principal |
| `Daemon.OnlyItsOwn` | internal/daemon/daemon.go:99-105 | every other connection's close possible in a state spares a live session if and only if no other connection of its principal that waits in a read counts itself started |
| `Daemon.SlotIsMutex` | internal/daemon/daemon.go:157-215 | the slot is taken exactly while one session holds it; owner, cancel and tunnel are that session's |
| `Daemon.ReleasedOnce` | internal/daemon/daemon.go:193-203 | each acquisition is released by exactly one clear, its own session's, before the next acquisition |
| `Daemon.UninterruptedRefresh` | internal/daemon/daemon.go:217-235 | a refresh that nothing interrupts reaches a tunnel of the caller's principal, or none |
| `Daemon.RefreshReaches` | internal/daemon/daemon.go:228-234 | a refresh reaches the caller's own tunnel if and only if the slot is still the caller's at the second look |
| `Daemon.RefreshAcross` | internal/daemon/daemon.go:217-235 | with no session started between the two looks the caller's own session gets the token; a stranger's gets it only if in between the slot was cleared and then started by the stranger's connection |
| `Daemon.RefreshRace` | internal/daemon/daemon.go:217-235 | an interleaving in which one user's token reaches another user's live tunnel |
| `Daemon.HangupReachesAnotherConnection` | internal/daemon/daemon.go:101-105 | an interleaving in which closing one connection cancels the tunnel another one started |
| `Routing.HostRouteWins` | internal/runtime/routing.go:22-34 | a host route outside the tunnel beats every other route, whatever order they were installed in |
| `Routing.HostRouteDecides` | internal/runtime/routing.go:22-34 | where there is a host route for an address, the address is outside if and only if that route is |
| `Routing.OutsideIff` | internal/runtime/routing.go:22-34 | with the tunnel's routes at the lowest metric, an address is outside if and only if every tunnel route to it loses to a longer route elsewhere |
| `Routing.UncoveredIsOutside` | internal/runtime/routing.go:188-199 | an address that none of the routed prefixes contains is not captured by the tunnel |
| `Routing.ContainsInNumbers` | internal/runtime/routing.go:188-199 | a prefix contains an address exactly when both are of one family, the address has no zone, and dividing the host part away leaves one number of the two |
| `Routing.PlanRouting` | internal/runtime/routing.go:77-111 | plans exactly the resolved addresses that some AllowedIPs covers, each once, and whether the HEM is covered; fails exactly when a name does not resolve |
| `Routing.Host.DefaultGateway` | internal/runtime/platform_linux.go:78-113 | of the default routes of one family that name a gateway the one with the lowest metric; on a steady host none exactly when there is no such route |
| `Routing.GatewayIsBest` | internal/runtime/platform_linux.go:78-84 | that is the route the kernel chooses for an address that nothing but such a default matches |
| `Routing.Host.AddRoute` | internal/runtime/platform_linux.go:122-136 | adds one route; one already there counts as success and is left alone |
| `Routing.Host.DelHostRoute` | internal/runtime/platform_linux.go:138-152 | removes a host route only with the recorded next hop |
| `Routing.Host.AddRoutes` | internal/runtime/platform_linux.go:58-76 | the table becomes exactly the given ranges routed in one by one, up to the first failure; routes already there stay |
| `Routing.Pins.Add` | internal/runtime/routing.go:151-164 | the table and the record grow by exactly the same pins, in order, also when it stops half way, each by way of the gateway that was its family's default before; on a steady host it stops only where a family has none; a route already there stays and is recorded too |
| `Routing.Pins.Restore` | internal/runtime/routing.go:168-175 | removes exactly the recorded routes that are still as recorded; when a removal fails, nothing but recorded routes is missing and nothing is new |
| `TunnelRun.Walker.SelectNext` | internal/tunnel/failover.go:82-101 | the first peer in stored order that has not failed, none exactly when all have |
| `TunnelRun.NextInWalk` | internal/tunnel/failover.go:82-101 | the m-th visit of a walk from peer k is the m-th of k followed by the others as stored, and there is none exactly after all |
| `TunnelRun.Orphaned` | internal/tunnel/failover.go:114-132 | exactly the ranges the old peer claims and the new one does not |
| `TunnelRun.MovedOutside` | internal/tunnel/tunnel.go:391-412 | a completed move leaves an endpoint address outside if and only if it was outside already, or the new peer's ranges cover it and no host route stood in the way of its pin |
| `TunnelRun.OutsideByRanges` | internal/tunnel/tunnel.go:408-410 | at any point of a run, an address without a host route is outside if and only if every range routed so far that contains it is the host's own or loses to a longer route of the host's |
| `TunnelRun.MovedEscapes` | internal/tunnel/tunnel.go:391-412 | the same for a completed move, told from what is known before it: the host's table, the ranges routed so far, the host routes and the new peer's ranges |
| `TunnelRun.UnwarnedOutside` | internal/tunnel/failover.go:114-132 | if the new peer claims every range routed so far and none is a single host, every resolved endpoint address is outside |
| `TunnelRun.ConfiguredOutside` | internal/tunnel/tunnel.go:428-437 | routing the active peer's own ranges moves none of its endpoint addresses, in or out |
| `TunnelRun.WarnedRunCaptures` | internal/tunnel/tunnel.go:391-412 | a run in addresses, from a table without a tunnel through two moves, after which the second endpoint is routed into the tunnel |
| `TunnelRun.UnwrapPsk` | internal/config/config.go:252-268 | nothing for a peer without a wrapped key; otherwise a fresh buffer of 32 bytes with that peer's key, unwrapped under the identity and that peer's context; on a steady device it fails exactly when that is not 32 bytes |
| `TunnelRun.Tunnel.IpcSet` | internal/tunnel/uapi.go:16-54 | the first peer is added to the WireGuard device, any other takes the place of all there are; a failure may leave either undone |
| `TunnelRun.Tunnel.UsePeer` | internal/tunnel/tunnel.go:374-424 | a success is a move to that peer: the key in use is that peer's, there is one exactly if it has one, and WireGuard has that peer under that key and no other peer; whether its ranges reach the HEM is known, exactly for a HEM known by address, as is a literal endpoint; which endpoint addresses it leaves outside is exactly `Escapes`, and all of them without a warning and without single-host ranges; it warns exactly when a range is orphaned; every key obtained is zeroed or in use, the previous one zeroed; on a steady host with a default gateway for every family the peers' ranges cover it succeeds if and only if the peer's key is usable |
| `TunnelRun.Tunnel.ConfigureInterface` | internal/tunnel/tunnel.go:428-453 | exactly the active peer's ranges are routed in, no endpoint address moves, and a HEM that the ranges reach has answered afterwards; on a steady host it succeeds |
| `TunnelRun.Tunnel.Teardown` | internal/tunnel/tunnel.go:460-479 | every pre-shared-key buffer is zero, and the table is the original less recorded routes that were already in it; when a removal fails, only recorded routes are missing or left |
| `TunnelRun.RestoredExactly` | internal/runtime/routing.go:141-175 | the table ends as it was found if and only if no recorded pin was in it before |
| `TunnelRun.PreexistingRouteLost` | internal/runtime/platform_linux.go:122-136 | a run in addresses that pins through a route the host already had, and takes it away |
| `TunnelRun.Tunnel.Hold` | internal/tunnel/tunnel.go:281-319 | terminates; visits the start peer and then the others in stored order, none twice, and waits once for each; tries at most n-1 moves; ends where a wait did not stay silent, and reports that nobody answered if and only if all n waits did; on a steady host with a gateway to pin to a move fails only for a key that is not usable; keeps the active peer's endpoints outside as long as no move warns |
| `TunnelRun.Tunnel.Run` | internal/tunnel/tunnel.go:179-275 | after every completed move and configuration of the run WireGuard has the active peer under its own key and no other, the peers active are the visited ones in order, and unless a move has warned or a range is a single host, every endpoint address of the active peer is outside; at every exit after the device is open all keys are zero and the table is the original less exactly the recorded pins that were in it, restored if and only if none was; every recorded pin goes by the gateway that was its family's default before the run; when a removal fails, only recorded pins are missing or left, and on a steady host none fails; nobody answered if and only if all peers were waited for and stayed silent |
| `TunnelRun.LoadedTreeCanBeWalked` | internal/config/config.go:144-165 | a loaded tree has a peer to start on and lists none twice, as the walk needs |
| `TunnelRun.RequestedIsServed` | internal/tunnel/uapi.go:40-54 | from the request to the running tunnel: for a peer that was new, what WireGuard is given once it is active is the key, endpoint, ranges and keepalive asked for and the very pre-shared key, as long as the device unwraps what it wrapped |
| `Framing.Pipe.ReadFull` | internal/ipc/transport.go:45-57 | exactly the bytes asked for however they arrive, or an error exactly when the stream is shorter |
| `Framing.WriteMsg` | internal/ipc/transport.go:25-40 | writes one frame, and nothing at all for an oversized payload; where no write fails it fails for those only |
| `Framing.ReadMsg` | internal/ipc/transport.go:45-57 | reads exactly the first frame and leaves the rest, or fails exactly when there is none |
| `Framing.FrameOnTheWire` | internal/ipc/transport.go:30-39 | a frame is four bytes that spell the length, most significant first, and then the payload |
| `Framing.ReadOffTheWire` | internal/ipc/transport.go:45-57 | a reader takes off as many bytes after the first four as those announce, exactly if that is at most 65536 and they are there |
| `Framing.WholeStream` | internal/ipc/transport.go:25-57 | any sequence of payloads of at most 64 KiB is read back exactly |
| `Framing.Transmit` | internal/ipc/transport.go:25-57 | any messages sent with WriteMsg and read with ReadMsg come back in order: all when every write went through, otherwise all that were reported written and at most the one that was not; where no write fails, exactly those before the first that is too long |
| `Framing.TruncatedStream` | internal/ipc/transport.go:45-57 | a stream cut anywhere yields every message whose frame is complete, and no other |
| `Framing.InterleavedWriters` | internal/ipc/transport.go:33-39 | two senders, any messages, any interleaving of their writes: the reader gets exactly the messages sent, each sender's in order, if and only if no write comes between a header and its body; otherwise it gets something nobody sent |

## Left out

- gui/, command-line parsing, .conf files, base64 and JSON: parsing and presentation, mostly library code.
- The HEM SDK, TLS, tokens, passphrases and scopes: a token is something that may not be obtained.
- Error wording and kinds: a refusal is told apart from a failed call, and nothing finer, so ErrNotAuthentic is not separated from other refusals.
- Key types and the device's answer lengths (internal/provision/provision.go:212-215, internal/mac/mac.go:157-159, internal/provision/adopt.go:108-112): the device model returns 32-byte MACs and derives identifiers by SHA-1 as internal/descr/descr.go:109-123 documents.
- Device calls that fail after taking effect: a failed call changes nothing here.
- Provision.PlacePeer: the token requests before each call are not modelled separately, because a refused token and a failed call leave the same state.
- Commands.PeerAdd: the identity is named by its identifier rather than chosen from a list, and the in-memory label of an adopted peer is the stored one.
- Choosing among identities (internal/config/identity.go:123-171): a listing and a lookup, with nothing authenticated.
- Request.Validate, Build.Matches and OpWhoami (internal/ipc/proto.go): case analysis that does not touch the slot; a start refused for its build is a step that changes nothing.
- Framing.InterleavedWriters: is stated for messages that are not empty and do not start with a zero byte, as no JSON text does.
- Codec.EncodeInterface: the value-length check at internal/descr/descr.go:211-214 is modelled in the writer but no field of a record can reach it.
- TunnelRun.Tunnel.Run: openDevice, the UAPI listener, state files, DNS, interface addresses and MTU are only points at which a run may fail; the tunnel's own routes vanish with its link.
- Routing on macOS and Windows: the table follows internal/runtime/platform_linux.go.
- TunnelRun.Tunnel.UsePeer: states the routing property for addresses without a zone, because Prefix.Contains never matches a zoned address.
- A buffer that UnwrapPSK itself refuses for its length (internal/config/config.go:264-266) never reaches the tunnel and is not tracked.
- The content of a PSK wrap: wrap and unwrap are arbitrary functions of key, context and bytes, and that one inverts the other is a hypothesis where it is used.
- TunnelRun.Tunnel.IpcSet: the peer is a value, not the lines of text it is written as (internal/tunnel/uapi.go:40-54), and the interface's own settings are not modelled.
- A host name that is itself a literal address (internal/runtime/routing.go:38-41) may resolve to anything here, as a name may.
- Timing: handshake timeouts and polling are nondeterministic outcomes.
