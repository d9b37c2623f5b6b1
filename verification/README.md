# Wiresteward: a verified model

Wiresteward hands out WireGuard address leases. This project models the parts of it
whose correctness is not visible in any one function, and proves what they promise.

**The server.** A lease table (user to key, address, expiry) has two mirrors, the peers
of the WireGuard device and a leases file. Each request and each expiry sweep runs as
several sections under a mutex, so they interleave.

- `LeaseTable` is the table as a value: allocation of the lowest free address, requests,
  expiry, capacity.
- `LeaseFile` and `Text` are the file, character by character, and its reader.
  `LeaseSurvival` is exactly which tables survive it.
- `WgDevice` is the device as a cryptokey-routing table, and `setPeers`, whose plan is
  applied change by change while ranges move between peers. `Keys` is exactly which
  strings are public keys, and which are the same one.
- `LeaseManager` is the imperative `fileLeaseManager`; every method is proved against
  the functions of the modules above.
- `LeaseProtocol` runs any number of requests and sweeps concurrently, section by
  section, with any names and keys, through failing writes, crashes and restarts from the
  text of the file. What it says within a run of the server needs no more; what it says
  across a start is for starts that find a file that was written to the end and carries
  what is live in it.
- `LeaseRestart` is exactly which tables and requests survive a restart, and what the
  others do.

**The agent.** A renewal loop, backoff goroutines, health checks and callers of
`renewAllLeases` talk over channels that hold one signal.

- `RenewProtocol` is that protocol, in every interleaving, for any number of devices.
- `AgentDevice` is what a renewal does to addresses, routes and the peer, and when it
  may skip it.
- `HealthCheck` is the failover decision, as an automaton and with time. `Backoff` is
  the retry timer.

**The gate.** `Cidr` decides whether a prefix is private by looking at its two ends;
`ServerConfig` uses it. `Address` has the arithmetic: CIDR blocks nest or are disjoint.
The ranges are those of section 3 of RFC 1918 and section 3.1 of RFC 4193.

These results say exactly when the code keeps a promise that it does not keep always;
lemmas at an input at which it does not stand beside them or in `Witnesses`:

- An accepted configuration advertises only private space if and only if the own address
  is not an IPv4-mapped IPv6 one: the appended `/32` of such an address is `::/32`
  (`ServerConfig.AdvertisedSpaceIsPrivate`; at `::ffff:10.0.0.1/104`,
  `ServerConfig.MappedConfigAdvertisesPublicSpace`).
- The server takes any name and any key. A saved table reads back, whatever the map order,
  if and only if names and keys of live records hold no whitespace and what each record's
  own lines are read as does no harm (`LeaseSurvival.ReadsBackExactlyWhen`). Where no
  expired record holds a newline, that means: every line that is not too long has four
  fields, and no line is too long for the scanner while there is a live record to lose
  (`LeaseSurvival.WithoutNewlines`). A restart gives everybody the live lease back if and
  only if the table meets that (`LeaseRestart.RestartRestoresExactlyWhen`); where the file
  carries the other records, if and only if the record of the request does
  (`LeaseRestart.RequestSurvivesExactlyWhen`). The server never starts again if and only if
  some record on its own is read as an error and so is every one that stops the scanner
  (`LeaseRestart.NeverStartsExactlyWhen`). A key with a space does that, a key of 65536
  characters hands a live address to the next newcomer, and a key with a newline forges
  records (`LeaseRestart.SpaceInKeyStopsServer`, `LeaseRestart.LongKeySharesAddress`,
  `LeaseRestart.NewlineInKeyBreaksSoundness`).
- A save that is cut short between two lines gives everybody the lease back if and only if
  every line was written (`LeaseRestart.CutShortSaveKeepsWhatWasWritten`); cut short within
  a line, before the expiry, it gives nobody anything (`LeaseRestart.TornSaveIsRefused`).
- When users share keys, a successful device update mirrors the table in every map order if
  and only if the device held no peer other than the shared key
  (`LeaseManager.SharedKeysKeptExactlyWhen`; at an input, `Witnesses.SharedKeyLosesRoute`).
- An IPv6 pool of 32 bits or more can be mirrored if and only if all live users have one
  key, so with different keys if and only if at most one user is live: `<ip>/32` is one
  range for the whole pool (`LeaseManager.IPv6PoolHasOneHost`; at `fd00::1/64`,
  `Witnesses.IPv6PoolIsNotMirrored`).
- After a failed device update, a user's next request, run to the end, repairs the device if
  and only if it carries a different key and, in the order of the update, no user who shares
  a key loses the route (`LeaseProtocol.RetryRepairsExactlyWhen`; at inputs,
  `Witnesses.SameKeyRetryRepairsNothing`, `Witnesses.SharedKeyRetryRepairsNothing`).
- After a renewal on the agent whose link update failed and whose peer was set, being sent
  the recorded configuration again leaves address, routes and peer right if and only if the
  link had not been found and the other configuration had the same key and ranges and named
  no other endpoint; after a failed address add they never are
  (`AgentDevice.SkipAfterFailedUpdate`; at an input, `Witnesses.SkipKeepsOtherEndpoint`).
- After any run of renewals and failures on the agent, the peer is that of the recorded
  configuration if and only if the last response that was not skipped made all changes of
  its peer update and sets the same, or made none and the peer was right before; what stops
  half way is never right, and no response that is skipped repairs it
  (`AgentDevice.PeerFollowsConfig`).
- A backoff wait is min(Max, Min * Factor^k) if and only if the product is not between the
  overflow guard and Max (`Backoff.ClosedForm`; at an input, `Backoff.GapExists`).

`dafny verify dfyconfig.toml` checks everything.

## Model

| member | source | states |
|---|---|---|
| Cidr.TwoEndpointTestIsExact | cidr.go:18-26 | for every prefix of either family, IPv4-mapped ones included, both ends are private if and only if every address in it is |
| Cidr.IsPrivateIsBlocks | cidr.go:10-13 | the byte tests accept exactly the RFC 1918 and RFC 4193 ranges (and RFC 1918 seen through `::ffff:0:0/96`) |
| Cidr.WiderPrefixIsPublic | cidr.go:15-17 | a prefix that starts in a private range and is wider than it ends in public space |
| Address.NestOrDisjoint | cidr.go:23-25 | two CIDR blocks that share an address nest |
| Address.ContainsExactlyWhen | cidr.go:23-25 | a prefix holds exactly the addresses of its family that agree with it in the leading bits, bit by bit |
| Address.EndsAreExtreme | cidr.go:24-25 | the masked and the last address are the least and the greatest address of the prefix |
| ServerConfig.ServerConfig.Verify | config.go:205-307 | accepts exactly the stated configurations, refuses any other with the first thing that is wrong with it, fills exactly the stated defaults, and what it then advertises is private if and only if the own address is not IPv4-mapped |
| ServerConfig.EndpointExactlyWhen | config.go:264-275 | an endpoint is accepted, and with that port, if and only if it is a host and a port with one colon between them, the port a number of 64 bits |
| ServerConfig.ServerConfig.VerifyRoutes | config.go:206-246 | the gate refuses with the first thing that is wrong with address or routes, and otherwise appends the own address |
| ServerConfig.ServerConfig.FirstRejectedRoute | config.go:229-242 | the loop over the routes stops at the first that fails the gate |
| ServerConfig.AdvertisedSpaceIsPrivate | config.go:228-246 | routes that pass the gate plus the unchecked own `/32` cover only private addresses, if and only if the own address is native |
| ServerConfig.OwnRouteIsPrivateIffNative | config.go:244-246 | the own `/32`, which nothing checks, is private exactly when the own address is not IPv4-mapped |
| ServerConfig.MappedConfigAdvertisesPublicSpace | config.go:244-246 | `::ffff:10.0.0.1/104` passes the gate and advertises public space |
| LeaseTable.UpsertKeepsSound | lease.go:172-198 | a request keeps addresses distinct, in the prefix and unreserved, moves nobody, touches only its user's record, gives a newcomer the least free address, and asks for a device update exactly when key or user is new |
| LeaseTable.NewcomerGetsLowestFree | lease.go:219-238 | a newcomer gets an address of the prefix that is neither the server's own nor an end of the prefix nor anybody else's, and every lower address of the prefix is one of those |
| LeaseTable.RequestRefusedExactlyWhen | lease.go:172-181 | a request is refused if and only if the name is empty, the key is empty, or a newcomer finds no such address |
| LeaseTable.SoundExactlyWhen | lease.go:219-238 | sound means: every address lies in the prefix, is not the server's own nor an end of the prefix, and is leased once |
| LeaseTable.AllocationSucceeds | lease.go:227-238 | a free address exists whenever the records number fewer than the unreserved addresses |
| LeaseTable.PoolCapacity | lease.go:227-238 | in a sound table a newcomer is turned away if and only if every unreserved address is leased |
| LeaseManager.FileLeaseManager.NextAvailableAddress | lease.go:227-238 | the builder yields the least address of the prefix that is not the server's own, not an end of the prefix and not leased, and nothing exactly when there is none |
| LeaseManager.FileLeaseManager.CreateOrUpdatePeer | lease.go:172-198 | the new table, record and update flag are those of `Upsert`; a refusal changes nothing; soundness is kept |
| LeaseManager.FileLeaseManager.AddNewPeer | lease.go:200-217 | a request is acknowledged if and only if it is valid and the update it needs and the save succeed, and then is in the table, on the device (also when the update is skipped) and in the file; a refusal changes nothing, and a failed update leaves the file alone |
| LeaseManager.FileLeaseManager.SyncWgRecords | lease.go:130-149 | a sweep removes what expired before it began, keeps what expires at or after its end, and if it removed anything brings the device and then the file up to date; it succeeds if and only if nothing was removed or both calls do |
| LeaseManager.FileLeaseManager.DeleteExpired | lease.go:131-139 | the locked section of the sweep, with the clock moving while it loops |
| LeaseManager.FileLeaseManager.UpdateWgPeers | lease.go:151-164 | an update that fails stops somewhere in the plan for the list of the users; a successful one leaves exactly the users' keys for peers; and where no two users have one range it leaves the image key to `ip/32` of the records whose key parses, if and only if, in the order in which the map was iterated, no user who shares a key lost the route; so always when the keys are different |
| LeaseManager.SharedKeysKeptExactlyWhen | lease.go:154-163 | with shared keys that holds in every order if and only if the device held no peer other than the shared key |
| Witnesses.SharedKeyLosesRoute | lease.go:154-163 | two users with one key and another peer on the device: in every order a route is lost |
| LeaseManager.MirrorExistsExactlyWhen | lease.go:156 | some device mirrors the table if and only if no user is routed the range of another with a different key |
| LeaseManager.IPv6PoolHasOneHost | lease.go:156 | `ParseCIDR` masks the host bits of `<ip>/32`, so an IPv6 pool of 32 bits or more can be mirrored if and only if all live users have one key; with different keys, if and only if at most one user is live |
| Witnesses.IPv6PoolIsNotMirrored | lease.go:156 | two users of `fd00::1/64` make a sound table that no device mirrors |
| LeaseManager.FileLeaseManager.SaveWgRecords | lease.go:114-128 | a save succeeds if and only if the file opens and every line is written, and then the file is the table in some order of its users; a failed open leaves the file alone; a write that fails after n lines leaves the lines of n users |
| LeaseManager.FileLeaseManager.LoadWgRecords | lease.go:70-112 | a missing file is an empty table; any other is what its lines say or an error; a file saved from a table that the file can carry gives that table back without what has expired |
| LeaseManager.FileLeaseManager.Boot | lease.go:43-68 | the server starts if and only if the file is readable and the device update succeeds; then table and device are those of the file, and a refused file leaves the device alone |
| LeaseManager.ExpiryChangeKeepsHosts | lease.go:166-171 | a record whose expiry alone changes needs no device update |
| LeaseManager.AgreementMirrors | lease.go:154-163 | a device that agrees with the list built from the records mirrors the table |
| LeaseManager.MirrorsAreEqual | lease.go:151-164 | two devices that mirror one table hold the same peers and routes |
| LeaseFile.ParsePrintLine | lease.go:26-28 | field splitting undoes line printing if and only if name and key hold no whitespace and neither is empty |
| LeaseFile.ParsePrinted | lease.go:84-108 | what any printed record is taken for: the first two fields as name and key, or a malformed line |
| LeaseFile.EntryExactlyWhen | lease.go:84-108 | a line is this record of this user if and only if it has four fields, the name, the key, the address in its one form and a number that is the expiry |
| LeaseFile.LineErrorsExactlyWhen | lease.go:84-100 | the empty line is skipped; any other is refused, with the stated error, exactly when it has not four fields, the third is no address or the fourth no time |
| LeaseFile.OrdinaryIsCarried | lease.go:82 | a record whose name and key are fields of 65498 bytes together or fewer is carried by the file |
| LeaseFile.SaveThenLoad | lease.go:70-128 | a table, written in any map order, is read back as exactly its unexpired records, if the live ones have whitespace-free names and keys, the expired ones print four fields, and all lines fit |
| LeaseSurvival.ReadsBackExactlyWhen | lease.go:83-108 | for every table, with any names and keys, expired records included: it reads back in every order if and only if live names and keys are fields and each record on its own is read as nothing but live records of the table (or, if some record stops the scanner, as the condition then says) |
| LeaseSurvival.WithoutNewlines | lease.go:83-108 | that means, if no expired record holds a newline: live names and keys are fields, every line that fits has four fields, and all lines fit or nothing is live |
| LeaseSurvival.ScanAppend | lease.go:82-84 | the scanner goes on to the next record if and only if no line before it is too long |
| LeaseFile.RestoresExactlyWhen | lease.go:83-128 | while every record is live: in whatever order it was written, the table comes back unchanged if and only if every name and key is a field and every line fits |
| LeaseFile.OnlyPlainReadsBack | lease.go:88-94 | a live record whose name or key holds whitespace is never read back |
| LeaseSurvival.RefusedExactlyWhen | lease.go:83-100 | for any names and keys: in every order of the map a saved file is refused, with all leases in it, at any time, if and only if some record on its own is read as an error, and so is every record that stops the scanner |
| LeaseFile.SavedFileIsRefusedExactlyWhen | lease.go:88-91 | where no name or key holds a newline and every line fits, the one text that was saved is refused, with all leases in it, if and only if some name and key do not make two fields |
| LeaseFile.KeyWithSpaceIsRefused | lease.go:88-91 | so it is for the one user `u` with the key `a b` |
| LeaseFile.SpaceBeforeNameIsDropped | lease.go:88-93 | a name with a space before it comes back as the name without |
| LeaseFile.NewlineInKeyForges | lease.go:122-124 | a key with a newline in it turns one record into any two |
| LeaseFile.LoadFailsExactlyWhen | lease.go:84-100 | a file is refused if and only if a line is neither blank nor four well-formed fields, expired or not |
| Text.ParsePrintQuad | lease.go:96 | parsing undoes printing for every IPv4 address |
| Text.ParseQuadExactlyWhen | lease.go:96 | every IPv4 address has one text that is read as it |
| Text.QuadIsBytes | lease.go:27 | that text is the four bytes in decimal, the highest first |
| Text.FieldsSplitAtSpace | lease.go:88 | any whitespace character separates fields |
| Text.SpacesAre | lease.go:88 | whitespace is the characters with the property White_Space |
| Text.CarriageReturnIsDropped | lease.go:82-83 | a carriage return before a line break is no part of the line |
| Text.Utf8SizeExactlyWhen | lease.go:82-83 | the scanner counts bytes: a character takes the fewest that can carry it |
| Text.ParseIntExactlyWhen | config.go:271 | a number is digits with at most one sign before them |
| WgDevice.NewPeerConfig | wireguard.go:16-45 | fails exactly when a key, the endpoint or a CIDR is bad, and says which comes first; otherwise the entry holds key, preshared key, endpoint, the keepalive interval and the networks of the ranges in order |
| Keys.ParsesExactlyWhen | wireguard.go:17 | a string without line breaks is a key if and only if it is 43 characters of the base64 alphabet and a `=` |
| Keys.LineBreakIsIgnored | wireguard.go:17 | a line break anywhere in a string makes no difference |
| Keys.SameKeyExactlyWhen | wireguard.go:17 | two such strings are one key if and only if they agree in the first 42 characters, and in the 43rd but for its two spare bits |
| WgDevice.NetworkIsCanonical | wireguard.go:38-43 | the network of a CIDR has its addresses and is written as the least of them |
| WgDevice.SameNetworkExactlyWhen | wireguard.go:38-43 | so two CIDRs of one length have one network exactly when they overlap |
| WgDevice.BuildPlan | wireguard.go:65-77 | for any list the nested loop marks for replacement exactly the entries that some search reached, and appends one removal for each of the unwanted peers |
| WgDevice.PlanReconcilesExactlyWhen | wireguard.go:65-78 | from any device state and for any list with disjoint ranges, applying the plan leaves exactly the wanted peers, and the wanted ranges if and only if no repeated key dropped those of an earlier entry |
| WgDevice.PlanReconciles | wireguard.go:65-78 | from any device state, applying the plan in order leaves exactly the wanted peers and the wanted ranges |
| WgDevice.PlanLeavesWantedPeers | wireguard.go:65-78 | whatever keys and ranges are listed, repeated or not, the plan leaves exactly the listed peers |
| WgDevice.PlanKeepsWantedPeers | wireguard.go:65-78 | after any number of changes, no wanted peer that was present is missing and, if no key and no range is repeated, a range that stays with its peer routes to it |
| WgDevice.PlanAppliesSettings | wireguard.go:24-37 | after any number of changes, so many wanted peers have the endpoint, preshared key and keepalive interval of their entry, or else those they had, and the others are untouched |
| WgDevice.PlanSetsWhatIsNamed | wireguard.go:18-37 | after the whole plan a setting that an entry names is that of the entry, and any other is what the peer had |
| WgDevice.Device.SetPeers | wireguard.go:47-79 | all of that for the whole operation; peers and routes that stay are kept, and settings applied up to some entry, also when it fails half way |
| LeaseProtocol.QuiescentAgreement | lease.go:130-217 | in every interleaving over an IPv4 pool, with any names and keys and any restarts, with nothing in flight the device's peers are the users' keys, and mirror the table if at that moment those and the ranges differ; the file is the text of the table or, before the first save, the text it was read from (so that, if that was written to the end and carries what is live in it, the table is exactly that); unless the last write of that kind failed |
| LeaseProtocol.InvHolds | lease.go:130-217 | at any time a disagreement means that an operation in flight still owes the write, or that the last one failed |
| LeaseProtocol.OperationsFinish | lease.go:130-217 | from every reachable state of a running server, updates and saves of the operations in flight lead to a quiescent state with the same table, in which device and file stand for it if they did or an operation owed the write |
| LeaseProtocol.IdleSweepOwesNothing | lease.go:130-140 | a sweep that finds nothing expired leaves table, device, file and operations as they are |
| LeaseProtocol.LeasesStaySound | lease.go:172-198 | from any state with sound tables, any requests, sweeps, failures and crashes keep leased addresses and ranges distinct, in the prefix, unreserved, in memory and in the file; so do starts that find a file that was written to the end and carries what is live in it |
| LeaseProtocol.NobodyHasKeptBack | lease.go:219-238 | so in every such run nobody has the server's own address or an end of the prefix, and no two users have one |
| LeaseProtocol.AddressIsKept | lease.go:130-198 | within a run of the server, whatever it started from, a user's address changes only after the record expired |
| LeaseProtocol.AcknowledgedLeaseIsDurable | lease.go:70-128 | an acknowledged, unexpired lease with no later request is in the table whenever the server runs and in the table of the last save that succeeded, same key, address and expiry, whatever others ask for and through any crashes and failed saves, as long as each start finds a file that was written to the end and carries what is live in it; and while the file is one, reading it gives the lease back |
| LeaseProtocol.AcknowledgedAddressesAreDistinct | lease.go:200-217 | two such leases never share an address, over any number of server runs of that kind |
| LeaseProtocol.SupersededAddressIsReused | lease.go:181-191 | why later requests are excluded: once a shorter lease replaced a longer one and was swept, a newcomer gets the address if and only if no lower one is free |
| LeaseProtocol.Revocation | lease.go:130-164 | at rest after a successful update, in every run whatsoever, the peers are exactly the keys of current records, shared or not, each expiring no earlier than the last sweep began or written since |
| LeaseProtocol.RetryRepairsExactlyWhen | lease.go:182-190 | a successful retry repairs a device left wrong by a failed update if and only if the key changed and the update, in its order of the users, dropped no shared key's route |
| LeaseProtocol.RetryWithOwnKeyRepairs | lease.go:188-190 | with a new key that no other user has it always does |
| Witnesses.SameKeyRetryRepairsNothing | lease.go:182-185 | the one peer is missing; a retry with the same key succeeds, and it still is |
| Witnesses.SharedKeyRetryRepairsNothing | lease.go:154-163 | a stray peer is left; a retry with another user's key succeeds, and one of the two has no route in any order |
| LeaseRestart.RestartRestoresExactlyWhen | lease.go:83-108 | in any state of an IPv4 pool, reachable or not, for any names and keys: a restart restores exactly the live leases, whatever the order of the save, if and only if the table survives its file |
| LeaseRestart.RequestSurvivesExactlyWhen | lease.go:83-108 | where the file carries the other records, that means after any request: the record of that request survives; while live, the file carries it; once expired, its lines do no harm |
| LeaseRestart.NeverStartsExactlyWhen | lease.go:83-100 | in any state: no start succeeds at any time, whatever the order of the save, if and only if some record on its own is read as an error, and so is every record that stops the scanner |
| LeaseRestart.LiveRestartExactlyWhen | lease.go:83-108 | while all leases are live, for the one text that was saved: the restart finds the table unchanged if and only if every name and key is a field and every line fits |
| LeaseRestart.SpaceInKeyStopsServer | lease.go:89-91 | after a key with a space in it, where the other records are read to their end, no start succeeds at any time |
| LeaseRestart.LongKeySharesAddress | lease.go:83-84 | after a key that fills the scanner's buffer, some order of the map leads to a restart without leases, and the newcomer gets the lowest address though its holder's lease is live |
| LeaseRestart.NewlineInKeyBreaksSoundness | lease.go:122-124 | after a key with a newline in it, two users hold one address |
| LeaseRestart.CutShortSaveKeepsWhatWasWritten | lease.go:117-126 | after a save cut short between lines a restart restores exactly the leases whose lines were written |
| LeaseRestart.TornSaveIsRefused | lease.go:117-126 | after a save cut short within a line, before its expiry, the file is refused |
| AgentDevice.ConfigsEqual | devicemanager.go:270-299 | two received configurations compare equal if and only if they are equal |
| AgentDevice.Link.UpdateDeviceConfig | devicemanager_linux.go:16-51 | the deleting and adding loops compute `Updated`, whichever calls fail |
| AgentDevice.UpdateTracks | devicemanager_linux.go:16-51 | one update leaves the new address and exactly the routes whose add worked, or nothing after a failed address add, or everything after a failed lookup |
| AgentDevice.DeviceManager.ApplyLease | devicemanager.go:206-240 | a renewal skips an equal configuration, records one only if the link was updated, and sets the peer either way |
| AgentDevice.KernelTracksConfig | devicemanager.go:206-230 | over any run, whatever fails, the link holds only what the recorded configuration explains, and all of it after an update without failures |
| AgentDevice.EarlierLeaseIsGone | devicemanager_linux.go:23-40 | no address or route of an earlier lease survives |
| AgentDevice.SkippingRefinesUpdating | devicemanager.go:206-240 | with all calls succeeding, skipping equal configurations ends in the same addresses, routes and peers as always updating |
| AgentDevice.SkipAfterFailedUpdate | devicemanager.go:218-232 | after a failed link update whose peer was set, re-receiving the recorded configuration leaves address, routes and peer right if and only if the link was not found and key, ranges and endpoint of the other agree; the link part alone if and only if it was not found |
| Witnesses.SkipKeepsOtherEndpoint | devicemanager.go:218-232 | another endpoint with the link not found: the recorded configuration comes back, is skipped, and the peer keeps the other endpoint |
| AgentDevice.PeerFollowsConfig | devicemanager.go:228-232 | over any run and any failures, exactly when the peer is that of the recorded configuration, from the peers before the last update and the number of changes it made: all and they set the same, or none and it was right before |
| AgentDevice.FailedPeerIsNotRetried | devicemanager.go:228-232 | a peer that could not be set after the link was updated stays so, however often the same response comes back |
| RenewProtocol.NoLostRenewal | agent.go:112-122 | once `renewAllLeases` returned, every device has started a renewal with that token or a newer one, or has a signal buffered or just taken |
| RenewProtocol.RenewalIsReached | devicemanager.go:113-144 | from every reachable state, steps of the loop and the trigger alone bring a device with servers to start a renewal with the token of the last call that returned, or a newer one |
| RenewProtocol.ServerIsSticky | devicemanager.go:149-204 | consecutive requests use one server unless the first failed or a health-check signal was taken between; servers are configured ones |
| RenewProtocol.ServerIsReleased | devicemanager.go:118-121 | there is a current server exactly while the last event is a request to it that succeeded; after a failed request or a health-check signal any configured server can be asked, and otherwise only the current one |
| RenewProtocol.RetriedExactlyWhen | devicemanager.go:123-143 | a refused token, a failed request or update and a health check that cannot be made are failures; an expired token and a success are not, and start nothing |
| RenewProtocol.BackoffStartsExactlyWhen | devicemanager.go:128-139 | every failure starts one backoff goroutine, and nothing else does |
| RenewProtocol.RetryIsReached | devicemanager.go:113-139 | after a failure, in every reachable state, steps of the loop and the goroutine it starts lead to the next renewal |
| RenewProtocol.SignalsExactlyWhen | devicemanager.go:128-174 | the loop is signalled by a backoff goroutine whose time is over and by a trigger at its last stop, and by nothing else |
| RenewProtocol.StoppedCheckNeverFires | devicemanager.go:159-162 | a running check that a trigger stops, or that the loop replaces, never sends a signal after that |
| RenewProtocol.NewestCheckIsCurrent | devicemanager.go:246-263 | in every run the check that a trigger or the loop stops is the one started last |
| RenewProtocol.FailoverIsReached | healthcheck.go:90-94 | from every reachable state with a check that has given its peer up, steps of the loop, the trigger and that check lead to a renewal for which any server can be asked |
| RenewProtocol.TriggerStopsBackoff | devicemanager.go:163-174 | a trigger that finds the backoff flag set lets every waiting goroutine of the device end without a signal; one that does not goes straight on to its own |
| RenewProtocol.FlagIsRightWithoutOverlap | devicemanager.go:128-139 | while backoff goroutines do not overlap, the flag is set exactly while there is one past its first step |
| RenewProtocol.OneServerIsNotChecked | devicemanager.go:242-245 | a device with one server never has a health check or a signal of one |
| RenewProtocol.BlockedSenderIsReleased | devicemanager.go:113-139 | a backoff goroutine blocked on its send can always be released by steps of the loop and the trigger alone |
| RenewProtocol.BlockedCheckIsReleased | healthcheck.go:90-94 | so can a health check |
| RenewProtocol.TriggerNeverBlocksOnSend | devicemanager.go:159-174 | a trigger can always step, except while the loop holds the lock, which the loop can release |
| RenewProtocol.LoopComesBack | devicemanager.go:113-144 | whatever the outcomes, each step brings the loop closer to its select |
| RenewProtocol.LoopCanStep | devicemanager.go:181-265 | outside its select the loop can step unless a trigger holds the lock, and it sends on no channel |
| HealthCheck.HealthCheck.Run | healthcheck.go:45-96 | the loop does what the automaton does, turn by turn |
| HealthCheck.HealthCheck.Stop | healthcheck.go:36-43 | leaves at most one token, only for a running check |
| HealthCheck.AutomatonIsConsistent | healthcheck.go:45-96 | at most one renewal, after exactly the needed failures in a row; fast ticker exactly while failing; healthy exactly when a check succeeded and no renewal was sent |
| HealthCheck.RenewsExactlyWhen | healthcheck.go:62-72 | a renewal is sent if and only if the needed failures in a row come before any stop call |
| HealthCheck.TurnEndsExactlyWhen | healthcheck.go:53-94 | a running check ends in a turn exactly when the select takes a stop token, without a check and without a renewal, or the needed failure in a row comes |
| HealthCheck.FailoverLatency | healthcheck.go:46-60 | the n-th failing check after a success is over within interval + T + (n-1)(intervalAF + T) |
| HealthCheck.DecidesWithinLatency | healthcheck.go:55-73 | an unstopped, running check of a dead peer sends its renewal with the last failure needed, not before, and by that bound |
| HealthCheck.LatencyIsAttained | healthcheck.go:46-60 | the bound is attained |
| HealthCheck.NextDueIsTick | healthcheck.go:46 | the next tick after a slow check is the one in the period after it, in step with the earlier ones |
| Backoff.Backoff.constructor | backoff.go:26-43 | non-positive arguments become the defaults |
| Backoff.Backoff.Duration | backoff.go:46-52 | hands out the next wait, within Min and Max and in 64 bits, and counts modulo 2^64 |
| Backoff.ClosedForm | backoff.go:54-74 | the k-th wait is min(Max, Min * Factor^k) if and only if the product is not between guard and Max |
| Backoff.GapExists | backoff.go:54-74 | a first wait just above the guard becomes Max |
| Backoff.NonDecreasing | backoff.go:54-74 | waits never get shorter |
| Backoff.ReachesMax | backoff.go:54-74 | the wait is Max exactly from the first power that reaches it, which comes after fewer than Max/Min waits |
| Backoff.TotalClosedForm | backoff.go:46-52 | the total wait is geometric up to that step and linear after |
| Backoff.DeviceManagerSchedule | devicemanager.go:51 | 2^k seconds for six waits, then 64 |

## Left out

- HTTP handlers, OAuth, token validation, metrics, logging and flags.
- netlink, wgctrl, iptables and tun devices: only the address set, the route table and the
  peer table remain, with calls that may fail.
- Parsing of CIDR strings, `ParsePrefix` and `ParseCIDR`: a CIDR is given by the result of
  parsing it. `IsPrivate` follows the library since Go 1.22, which looks through
  IPv4-mapped addresses.
- IPv6 lease pools: allocation is proved for both families, but the file, and the `/32` on
  the device, for IPv4.
- RFC 3339 timestamps: an expiry is a whole second, printed in decimal.
- LeaseFile.LoadFailsExactlyWhen: a line with an IPv6 address counts as bad.
- LeaseManager.FileLeaseManager.LoadWgRecords: the same; it is for IPv4 pools.
- LeaseRestart.TornSaveIsRefused: a line cut short within its expiry is left out; what that
  is read as depends on how timestamps are printed.
- LeaseProtocol: the runs are of IPv4 pools, which the code does not check;
  `LeaseManager.IPv6PoolHasOneHost` says what depends on it for the device.
- LeaseProtocol.LeasesStaySound: of starts it covers those that find a file that the last save
  wrote to the end and that carries what is live in it: names and keys of live records hold no whitespace, expired ones print four
  fields, and all lines fit. `LeaseSurvival.ReadsBackExactlyWhen` and `LeaseRestart` say
  exactly which others restore the table, and what the rest do.
- LeaseProtocol.AcknowledgedLeaseIsDurable: the same.
- LeaseManager.FileLeaseManager.CreateOrUpdatePeer: an exhausted pool is an error that leaves
  the table alone; in the code it is an index panic that the HTTP server recovers from.
- LeaseProtocol and RenewProtocol are relations over states and not classes: interleaving is
  the point. The readers of the status page and of the metrics are not among the threads.
- Backoff.ClosedForm: products are exact integers; the code rounds to floating point, which
  is exact for factor 2 in the range the agent uses.
- HealthCheck.FailoverLatency: the time between a check and the ticker reset is taken as zero.
- RenewProtocol.RetryIsReached: a retry is within reach and not certain: a stop signal meant
  for one backoff goroutine can end a later one.
- RenewProtocol: a wait may end at any time; how long it is is the subject of `Backoff`, whose
  counter and resets are not in the protocol.
- RenewProtocol: `Stop` has no effect on a health check whose goroutine has not started, so
  two checks of one device may run.
