# A verified model of the audit monitor

The repository watches a container: an eBPF probe reports DNS packets and connections, `netmon` names the
connections from the DNS answers it has seen and prints audit lines, a server keeps the newest lines and
streams them to dashboards, and a dashboard narrows, groups and lays them out. This project models the
algorithms on that way and proves what they are for.

`dafny verify dfyconfig.toml` checks all of it.

| file | what it models |
|---|---|
| `Packet.dfy` | `dns_packet`: byte-level parsing of a packet, the counters, the record it submits; and an encoder of IPv4/IPv6/UDP datagrams (section 3.1 of RFC 791, section 3 of RFC 8200) to compare it with |
| `CacheSpec.dfy` | the DNS cache as a function of the log of its operations, and what is true of every log |
| `CacheNames.dfy` | the names of one address over every log: their order, and what it takes to lose one |
| `Cache.dfy` | the cache as it runs: an array of entries whose names live in separately allocated arrays, changed in place |
| `Dns.dfy` | `ParseResponse`: from decoded answer records to cache entries, and what a response attributes to an address |
| `Netmon.dfy` | the event loop: records in, audit lines out, pruning on the way |
| `AuditLine.dfy` | the audit line format: printing, the field scanner, whole request bodies |
| `Replication.dfy` | server log and dashboard replicas as a system of steps with frames in flight |
| `LiveStream.dfy` | the server's and the dashboard's handlers, and the revision-stamped process index |
| `LiveSystem.dfy` | server and dashboards together, each step carried out by their handlers |
| `Diverse.dfy` | `diverseEvents`: which events a window of limited size shows |
| `Identity.dfy` | the index from process ids to identities |
| `JsStrings.dfy`, `Paths.dfy` | string operations, parent directories, climbing towards the root |
| `Rollup.dfy` | the directory rollups of file accesses and the promotion of single files |
| `Collisions.dfy` | when promotion is maximal, by the number of files |
| `Components.dfy` | the connected components of the graph and where they are centred |
| `CompactPath.dfy` | shortened path labels |

Reading guide. A method that changes state or loops is proved equal to a function (`Cache.Put` and
`CacheSpec.Step`, `DiverseEvents` and `Narrow`, `ParseFields` and `Fields`); what the code is for is then
proved of that function, over every input or every run. Constants and character classes of the code are pinned
by statements that write them out. Time is always an input, so nothing is assumed about
clocks except where a lemma says so. 64-bit additions wrap, as they do in the code.

## What came out

- The cache is sound without any assumption on clocks, capacity or order: whatever name it holds for an
  address was put for exactly that address, with the expiry of the last such put. It is complete as long as
  its two caps are not exceeded. With puts in time order an unexpired name is lost only to `capacity` other
  keys put no earlier than the name was last put, or to eight other names put on its own key since it was
  inserted; a refresh keeps a name's place, so it does not protect it from the latter.
- `expires = now + ttl` wraps for some 64-bit inputs; an expiry is later than `now` exactly when it does not.
- A name is trimmed of its final dot twice on its way into the cache, so a name that ends in two dots loses
  both (`StoredIsCleanedIff`).
- A snapshot received while events are queued keeps the queue. In every run, once a dashboard has received
  what is in flight, it agrees with the server's log exactly when its last snapshot met no queue, or the
  queue it met and the events since then are by themselves the log's newest, up to the cap
  (`ConvergenceIff`, for events without repetition). A run of eight steps ends with one event held twice.
- Loading the log bumps no revision, so a rendering before it would leave a stale process index unless the
  load brings the same events back; with the order the page keeps, every rendering is current.
- Climbing never takes an absolute directory to `/`, but the parent of `/` itself is `.`.
- Promotion of single files is maximal for every group of n files exactly when n is at most eight. From nine
  on it can fail, but only where a file has the name of a directory that other files are grouped under:
  `/a/1` to `/a/7`, `/a/z` and `/a/z/1` end with eight targets and `/a/7` alone under `/a`, where promoting it
  would cost nothing.
- The bound of `compactPath` holds for every string exactly when `maxLength` is at least 23, and no character of
  it is wasted. A path that would just fit is still starred in place of the last letter of its stem.
- An audit line's fields survive printing and parsing exactly when each value is trimmed and contains no white
  space followed by `identifier=`. A line is shown under its own type exactly when
  no field named `type` says otherwise.

## Model

| member | source | states |
|---|---|---|
| `Packet.BitsOfByte` | src/netmon-go/bpf/netmon.bpf.c:121-145 | the shifts and masks on a byte are the quotient and remainders the model computes with |
| `Packet.FragmentBits` | src/netmon-go/bpf/netmon.bpf.c:132-136 | the fragment mask 0x3fff is clear iff the low six bits of the first byte and the whole second byte are |
| `Packet.Probe.Count` | src/netmon-go/bpf/netmon.bpf.c:24-29 | exactly one counter is bumped, modulo 2^64 |
| `Packet.Probe.DetectDnsTcp` | src/netmon-go/bpf/netmon.bpf.c:96-107 | the counter is bumped iff four bytes load and one port is 53 |
| `Packet.Probe.DnsPacket` | src/netmon-go/bpf/netmon.bpf.c:109-210 | counters and submitted records are the effect of the packet's verdict, ring-buffer exhaustion and short loads included |
| `Packet.Probe.DnsUdp` | src/netmon-go/bpf/netmon.bpf.c:164-209 | the same for the UDP part, from any offset |
| `Packet.HeaderExamined` | src/netmon-go/bpf/netmon.bpf.c:117-163 | behind every encoded header, options of any length included, parsing resumes at the end of the header |
| `Packet.DatagramIsLocated` | src/netmon-go/bpf/netmon.bpf.c:109-187 | of every encodable datagram on port 53 with at least 12 payload bytes the probe locates exactly the payload |
| `Packet.DatagramIsCaptured` | src/netmon-go/bpf/netmon.bpf.c:183-208 | with ring space, exactly one record: the whole payload up to 1232 bytes, else its prefix and the true length, and the truncation counted |
| `Packet.OtherDatagramsAreNotCaptured` | src/netmon-go/bpf/netmon.bpf.c:171-182 | other ports are ignored, payloads under 12 bytes only counted |
| `Packet.HeaderReadBack` | src/netmon-go/bpf/netmon.bpf.c:121-163 | conversely, whatever the probe accepts begins with the encoding of a valid, unfragmented header |
| `Packet.LocatedIsDatagram` | src/netmon-go/bpf/netmon.bpf.c:109-210 | every packet the probe locates a message in is the encoding of a datagram on port 53 with a payload of that length, and a trailer; or, when the length runs past the packet's end, the beginning of such an encoding |
| `Packet.CountersAreDeserved` | src/netmon-go/bpf/netmon.bpf.c:109-210 | in terms of the raw bytes: every packet bumps exactly the counters it deserves, each once, and is reported iff ring space is left and the announced message, or its first 1232 bytes, lies in the packet |
| `Packet.BumpedIs` | src/netmon-go/bpf/netmon.bpf.c:24-29 | bumping counters adds one to each, modulo 2^64, and leaves the others |
| `CacheSpec.KeysAgreeIff` | src/netmon-go/internal/dnscache/cache.go:41-53 | two addresses share an entry iff container and family agree and so do all 4 or all 16 bytes; no entry for another family or a shorter address |
| `CacheSpec.FoldsAgreeIff` | src/netmon-go/internal/dnscache/cache.go:91-92 | names are equal iff letter by letter they are the same up to ASCII case |
| `CacheSpec.CleanNameIs` | src/netmon-go/internal/dnscache/cache.go:134-136 | exactly one final dot is trimmed |
| `CacheSpec.AdmitIff` | src/netmon-go/internal/dnscache/cache.go:55-90 | a put is accepted iff the trimmed name has 1 to 253 characters and the address the length of its family; it then expires ttl seconds, or for ttl 0 five, after now in 64-bit arithmetic |
| `CacheSpec.ExpiryIsLaterIffNoWrap` | src/netmon-go/internal/dnscache/cache.go:84-90 | the expiry is after now iff the 64-bit sum does not wrap, in particular for every now up to 2^64-1-(2^32-1)*10^9 |
| `CacheSpec.NameIndex` | src/netmon-go/internal/dnscache/cache.go:91-96 | the first name equal up to ASCII case, or none |
| `CacheSpec.RecordIndex` | src/netmon-go/internal/dnscache/cache.go:46-52 | the first entry with the key, or none |
| `CacheSpec.Victim` | src/netmon-go/internal/dnscache/cache.go:65-72 | the lowest slot of minimal touch time, even if all are 2^64-1 |
| `CacheSpec.RunWf` | src/netmon-go/internal/dnscache/cache.go:55-121 | in every run: at most capacity entries, distinct keys on the family's address prefix, 1 to 8 non-empty names of at most 253 characters, pairwise different up to case |
| `CacheSpec.RunBounds` | src/netmon-go/internal/dnscache/cache.go:55-121 | the same in numbers: 4 or 16 address bytes, 1 to 8 names of 1 to 253 characters |
| `CacheSpec.PruneNamesMembers` | src/netmon-go/internal/dnscache/cache.go:109-115 | pruning keeps exactly the names that expire later |
| `CacheSpec.PruneTwice` | src/netmon-go/internal/dnscache/cache.go:105-121 | pruning at a and then at b is pruning at the later of the two |
| `CacheSpec.PruneHolds` | src/netmon-go/internal/dnscache/cache.go:105-121 | after a prune a name is held with an expiry iff it was before and the expiry is later |
| `CacheSpec.PutHoldsNew` | src/netmon-go/internal/dnscache/cache.go:84-102 | a put name is held with the new expiry, whether refreshed, added or rotated in |
| `CacheSpec.PutHoldsOnlyIf` | src/netmon-go/internal/dnscache/cache.go:62-102 | a put adds nothing but its own name to its own key: nothing leaks from a reused slot |
| `CacheSpec.PutHoldsOther` | src/netmon-go/internal/dnscache/cache.go:62-102 | when a put leaves another name in place |
| `CacheSpec.HeldWasLastPut` | src/netmon-go/internal/dnscache/cache.go:41-121 | in every run, a name held for a key has the expiry of the last put of that name on that key |
| `CacheSpec.NoEvictionWithinCaps` | src/netmon-go/internal/dnscache/cache.go:62-102 | with at most capacity keys and 8 names a key in the log, no put evicts or rotates |
| `CacheSpec.LastPutIsHeld` | src/netmon-go/internal/dnscache/cache.go:55-121 | within the caps, a last put is held until a prune reaches its expiry |
| `CacheSpec.CacheRefinesLog` | src/netmon-go/internal/dnscache/cache.go:41-121 | within the caps and if no earlier prune was later: after Prune(t) a key holds exactly the names whose last put expires after t, with those expiries |
| `CacheSpec.TouchedIsLastPut` | src/netmon-go/internal/dnscache/cache.go:84-84 | in every run the touch time of an entry is that of the last put on its key |
| `CacheSpec.EvictionNeedsCapacityKeys` | src/netmon-go/internal/dnscache/cache.go:62-84 | whatever the clocks did, when a put evicts an entry touched at t, the newcomer and the other keys put at or after t number at least capacity; without counting the newcomer extra, if it is not stamped before t |
| `CacheSpec.RetainedUnlessCrowdedOut` | src/netmon-go/internal/dnscache/cache.go:62-121 | with puts in time order the name last put on a key at t is still held unless it expired or capacity other keys were put at times t or later |
| `CacheNames.PrunedNames` | src/netmon-go/internal/dnscache/cache.go:105-121 | a prune filters the names of each key and loses none of the rest |
| `CacheNames.InsertionIsAPut` | src/netmon-go/internal/dnscache/cache.go:91-102 | the insertion time of a name a key has is a put of it on the key, when the key had it not |
| `CacheNames.HadEverSince` | src/netmon-go/internal/dnscache/cache.go:91-121 | and the key has had it after every operation since |
| `CacheNames.NamesInInsertionOrder` | src/netmon-go/internal/dnscache/cache.go:91-121 | in every run the names of a key stand in the order of insertion, and a refresh keeps the position |
| `CacheNames.SpelledAsInserted` | src/netmon-go/internal/dnscache/cache.go:91-102 | every name is spelled as it was inserted; a refresh in another case leaves the spelling |
| `CacheNames.RotationKeepsOrCrowdsOut` | src/netmon-go/internal/dnscache/cache.go:97-102 | a put on the same key keeps a name, or eight other names were put on the key since it was inserted |
| `CacheNames.EvictionKeepsOrCrowdsOut` | src/netmon-go/internal/dnscache/cache.go:62-82 | a put on another key keeps a name, or capacity other keys were put at or after the key's last put |
| `CacheNames.NameRetainedUnlessCrowdedOut` | src/netmon-go/internal/dnscache/cache.go:55-121 | with puts in time order every name last put on a key at t is still held, unless it expired, or capacity other keys were put at times t or later, or eight other names were put on the key since it was inserted |
| `Cache.Cache.constructor` | src/netmon-go/internal/dnscache/cache.go:33-35 | an empty cache with its own storage |
| `Cache.Cache.Count` | src/netmon-go/internal/dnscache/cache.go:37-39 | the number of entries |
| `Cache.Cache.Find` | src/netmon-go/internal/dnscache/cache.go:41-53 | the entry of the key, nothing for an unknown family or a short address |
| `Cache.Cache.OldestSlot` | src/netmon-go/internal/dnscache/cache.go:65-72 | the search loop finds the victim of the specification |
| `Cache.Cache.SlotFor` | src/netmon-go/internal/dnscache/cache.go:62-82 | found, reset or appended slot, with every other entry unchanged |
| `Cache.Cache.RotateName` | src/netmon-go/internal/dnscache/cache.go:101-102 | the overlapping copy drops the first name and appends the new one |
| `Cache.Cache.StoreName` | src/netmon-go/internal/dnscache/cache.go:91-102 | refresh keeps the position, otherwise append or rotate |
| `Cache.Cache.Put` | src/netmon-go/internal/dnscache/cache.go:55-103 | does what the log says, and keeps the name arrays of live entries apart |
| `Cache.Cache.CompactNames` | src/netmon-go/internal/dnscache/cache.go:109-115 | compaction in the same array gives the order-preserving filter |
| `Cache.Cache.PruneSlot` | src/netmon-go/internal/dnscache/cache.go:107-119 | one round of the outer compaction, with stale headers left behind the kept entries |
| `Cache.Cache.Prune` | src/netmon-go/internal/dnscache/cache.go:105-121 | the double compaction gives exactly the filtered entries and keeps the name arrays of live entries apart |
| `Cache.PlacedThenStored` | src/netmon-go/internal/dnscache/cache.go:62-102 | finding a slot and then storing the name is the put of the specification |
| `Dns.EqualFoldClean` | src/netmon-go/internal/dnscache/dns.go:69-87 | true iff the names are equal up to ASCII case |
| `Dns.CollectCNAMEs` | src/netmon-go/internal/dnscache/dns.go:24-35 | the first 32 admissible CNAME records, cleaned |
| `Dns.InsertCNAMEs` | src/netmon-go/internal/dnscache/dns.go:56-67 | puts each alias of the owner, one hop, with the smaller of the two lifetimes |
| `Dns.ParseResponse` | src/netmon-go/internal/dnscache/dns.go:11-54 | rejects without touching the cache, or counts the address records and applies the response's puts |
| `Dns.CnamesAreTheFirst` | src/netmon-go/internal/dnscache/dns.go:24-35 | the CNAME records considered are the first 32 whose alias and target have at most 253 characters |
| `Dns.AddressCountIs` | src/netmon-go/internal/dnscache/dns.go:37-51 | the number reported is that of the A and AAAA records |
| `Dns.OwnerIsAttributed` | src/netmon-go/internal/dnscache/dns.go:39-49 | an A or AAAA record attributes its owner, without a final dot, to its address |
| `Dns.AliasIsAttributed` | src/netmon-go/internal/dnscache/dns.go:56-67 | and every alias one hop away, until the smaller of the two lifetimes ends |
| `Dns.AttributedByRecord` | src/netmon-go/internal/dnscache/dns.go:38-51 | nothing is attributed but by an address record of the family with exactly the address bytes |
| `Dns.HeldIsAttributed` | src/netmon-go/internal/dnscache/dns.go:24-67 | from an empty cache everything held is attributed by the response, with or without overflow |
| `Dns.AttributionIsPut` | src/netmon-go/internal/dnscache/dns.go:24-67 | with at most 32 admissible CNAMEs, everything the response attributes is put |
| `Dns.PutIsAttribution` | src/netmon-go/internal/dnscache/dns.go:37-67 | everything put is attributed by some record or one-hop alias (section 3.6.2 of RFC 1034), expiry included |
| `Dns.AttributionIsExact` | src/netmon-go/internal/dnscache/dns.go:24-67 | within the caps, an address answers to exactly the owners of its records and their one-hop aliases |
| `Dns.NamesIndependentOfOrder` | src/netmon-go/internal/dnscache/dns.go:24-67 | within the caps, the names are the same for every permutation of the answer section |
| `Dns.StoredIsCleanedIff` | src/netmon-go/internal/dnscache/cache.go:55-58 | the second trim changes a cleaned name iff the original ends in two dots |
| `Netmon.QrBit` | src/netmon-go/cmd/netmon/main.go:283-285 | the response bit is the top bit of the byte |
| `Netmon.App.HandleEvent` | src/netmon-go/cmd/netmon/main.go:228-254 | the cache operations and audit lines of one record, ignored records included |
| `Netmon.ResponseIsApplied` | src/netmon-go/cmd/netmon/main.go:234-246 | in every run, a whole, undropped DNS message of at least 12 bytes with the QR bit set that unpacks to a response continues the log with exactly its puts, in order |
| `Netmon.ConnectIsPrinted` | src/netmon-go/cmd/netmon/main.go:247-281 | in every run, a connection of family 2 or 10 yields one line, after a prune at its own time |
| `Netmon.OtherRecordsDoNothing` | src/netmon-go/cmd/netmon/main.go:199-254 | no other record does anything, and the cache is pruned at the clock whenever 30 seconds have gone by on it |
| `Netmon.App.CollectHostnames` | src/netmon-go/cmd/netmon/main.go:262-273 | the names held for the destination, in order |
| `Netmon.App.PrintConnection` | src/netmon-go/cmd/netmon/main.go:256-281 | prunes at the event's own time and lists what is then held; nothing for an unknown family |
| `Netmon.App.Turn` | src/netmon-go/cmd/netmon/main.go:208-221 | one turn of the loop, with the 30-second prune on wrapping time differences |
| `Netmon.App.Poll` | src/netmon-go/cmd/netmon/main.go:199-226 | over every sequence of records, cache and lines are those of the run |
| `Netmon.PutComesFromResponse` | src/netmon-go/cmd/netmon/main.go:234-246 | every put of a run comes from a DNS response that was handed on |
| `Netmon.LineIsPrintedAt` | src/netmon-go/cmd/netmon/main.go:256-281 | every line of a run was printed for a connection record, from the cache pruned at its time |
| `Netmon.HostnamesAreSound` | src/netmon-go/cmd/netmon/main.go:256-273 | each printed hostname was attributed by an earlier response, through an A or AAAA record whose 4 or 16 address bytes are the destination's, in the monitor's container, and expires after the connection |
| `Netmon.HostnamesAreExact` | src/netmon-go/cmd/netmon/main.go:256-273 | within the caps, and if no earlier prune was later, a line lists exactly the names whose last put on the address expires after the connection |
| `Netmon.GivenNameIsListed` | src/netmon-go/cmd/netmon/main.go:228-281 | within the caps, a name that a response gave an address, that no later response gave it again, and that expires after the connection and every prune so far, is on the line of the connection |
| `Netmon.MessageIsWholePayload` | src/netmon-go/cmd/netmon/main.go:234-246 | every message handed to the DNS parser is a whole UDP payload of 12 to 1232 bytes with the QR bit set (section 4.1.1 of RFC 1035) |
| `Netmon.ResponsePayloadIsHandedOn` | src/netmon-go/cmd/netmon/main.go:234-246 | and every such payload on port 53 is handed on, byte for byte |
| `AuditLine.ScanMatches` | src/visualization/server.js:110-111 | the left-to-right scan that resumes behind each match finds exactly the positions where the pattern matches |
| `AuditLine.WordCharacters` | src/visualization/server.js:111-111 | the characters of identifiers, listed |
| `AuditLine.SpaceCharacters` | src/visualization/server.js:111-118 | the characters that count as white space, listed |
| `AuditLine.TypeNames` | src/visualization/server.js:83-83 | type names are of capital letters only |
| `AuditLine.MatchesApart` | src/visualization/server.js:110-118 | successive matches do not overlap |
| `AuditLine.ParseFields` | src/visualization/server.js:110-122 | the loop gives the fields of the text, a later one replacing an earlier one of its name |
| `AuditLine.FieldIsRead` | src/visualization/server.js:114-119 | whatever text comes before, a further field adds its value or replaces the earlier one of its key |
| `AuditLine.CleanIff` | src/visualization/server.js:110-119 | clean means trimmed and without white space that an identifier and = follow |
| `AuditLine.RoundTrip` | src/visualization/server.js:110-122 | printed fields with clean values are read back as exactly the same map |
| `AuditLine.RoundTripIff` | src/visualization/server.js:110-122 | and only those: the round trip holds iff every value is clean |
| `AuditLine.ParsedIsClean` | src/visualization/server.js:114-119 | every value the server stores is trimmed and hides no further field |
| `AuditLine.LineIsSplit` | src/visualization/server.js:78-93 | a type name, a space and the rest are split at that space |
| `AuditLine.LineRoundTripIff` | src/visualization/server.js:78-93 | a printed line is read back with its type and fields iff every value is clean |
| `AuditLine.TypeShownIff` | src/visualization/server.js:88-93 | the event is shown under the line's type iff no field named `type` has another value |
| `AuditLine.ConnectKeysAreGood` | src/netmon-go/cmd/netmon/main.go:278-280 | the keys of a CONNECT line are distinct identifiers |
| `AuditLine.BodyRoundTrip` | src/visualization/server.js:53-60 | a request body of printed lines is read back line by line, none lost, merged or added |
| `AuditLine.PostedBodyIsRead` | src/visualization/server.js:53-60 | with white space around the lines, either line ending, and any other lines between them that are empty or do not begin with capital letters and a space, exactly the events of the printed lines are stored |
| `Replication.ReceiveRetells` | src/visualization/public/app.js:81-104 | every frame moves on what the dashboard was told, and what it knows still ends like its snapshot, the queue that met, and what came since |
| `Replication.ToggleIsTidy` | src/visualization/public/app.js:52-61 | pausing and resuming keep the newest events known |
| `Replication.NextKeepsTrack` | src/visualization/server.js:40-76 | every step of the system keeps the invariant of every dashboard with its frames in flight |
| `Replication.RunKeepsTrack` | src/visualization/server.js:40-76 | so it holds in every run |
| `Replication.CapsAre` | src/visualization/public/app.js:112-114 | the smaller cap is that of MAX_EVENTS and 5000, and no frame leaves more than 5000 events shown |
| `Replication.SettledDashboards` | src/visualization/public/app.js:81-114 | in every run, once a connected dashboard has received what is in flight, it knows the newest of snapshot, queue and later events, and the log ends like snapshot and later events |
| `Replication.ConnectedDashboardsConverge` | src/visualization/public/app.js:81-114 | so it knows the log's newest events, up to the smaller cap, if its last snapshot met no queue |
| `Replication.SnapshotOverQueueIff` | src/visualization/public/app.js:81-96 | a queue under a snapshot does no harm, whatever came later, iff queue and later events by themselves fill the cap with the right events |
| `Replication.ConvergenceIff` | src/visualization/public/app.js:81-114 | in every run of distinct events a settled dashboard agrees with the log iff its last snapshot met no queue, or the queue it met and the events since are the log's newest |
| `Replication.NewEventsRepair` | src/visualization/public/app.js:87-96 | as many new events as the cap repair every dashboard |
| `Replication.ReconnectWhilePausedBreaks` | src/visualization/public/app.js:81-86 | eight steps after which one logged event is known twice |
| `LiveStream.Server.Broadcast` | src/visualization/server.js:130-135 | every client gets the frame once, after what it got before |
| `LiveStream.Server.Post` | src/visualization/server.js:62-69 | rejects an empty batch, else keeps the newest events, broadcasts the batch and reports both numbers |
| `LiveStream.Server.Delete` | src/visualization/server.js:72-76 | empties the log and broadcasts it |
| `LiveStream.Server.Connect` | src/visualization/server.js:33-51 | the first frame of a client is the snapshot of the log it joins |
| `LiveStream.Server.Close` | src/visualization/server.js:47-50 | the client, and no other, leaves the broadcast |
| `LiveStream.OrderlyIsFresh` | src/visualization/public/app.js:67-118 | in every page order that loads the log first and opens streams with a snapshot, a current stamp means a current index |
| `LiveStream.RenderUsesCurrentEvents` | src/visualization/public/app.js:374-380 | then every rendering uses an index built from the events it shows |
| `LiveStream.LateLoadIsFreshIff` | src/visualization/public/app.js:71-75 | a load after a rendering leaves the index fresh iff it brings back the events the index was built from |
| `LiveStream.Dashboard.OnSnapshot` | src/visualization/public/app.js:81-86 | replaces the events and leaves the queue |
| `LiveStream.Dashboard.OnEvents` | src/visualization/public/app.js:87-96 | appends or queues, and trims in both cases |
| `LiveStream.Dashboard.OnClear` | src/visualization/public/app.js:97-104 | empties events and queue |
| `LiveStream.Dashboard.OnPauseButton` | src/visualization/public/app.js:52-61 | resuming appends the queue, trims and bumps the revision |
| `LiveStream.Dashboard.LoadSnapshot` | src/visualization/public/app.js:71-75 | replaces the events without bumping the revision |
| `LiveStream.Dashboard.GetProcessIdentityIndex` | src/visualization/public/app.js:374-380 | rebuilds iff the stamp is old; from a fresh state the result is the index of the current events |
| `LiveStream.ShowPage` | src/visualization/public/app.js:52-118 | the handlers, run over any orderly sequence of actions, end with a rendering whose index is that of the events shown |
| `LiveSystem.Site.Post` | src/visualization/server.js:53-70 | the server's handler takes the whole system, every client's stream included, through the post step |
| `LiveSystem.Site.Delete` | src/visualization/server.js:72-76 | the same for the delete step |
| `LiveSystem.Site.Load` | src/visualization/public/app.js:67-75 | a new dashboard that fetches the log is the load step |
| `LiveSystem.Site.Connect` | src/visualization/server.js:33-51 | a new stream in place of the old one is the connect step |
| `LiveSystem.Site.Disconnect` | src/visualization/server.js:47-50 | closing a stream is the disconnect step; what was written to it may still arrive |
| `LiveSystem.Site.Deliver` | src/visualization/public/app.js:81-104 | handing the next frame to its handler is the deliver step |
| `LiveSystem.Site.Pause` | src/visualization/public/app.js:52-61 | the pause button is the pause step |
| `LiveSystem.Site.Render` | src/visualization/public/app.js:195-204 | at any time a rendering's index is that of the dashboard's current events |
| `LiveSystem.Perform` | src/visualization/public/app.js:52-118 | over any sequence of steps the handlers carry out the run the convergence theorems speak of |
| `Diverse.CountKeys` | src/visualization/public/app.js:152-153 | the number of events of each key |
| `Diverse.RemoveRedundant` | src/visualization/public/app.js:156-166 | the first pass, position by position, and the removals it leaves |
| `Diverse.RemoveOldest` | src/visualization/public/app.js:168-173 | both passes together give the closed form of the selection |
| `Diverse.DiverseEvents` | src/visualization/public/app.js:148-176 | the selector returns the closed form's events |
| `Diverse.SelectedSizeAndCoverage` | src/visualization/public/app.js:148-176 | exactly min(size, limit) events, covering exactly min(limit, distinct keys) keys |
| `Diverse.CoverageIsMaximal` | src/visualization/public/app.js:158-173 | no selection of at most limit events covers more keys |
| `Diverse.SelectedIsPointwiseNewest` | src/visualization/public/app.js:158-173 | no selection with that coverage keeps more events of any suffix |
| `Diverse.PointwiseNewestIsUnique` | src/visualization/public/app.js:158-173 | which determines the selection |
| `Diverse.NewestOfEveryKeyStays` | src/visualization/public/app.js:158-166 | the newest event of every key stays when the keys fit the limit |
| `Diverse.NarrowInStages` | src/visualization/public/app.js:148-176 | narrowing to m and then to l <= m is narrowing to l |
| `Identity.ScorePrefersIff` | src/visualization/public/app.js:476-488 | of two executables with equal match the one in the earlier of the six directories is preferred; a match makes up for one place among them and ties with two, and never lifts into them or out of /tmp |
| `Identity.ScoreTellsClasses` | src/visualization/public/app.js:476-488 | at least 25 iff in one of the six system directories, negative iff under /tmp, whatever the arguments |
| `Identity.CommandIs` | src/visualization/public/app.js:599-601 | the command is the first word of the arguments |
| `Identity.BasenameIs` | src/visualization/public/app.js:603-606 | the name of a file is what follows its last slash, slashes at the end aside |
| `Identity.BuildProcessIdentityIndex` | src/visualization/public/app.js:436-466 | an identity for exactly the processes with an execution or a name: the first execution of the best score, else the first name |
| `Identity.IndexPrefers` | src/visualization/public/app.js:436-458 | a process that executed something is identified by an executable preferred to all its others, or the first of those between which nothing is preferred |
| `Identity.UnknownProcess` | src/visualization/public/app.js:468-474 | an event of a process that is not in the index is named by its activity, else by its command, else by its file, else by its process id |
| `Identity.IndexIsUnique` | src/visualization/public/app.js:436-466 | that determines the index |
| `Identity.SameProcessSameIdentity` | src/visualization/public/app.js:468-474 | retained events of one process share one identity, unless none of them names it |
| `Identity.NewEventChangesOneIdentity` | src/visualization/public/app.js:441-451 | a known process changes identity only by its own execution, one that scores strictly more than all before |
| `Identity.NewEventPrefers` | src/visualization/public/app.js:441-451 | that is, one preferred to all before |
| `JsStrings.LastIndexOf` | src/visualization/public/app.js:611-611 | the last position of the character |
| `JsStrings.SortMembers` | src/visualization/public/app.js:534-534 | sorting a set's elements keeps each once |
| `JsStrings.SortSorts` | src/visualization/public/app.js:534-534 | sorted by code unit, a permutation |
| `Paths.ParentIsNormal` | src/visualization/public/app.js:608-615 | every parent directory has single slashes and none at the end, unless it is the root |
| `Paths.ParentOfChild` | src/visualization/public/app.js:608-615 | a name directly below a directory has that directory as its parent |
| `Paths.OtherParents` | src/visualization/public/app.js:608-615 | the parents of the empty name, of a relative name and of a name below the root; repeated slashes and one at the end do not matter |
| `Paths.RootsParent` | src/visualization/public/app.js:608-615 | the parent of the root is `.` |
| `Paths.LiftClimbs` | src/visualization/public/app.js:515-517 | a lift changes nothing or lowers the depth |
| `Paths.LiftIs` | src/visualization/public/app.js:515-516 | one round takes a directory to its parent, except that one directly below the root stays; relative names end at `.` |
| `Paths.AbsoluteStaysBelowRoot` | src/visualization/public/app.js:512-522 | an absolute directory ends at itself or a proper ancestor, never `/` or `.` |
| `Rollup.LiftingClimbs` | src/visualization/public/app.js:512-522 | the sum of depths falls in every round that changes something |
| `Rollup.LiftingMerges` | src/visualization/public/app.js:512-522 | more rounds never give more directories |
| `Rollup.LiftAll` | src/visualization/public/app.js:514-519 | one round lifts every directory, and reports a change iff there was one |
| `Rollup.LiftDirectories` | src/visualization/public/app.js:508-522 | ends with all directories lifted k times, k the least number that leaves at most twelve, or at a fixpoint |
| `Rollup.StoppingPlaceIsUnique` | src/visualization/public/app.js:512-522 | which determines where every directory ends |
| `Rollup.StopsAtTwelve` | src/visualization/public/app.js:512-522 | before lifting stops more than twelve directories are left, and if more than twelve remain none can be lifted |
| `Rollup.PromoteFiles` | src/visualization/public/app.js:535-546 | each file in order, tried and taken back above eight targets |
| `Rollup.AllPromoted` | src/visualization/public/app.js:540-546 | at most eight files are all promoted, whatever their names |
| `Rollup.PromotionIsMaximal` | src/visualization/public/app.js:533-546 | from fewer than eight directories: at most eight targets, and if there are at most eight files or none is named like a target directory, a file not promoted means exactly eight targets and another unpromoted file of its directory |
| `Collisions.CollisionWastesATarget` | src/visualization/public/app.js:540-546 | nine or more files, the last named like the directory of the others: all but six of them are refused, and yet only seven targets are shown |
| `Collisions.CollisionArises` | src/visualization/public/app.js:533-546 | nine real paths for which that happens |
| `Collisions.NestedIsNotMaximal` | src/visualization/public/app.js:540-546 | nine or more files, the eighth named like the directory of those after it: eight targets are shown, and the seventh file is left alone under its directory |
| `Collisions.NestedFilesMissAPromotion` | src/visualization/public/app.js:508-546 | for every n from nine on, n ordinary paths below `/a`, with their own directories, for which that happens |
| `Collisions.SmallGroupsPromoteMaximally` | src/visualization/public/app.js:508-546 | every group of at most eight files promotes maximally |
| `Collisions.SmallGroupsShowEveryFile` | src/visualization/public/app.js:490-582 | with at most eight files and fewer than eight directories left, the table shows every file as itself |
| `Collisions.PromotionIsMaximalIff` | src/visualization/public/app.js:508-546 | all groups of n files with fewer than eight directories left promote maximally iff n is at most eight |
| `Rollup.GroupAccesses` | src/visualization/public/app.js:494-505 | the files and parent directories of every process and access type, each once |
| `Rollup.FilesAreAccessed` | src/visualization/public/app.js:494-505 | the files of a process and type are exactly the path, or else the file, or else `unknown file`, of its RO or RW events |
| `Rollup.RollGroup` | src/visualization/public/app.js:508-562 | the entries of one group, and no other group's |
| `Rollup.BuildAccessDirectoryRollups` | src/visualization/public/app.js:490-565 | every group of the events is rolled up, with an entry for each of its directories, and no other group has any |
| `Rollup.EveryAccessIsFound` | src/visualization/public/app.js:567-582 | every event of type RO or RW finds an entry for its process, type and file, in a group of exactly the files its process accessed that way, so the fallback is never taken |
| `Rollup.EntriesComeFromAccesses` | src/visualization/public/app.js:494-561 | every entry of the table comes from such an event: no other event contributes anything |
| `Rollup.ManyDirectoriesShowNoFiles` | src/visualization/public/app.js:524-533 | with eight or more directories left every file is shown under its lifted directory |
| `Rollup.FewDirectoriesShowFiles` | src/visualization/public/app.js:533-582 | the targets drawn for a group with few directories are the maximal promotion |
| `Rollup.TargetsAreBounded` | src/visualization/public/app.js:490-582 | a group draws at most twelve targets, unless more directories remain at the fixpoint; each is the file or its lifted directory |
| `Components.LabelsAreRoots` | src/visualization/public/app.js:401-410 | every node's label is the root its parent links lead to, however they have been compressed |
| `Components.DisjointSets.FindRoot` | src/visualization/public/app.js:402-403 | the first loop ends at the root |
| `Components.DisjointSets.Compress` | src/visualization/public/app.js:404-408 | redirecting one node changes no label |
| `Components.DisjointSets.Find` | src/visualization/public/app.js:401-410 | terminates with the node's label; compression leaves every label as it was |
| `Components.DisjointSets.Union` | src/visualization/public/app.js:412-416 | exactly the labels of the two sets become one |
| `Components.HangKeepsForest` | src/visualization/public/app.js:415-415 | hanging one root under another keeps the links acyclic |
| `Components.DisjointSets.UnionAll` | src/visualization/public/app.js:412-416 | after all links two nodes have one label iff a path of links joins them |
| `Components.TracksIsConnectivity` | src/visualization/public/app.js:399-416 | the invariant of the loop means connectivity |
| `Components.GroupNodes` | src/visualization/public/app.js:418-419 | groups by label, in order of first appearance |
| `Components.GroupsSplit` | src/visualization/public/app.js:418-419 | the groups cover the nodes, and two nodes share one iff they share a label |
| `Components.SortSorts` | src/visualization/public/app.js:420-420 | larger groups first, a permutation of the groups |
| `Components.SortInOrder` | src/visualization/public/app.js:420-420 | and groups of one size stay in order of appearance |
| `Components.ColumnsFor` | src/visualization/public/app.js:421-421 | the least number of columns, at least one, whose square reaches count * width / height |
| `Components.CellsAreApart` | src/visualization/public/app.js:424-428 | different components get different centres |
| `Components.CellInside` | src/visualization/public/app.js:424-428 | every centre is strictly inside the canvas |
| `Components.AssignComponentCenters` | src/visualization/public/app.js:399-434 | component i, in order of decreasing size and then of first appearance, is centred in the i-th cell, row by row, of a grid with the least columns whose square times the height reaches n times the width, and as many rows as needed; so two nodes get the same centre iff they are connected, and every centre is inside the canvas |
| `CompactPath.OverflowMeansShortFilename` | src/visualization/public/app.js:758-765 | the last branch is reached only with a file part of at most 14 characters |
| `CompactPath.CompactPathFits` | src/visualization/public/app.js:748-769 | for every string and maxLength >= 23 the result has at most maxLength characters |
| `CompactPath.CompactPathFitsIff` | src/visualization/public/app.js:748-769 | and 23 is exact: below it some string overflows |
| `CompactPath.CompactPathKeeps` | src/visualization/public/app.js:748-769 | short strings are unchanged; others keep a prefix of the parent and of the stem, at least 3 characters where there are as many, and the extension |
| `CompactPath.SlashesSeparate` | src/visualization/public/app.js:750-750 | leading, trailing and repeated slashes make no segment |
| `CompactPath.ExtensionIs` | src/visualization/public/app.js:754-755 | an extension is at most nine characters behind the last dot, if that is not the first character |
| `CompactPath.PairIsTight` | src/visualization/public/app.js:752-766 | from 23 on the shortened pair is all of it if there is room to spare, and exactly maxLength long if not all fits; one that would just fit is starred in place of a letter |
| `CompactPath.CompactPathIsTight` | src/visualization/public/app.js:748-769 | so is the label of several segments; one of a single segment is its beginning and an ellipsis |

## Left out

- Dashboard user interface: d3 drawing, force simulation, zoom, tables, text filters.
- Sockets: Fastify, server-sent event encoding and keepalives; a client is the ordered sequence of frames written to it.
- Probe plumbing: loading and attaching eBPF programs, the ring buffer (a reservation succeeds or fails as an input), the byte layout of its records (records are values here), signals, the cgroup identity check.
- Clocks: every time is an input.
- DNS wire format below the header: `Unpack` of the DNS library is a parameter of `Netmon.Config` that returns decoded records or fails.
- Non-ASCII names: `EqualFold` folds Unicode; the model folds ASCII only.
- Growth of Go slices: `Cache.Grow` goes from n to 2n + 1; how much `append` over-allocates does not matter to any contract.
- JavaScript numbers, dates and ids: `toNumber`, `normalizeTimestamp`, random event ids, keys such as `__proto__`; strings are sequences of characters, not UTF-16 units, and process ids are natural numbers with 0 for a missing one.
- The regular expression engine: the field pattern is an explicit scanner.
- Rollup keys joined by colons: `Rollup.RollupKey` is a tuple, as the joined strings are not injective; the events carry their process identity.
- Assignments that change nothing: the second `aggregated = true` (app.js:556-560) sets what is already set.
- Labels of graph targets: only their keys are modelled.
- The text of numbers, times and addresses in a CONNECT line: `AuditLine.ConnectFields` takes them as strings.
- `eventRelationshipKey`: `Diverse.DiverseEvents` takes any key function.
- Floating point: `Components.ColumnsFor` and the centres are computed over the reals, and the ceiling of a square root by search.
- `CacheSpec.CacheRefinesLog`: needs the two caps, because beyond them the cache forgets by design; `HeldWasLastPut` and `NameRetainedUnlessCrowdedOut` cover that case.
- `Replication.ConvergenceIff`: needs events that do not repeat, which the server's random ids make likely but not certain; `SettledDashboards` needs nothing.
