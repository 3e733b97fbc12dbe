# Nexus network monitor: verified models

These Dafny modules model the logic of the collectors of a network monitor and
prove what they are for: a concurrent discovery crawl and its link resolution, a
hand-written SNMP agent, ping debouncing, a worker pool, the supervisor of the
polling threads, vendor source selection, and the decoders for QoS, VLANs, link
aggregation and spanning tree.

- `Crawl`, `CrawlTheorems`: the crawl as an interleaved step system (one step per
  critical section or thread operation), its invariants, and the theorems over
  all schedules.
- `Text`, `Devices`, `Links`: the per-device maps built from SNMP tables, in the
  class that updates them, and the resolution of announcements to links.
- `Ber`, `Response`, `Mib`, `Bulk`: the BER encoder against a decoder written
  from X.690 and RFC 3416, and GETBULK against repeated GETNEXT.
- `Pinger`: the debouncing step against a closed form over whole traces.
- `Climb`, `Qos`, `QosOrder`, `LastWrites`: the QoS join, the bounded parent climb
  against the unbounded one, when the iteration order shows, and the cache of
  negative probes.
- `Pool`, `PollerThreads`, `PollMerge`: the bounded pool and the thread supervisor
  over all runs, and the merge of poll tables.
- `Vendors`: preferred-order probing with a winner cache over call histories.
- `Bitmaps`, `Vlan`, `VlanInventory`, `VlanTotals`, `Lag`: the membership decoders
  and the conservation of port counts.
- `Stp`, `StpRoundTrip`, `StpEntity`, `Rpvst`: flattening to labelled samples and
  back, and the HP tables that feed it.
- `Options`, `Snmp`, `Sorting`: shared values, SNMP rows, stable sorting.

How the source maps to the models: objects that update fields are classes with
those fields; loops are methods proved equal to a function of their inputs, and
the results are proved about that function. Hash-map iteration is an arbitrary
order unless the source sorts. A struct passed as `&mut` is an input and a result
value. SNMP tables are sequences of rows; column names drop their MIB prefix.
Name resolution, SNMP answers, device answers, arrival of finish signals and
instants are parameters, fixed or arbitrary as the source allows. A mutex that
guards one critical section makes that section one step.

Where the code and its comments differ, the models follow the code:

- nexus/src/collectors/pinger.rs:216-219 promises that after a pause each first
  observation is reported; reconciling seeds from the last known state, so it is
  reported exactly when none was known at the tick that took the device up again
  (`Pinger.ResumeReportsIffUnknown`); `Pinger.ResumeCanStaySilent` gives a run
  without the report.
- nexus/src/collectors/qos.rs:235 promises a deterministic order; it is one exactly
  when classes that tie in the four sort keys are equal
  (`Qos.OrderDoesNotShowIffTiesAreEqual`, and `QosOrder.OrderDoesNotShowIffRowsAgree`
  in terms of table rows); `QosOrder.OrderCanShow` gives tables where it shows.
- nexus/src/collectors/vlanpoller.rs:39 promises sorted tagged lists without
  repeats; for a Cisco trunk this holds exactly when the active, non-native parts
  of its bitmaps stay apart (`Vlan.TaggedIncreasingHere`, and `Vlan.TaggedIncreasingIff`
  for all active sets); in `Vlan.OversizedBitmapRepeats` a decoded list repeats a VLAN.
- A GET of a missing object answers endOfMibView, not noSuchObject; and a name's
  first two components go through `40 * a + b` in wrapping 64-bit arithmetic (as in
  a release build), so only proper object identifiers read back
  (`Response.OidRoundTripsIffValid`); `Response.ImproperNameChanges` gives
  names that read back as others.

## Model

| member | source | states |
|---|---|---|
| Crawl.GatherNeighbours | nexus/src/collectors/discovery.rs:826-848 | The list a worker gathers holds exactly the resolved, non-ignored neighbours of its device, each once; a single-device run gathers none |
| Crawl.AccountedStep | nexus/src/collectors/discovery.rs:742-765 | Every step keeps: a spawned worker's handle has been pushed exactly once, or is still held by the older actor that spawned it |
| Crawl.ClaimsStep | nexus/src/collectors/discovery.rs:742-751 | Every step keeps: in-flight devices and spawned or about-to-be-spawned devices correspond one to one |
| Crawl.OutcomesStep | nexus/src/collectors/discovery.rs:803-861 | Every step keeps: a device is recorded as detected or failed exactly according to its answer, once its own worker has left collecting and not before |
| Crawl.WithinStep | nexus/src/collectors/discovery.rs:742-751 | Every step stays inside any set that is closed under neighbours and holds the root |
| CrawlTheorems.AllJoined | nexus/src/collectors/discovery.rs:753-765 | When the handle list is empty at a drain, every worker is finished and joined: induction down the spawn tree, since children are spawned before their handles are pushed |
| CrawlTheorems.Quiescence | nexus/src/collectors/discovery.rs:1076-1089 | In every interleaving, when the join loop leaves, every spawned worker has finished and been joined exactly once, no handle is left, nobody is about to spawn or push, and no step is possible |
| CrawlTheorems.CrawlResult | nexus/src/collectors/discovery.rs:742-861 | Every complete run visits exactly the least set with the root closed under resolved, non-ignored neighbours of answering devices, spawns one worker for each, and detected and failed devices partition it |
| CrawlTheorems.Confluence | nexus/src/collectors/discovery.rs:742-861 | All complete schedules end with the same in-flight, detected and failed sets |
| CrawlTheorems.SingleDeviceStaysAtRoot | nexus/src/collectors/discovery.rs:826-848 | A single-device run never leaves the root and spawns one worker |
| CrawlTheorems.Termination | nexus/src/collectors/discovery.rs:742-861 | No schedule takes more than (3n + 8)n + 5 steps, n being the number of resolvable devices and the root |
| CrawlTheorems.Progress | nexus/src/collectors/discovery.rs:1076-1089 | Until the supervisor has left its loop some step is possible, so a join never waits in vain |
| Text.TryUnhexAscii | nexus/src/collectors/discovery.rs:138-157 | The loop computes the ASCII text that pairs of hex digits spell, nothing for an empty, odd or malformed string |
| Text.UnhexUndoesHex | nexus/src/collectors/discovery.rs:138-157 | The decoder gives back any ASCII text from its hex spelling, except the empty one, which it takes for no spelling |
| Text.UnhexIgnoresSpace | nexus/src/collectors/discovery.rs:138-157 | White space between the digits does not matter |
| Text.UnhexSkipsOctet | nexus/src/collectors/discovery.rs:138-157 | Octets beyond ASCII are left out |
| Text.TrimIs | nexus/src/collectors/discovery.rs:352-357 | Trimming takes white space from both ends and nothing else |
| Devices.DetectedDevice.MergeIfmibEntry | nexus/src/collectors/discovery.rs:311-326 | One row creates or updates its interface and keeps every interface under its own number |
| Devices.MergedColumns | nexus/src/collectors/discovery.rs:291-326 | After both tables, the interfaces are exactly the ifIndexes that occur, and each column holds the last value given for it |
| Devices.DetectedDevice.BuildAnythingToInterface | nexus/src/collectors/discovery.rs:335-373 | The name map is the one registered in ascending interface order, and leads only to interfaces |
| Devices.WhoOwnsText | nexus/src/collectors/discovery.rs:335-373 | An alias, name or description leads to the highest-numbered interface that carries it, even against a MAC address; any other key is a spelling of the MAC address of the interface it leads to |
| Devices.FirstMacWins | nexus/src/collectors/discovery.rs:335-373 | The first interface with a MAC address owns its spelling as given and its colon form, unless these are some interface's text; later owners of the address change nothing |
| Devices.DetectedDevice.FindDuplicateMacs | nexus/src/collectors/discovery.rs:389-407 | The vendor bug is set exactly when two MAC-identified local ports share an id |
| Devices.DetectedDevice.HandleLldpLocPortTable | nexus/src/collectors/discovery.rs:388-433 | Local ports map to the target of the last row about them: the strongest guess of that row; local descriptions map to existing interfaces; all targets are interfaces |
| Devices.LocalPortTarget | nexus/src/collectors/discovery.rs:411-481 | In terms of the rows: a MAC port goes to the owner of its address when addresses do not repeat and it has one, else to its own number; a local or named port to the interface its hex spelling numbers, then the spelled-out Ethernet name, then the decoded name, then the id; any other port by its id; a row that leads nowhere leaves earlier rows in force |
| Devices.LocalIdTarget | nexus/src/collectors/discovery.rs:421-428 | A local id leads to the interface that the last local row with that id numbers in its description |
| Devices.DetectedDevice.MapMacPort | nexus/src/collectors/discovery.rs:435-453 | A MAC-identified port goes to the owner of the address, or to the interface of its own number when addresses repeat or are unknown |
| Devices.DetectedDevice.MapIdUsingAnything | nexus/src/collectors/discovery.rs:455-481 | A hex-spelled port id goes to the interface it numbers, else to the spelled-out Ethernet name, else to the decoded name |
| Devices.DetectedDevice.HandleLldpRemTable | nexus/src/collectors/discovery.rs:483-538 | Each announcement with a name lands on exactly the interface of its row, in row order; other interface fields do not change |
| Devices.AnnouncementOfRow | nexus/src/collectors/discovery.rs:483-538 | One row announces its four columns on the interface of its local port, else of the port's own number, or on the parent of a ".0" interface; a blank system name announces nothing |
| Devices.AnnouncedInOrder | nexus/src/collectors/discovery.rs:483-538 | Announcements of later rows follow those of earlier ones |
| Devices.DetectedDevice.HandleCdpCacheTable | nexus/src/collectors/discovery.rs:540-559 | Each interface gets the last CDP row about it; other fields do not change |
| Devices.CollectedColumns | nexus/src/collectors/discovery.rs:279-309 | A collected interface, column by column: the last IF-MIB values, the description for a missing name, "other" for a missing type, its own announcements in row order and its last CDP row |
| Devices.DetectedDevice.Collect | nexus/src/collectors/discovery.rs:279-309 | Collection succeeds exactly when both IF-MIB tables answer, whatever other tables do; it fixes all maps, which lead only to interfaces |
| Devices.DetectedDevice.View | nexus/src/collectors/discovery.rs:209-224 | A collected device presents link resolution a valid view: all maps lead to existing interfaces that know their numbers |
| Links.LookupLldpNeighbour | nexus/src/collectors/discovery.rs:874-888 | A descriptor means the crawled device its name resolves to, else the first device with its chassis id |
| Links.NeighbourIs | nexus/src/collectors/discovery.rs:874-888 | The name decides when it resolves to a crawled device, and otherwise the first device in map order whose chassis id is the announced one, spaces counting as colons |
| Links.LookupLldpNeighbourPort | nexus/src/collectors/discovery.rs:890-943 | The direct lookup, else the first interface of the neighbour that points back at this very port, else the only interface that points back at this device |
| Links.FindReversePort | nexus/src/collectors/discovery.rs:904-942 | The loop over the neighbour's interfaces computes the reverse lookup, stopping at the first exact match |
| Links.ReversePortIs | nexus/src/collectors/discovery.rs:900-943 | Looking back finds an interface that points at this very port whenever there is one, and otherwise exactly the only interface that points at this device |
| Links.UniqueNameFound | nexus/src/collectors/discovery.rs:643-661 | A port id that is the text of exactly one interface, or the hex spelling of such a text, finds that interface |
| Links.LookBack | nexus/src/collectors/discovery.rs:909-925 | One interface's descriptors: whether any means the device, and whether one leads to the port |
| Links.FindLink | nexus/src/collectors/discovery.rs:956-988 | The first LLDP descriptor that leads to a port wins, CDP only when none does |
| Links.LldpDecides | nexus/src/collectors/discovery.rs:953-990 | The first descriptor that leads to a port decides, whatever CDP says |
| Links.CdpDecides | nexus/src/collectors/discovery.rs:956-990 | A port whose descriptors lead nowhere is linked to interface i of g if and only if its CDP name resolves to the crawled device g and g registered the CDP port name for i |
| Links.BuildConnections | nexus/src/collectors/discovery.rs:953-1000 | The link map holds exactly the ports with a link, each with its own, and no empty device map, whatever the iteration order |
| Links.ReferentialIntegrity | nexus/src/collectors/discovery.rs:890-1000 | For any tables, every link leads to an existing interface of a crawled device |
| Links.CollectedLinksExist | nexus/src/collectors/discovery.rs:209-1000 | End to end: the devices that a crawl collected, from any tables, form a valid crawl result, and every link leads to an interface that was collected |
| Links.UncrawledNeverShadow | nexus/src/collectors/discovery.rs:970-987 | Crawls that differ only in descriptors of uncrawled devices, in any number and anywhere, have the same links, through the reverse lookup and the single-reference fallback too |
| Links.InsertedUncrawled | nexus/src/collectors/discovery.rs:970-987 | Inserting one such descriptor at any position of any port is a difference of that kind |
| Links.ReverseMatchIsMutual | nexus/src/collectors/discovery.rs:907-925 | When a port's link was found by looking back at a peer port that sees no crawled device but this one, the peer port links to this device, and to this very port when its descriptors of the device all name it |
| Links.LookingBackLinks | nexus/src/collectors/discovery.rs:907-943 | A link found by looking back leads to the peer interface whose descriptor names this very port |
| Links.NeighbourOrderIff | nexus/src/collectors/discovery.rs:874-888 | A descriptor means the same device in every iteration order if and only if its name decides or at most one crawled device has its chassis id |
| Links.LinkOrderIff | nexus/src/collectors/discovery.rs:874-988 | Among the iteration orders in which each descriptor means the same device, a port's link is always the same if and only if it was not picked among several interfaces that point back at the port |
| Links.OrderDoesNotMatterIff | nexus/src/collectors/discovery.rs:874-988 | When no descriptor has to choose between devices with one chassis id, this holds over all iteration orders |
| Links.OrderCanMatter | nexus/src/collectors/discovery.rs:880-888 | Two devices with one chassis id, and a port whose link follows the order of the device map |
| Ber.EncIntContent | nexus/perf/src/main.rs:146-165 | The trimmed contents are the shortest two's complement of every i64 |
| Ber.TwosComplementDecodes | nexus/perf/src/main.rs:146-165 | These contents read back as the integer (section 8.3 of X.690) |
| Ber.TwosComplementMinimal | nexus/perf/src/main.rs:146-165 | The first nine bits are never all equal (section 8.3.2 of X.690) |
| Ber.EncUintContentCanonical | nexus/perf/src/main.rs:169-181 | For every u64 the unsigned contents are minimal and read back as the value |
| Ber.BerLenShortest | nexus/perf/src/main.rs:123-135 | Lengths up to 127 take one octet, others the fewest length octets (section 8.1.3 of X.690) |
| Ber.EncodeBase128 | nexus/perf/src/main.rs:194-208 | The ten-slot stack never overruns for any u64, and the pushed octets are the base-128 septets in order |
| Response.Base128Reads | nexus/perf/src/main.rs:194-208 | A sub-identifier never starts with 0x80 and reads back (section 8.19.2 of X.690) |
| Response.EncOidContent | nexus/perf/src/main.rs:183-192 | The contents are the septets of the combined first sub-identifier and of all others |
| Response.OidRoundTripsIffValid | nexus/perf/src/main.rs:183-192 | A name reads back if and only if it is a proper object identifier (section 8.19.4 of X.690) without 64-bit overflow |
| Response.ImproperNameChanges | nexus/perf/src/main.rs:183-192 | Under the first arc, names with a second component from 40 to 79 have the encoding of a name under the second arc, and read back as that: 0.40 as 1.0 |
| Response.EncValue | nexus/perf/src/main.rs:210-219 | Each value is encoded under its own tag; EndOfMibView is 0x82 0x00 |
| Response.EncVarbind | nexus/perf/src/main.rs:221-225 | A varbind is the sequence of the encoded name and value |
| Response.ValueReads | nexus/perf/src/main.rs:210-219 | A decoder of section 3 of RFC 3416 reads every value back with its type |
| Response.BuildResponse | nexus/perf/src/main.rs:228-247 | The loop computes the v2c message bytes with version 1, tag 0xa2 and zero error fields |
| Response.MessageReads | nexus/perf/src/main.rs:228-247 | Any message reads back as the community, the request id, no error, and the varbinds under the names a reader sees |
| Response.RoundTripIffValid | nexus/perf/src/main.rs:123-247 | The decoder recovers exactly what was encoded if and only if every name is a proper object identifier |
| Response.EncodingInjective | nexus/perf/src/main.rs:123-247 | No two responses with proper names share an encoding, not even across value types |
| Mib.Build | nexus/perf/src/main.rs:73-104 | The filled tree is exactly the rows of all columns, in key order |
| Mib.CountersCount | nexus/perf/src/main.rs:48-58 | A counter is its base plus the elapsed seconds times its rate, modulo its width |
| Mib.InterfaceName | nexus/perf/src/main.rs:84-93 | An interface is called by the prefix of its column and its number, whose digits read back |
| Mib.GetNextIsLeast | nexus/perf/src/main.rs:107-114 | GETNEXT finds the least key strictly above the name, or nothing exactly when there is none |
| Mib.SuccessorsIterateGetNext | nexus/perf/src/main.rs:107-114 | The range query with its cut is repeated GETNEXT |
| Mib.ColumnRowsComeFirst | nexus/perf/src/main.rs:73-104 | What lies above a column's identifier starts with all its rows in interface order |
| Bulk.BulkResponse | nexus/perf/src/main.rs:259-273 | GETBULK answers whole rounds of repeated GETNEXT, cut after the last round with a real value (section 4.2.3 of RFC 3416, non-repeaters 0) |
| Bulk.Deinterleave | nexus/perf/src/main.rs:259-273 | De-interleaving by column gives for each requested name its repeated GETNEXT, padded with endOfMibView under the last name |
| Bulk.CutIsUnique | nexus/perf/src/main.rs:261-273 | The cut determines the number of rounds |
| Bulk.Walk | nexus/perf/src/main.rs:259-273 | Chained GETBULK with any repetition counts of at least one terminates and shows the entries above the start, one by one |
| Bulk.WalkedKeys | nexus/perf/src/main.rs:259-273 | These are exactly the strictly greater keys, each once, in order |
| Bulk.ExactFinds | nexus/perf/src/main.rs:116-118 | GET finds exactly the entry of the name |
| Bulk.HandleRequest | nexus/perf/src/main.rs:278-316 | Served requests get the bytes of an answer of the simple semantics, others none |
| Bulk.BulkHonoursCount | nexus/perf/src/main.rs:303-312 | A GETBULK answer has the rounds for the count in the error-index slot, one round when that is below one, and never more varbinds than count times names |
| Bulk.BulkOfOneName | nexus/perf/src/main.rs:303-312 | For one name it has as many of the entries above the name as the count asks for and there are, in order, or endOfMibView under the name itself |
| Bulk.IfTableAnswers | nexus/perf/src/main.rs:84-90 | What a reader of ifTable gets for an interface, under the identifiers of RFC 2863 |
| Bulk.IfxTableAnswers | nexus/perf/src/main.rs:92-102 | The same for ifXTable |
| Bulk.AnswerDecodes | nexus/perf/src/main.rs:278-316 | The bytes decode to the request's community and id and exactly the answer's varbinds |
| Bulk.BuiltTreeIsUsable | nexus/perf/src/main.rs:73-104 | The built tree is sorted, has proper names and no endOfMibView objects, as the results above ask |
| Pinger.DebounceClosedForm | nexus/src/collectors/pinger.rs:79-109 | After any non-empty trace the state is the value of the last run of ten equal observations, or the initial one; counters never pass ten |
| Pinger.DebouncedIsUnique | nexus/src/collectors/pinger.rs:79-109 | The closed form determines the state |
| Pinger.ReportsAlternate | nexus/src/collectors/pinger.rs:79-109 | Reports strictly alternate, the last one equals the state, and successive ones are at least ten observations apart |
| Pinger.FirstObservationReported | nexus/src/collectors/pinger.rs:80-84 | An unknown device is reported on its first observation |
| Pinger.TenFlip | nexus/src/collectors/pinger.rs:85-109 | A known state flips, and is reported, on the tenth contrary observation in a row and not before |
| Pinger.ResponsesByFqdn | nexus/src/collectors/pinger.rs:193-201 | For any target list, repeated names included, a device answered as the last of its entries with a reply did, and is absent exactly when none has one |
| Pinger.ObservedAsReplied | nexus/src/collectors/pinger.rs:135-146 | A device is observed as its reply says, and as down without one |
| Pinger.ShardWorker.ReconcileAccounting | nexus/src/collectors/pinger.rs:114-130 | Departed devices are dropped, newcomers seeded from their last known state, others left alone |
| Pinger.NewcomerSeeded | nexus/src/collectors/pinger.rs:114-130 | A newcomer starts from its last known state with nothing counted |
| Pinger.ShardWorker.AdvanceShard | nexus/src/collectors/pinger.rs:135-146 | Every shard device advances by its own observation; the reports are exactly its transitions, in shard order |
| Pinger.DevicesAreIndependent | nexus/src/collectors/pinger.rs:203-268 | Over any ticks, membership changes, pauses and failed sends, a record is the debounced run of exactly that device's observations since it joined |
| Pinger.FleetIsDebounced | nexus/src/collectors/pinger.rs:203-268 | So every monitored device with an observation is in its debounced state |
| Pinger.ResumeReportsIffUnknown | nexus/src/collectors/pinger.rs:216-257 | Over all ticks, quiet ones included: the first observation after a device is taken up, at the start or after a pause, is reported if and only if no state of it was known at the tick that took it up; the comment promises it always |
| Pinger.ResumeCanStaySilent | nexus/src/collectors/pinger.rs:216-232 | A run in which a device that went down during a pause is not reported on resuming |
| Climb.ResolvePolicymap | nexus/src/collectors/qos.rs:261-282 | On any parent graph, cycles included, the bounded climb names the enclosing policy-map at any distance, and is empty when there is none |
| Climb.EnclosesIffChain | nexus/src/collectors/qos.rs:261-282 | The enclosing policy-map is the one at the end of a chain of parents, each present, not 0 and not the object itself, with no policy-map before |
| Climb.WithinReach | nexus/src/collectors/qos.rs:261-282 | An enclosing policy-map is fewer steps away than there are objects (pigeonhole) |
| Climb.EnclosingIsUnique | nexus/src/collectors/qos.rs:261-282 | At most one policy-map encloses an object |
| Qos.DecodeQos | nexus/src/collectors/qos.rs:141-244 | The decoder computes the sorted list of one class per class-map object, for any iteration order |
| Qos.DecodedIsSortedAndComplete | nexus/src/collectors/qos.rs:188-243 | Sorted by the four keys, with exactly the classes of the class-map objects, one of each |
| Qos.ClassCounters | nexus/src/collectors/qos.rs:193-202 | The counters of a class are those of the last class-map statistics row with its key |
| Qos.ClassInterface | nexus/src/collectors/qos.rs:148-165 | Its interface and direction are those of the last service-policy row of its policy |
| Qos.ClassName | nexus/src/collectors/qos.rs:122-131 | Its name is the last one configured for the configuration index of its object |
| Qos.ClassPolicymap | nexus/src/collectors/qos.rs:261-282 | At the end of such a chain from the class-map object, the policy-map name is the last one configured for its index, or empty |
| Qos.ClassWithoutPolicymap | nexus/src/collectors/qos.rs:261-282 | Without such a chain the name is empty |
| Qos.JoinedRows | nexus/src/collectors/qos.rs:148-186 | The rows joined are the last ones with the policy index, or with the policy and object indices |
| Qos.ObjectsAre | nexus/src/collectors/qos.rs:167-186 | An object is known exactly when a row is about it, with the columns of the last such row |
| Qos.DecodedOrder | nexus/src/collectors/qos.rs:235-243 | In the output lower interfaces come first, then input before output, then policy-maps and class-maps by name |
| Qos.ClassPolice | nexus/src/collectors/qos.rs:180-215 | Its policer is the last police object below it, with that object's last statistics row |
| Qos.OrderDoesNotShowIffTiesAreEqual | nexus/src/collectors/qos.rs:236-242 | The output is the same for every iteration order if and only if classes that tie in all four keys are equal; the comment promises it always |
| QosOrder.OrderDoesNotShowIffRowsAgree | nexus/src/collectors/qos.rs:235-243 | The same in terms of table rows: if and only if class-map objects whose last rows give the same interface, direction, policy-map and name also have the same counters and policer rows |
| QosOrder.OrderCanShow | nexus/src/collectors/qos.rs:235-243 | Tables with two class-map objects whose output depends on the iteration order |
| Qos.QosProbeCache.ShouldSkip | nexus/src/collectors/qos.rs:313-321 | A device is skipped while its recorded instant is younger than the time-to-live, instants saturating |
| Qos.SkippedIffLastWalkWasEmpty | nexus/src/collectors/qos.rs:313-342 | After any history a device is skipped exactly when the last event that touches it is an empty walk recorded less than the time-to-live ago |
| LastWrites.BuildIndex | nexus/src/collectors/qos.rs:122-131 | The indexing loop of the decoders |
| LastWrites.IndexedByLastWriter | nexus/src/collectors/qos.rs:246-256 | A key is indexed exactly when some row writes it, with the value of the last such row |
| Pool.ConcurrencyBounded | nexus/src/collectors/pool.rs:20-50 | At every moment of every interleaving items are handed out in queue order, none twice and none skipped, and live calls never exceed max(limit, 1) nor the number of items |
| Pool.ConcurrencyReached | nexus/src/collectors/pool.rs:20-50 | Some schedule has min(max(limit, 1), items) calls live at once |
| Pool.ExactlyOnce | nexus/src/collectors/pool.rs:20-50 | At the barrier the queue is empty, nothing is live, and every item has been passed to the work function exactly once and returned |
| Pool.Termination | nexus/src/collectors/pool.rs:20-50 | Every schedule ends, and a schedule is complete exactly when it has taken one fixed number of steps |
| Pool.Progress | nexus/src/collectors/pool.rs:20-50 | Until the caller leaves the scope some step is possible |
| PollerThreads.Supervisor.CheckIfWorkerNeeded | nexus/src/collectors/poller.rs:388-413 | Spawns one thread for each monitored device without one, and touches no other |
| PollerThreads.Supervisor.CheckExpiredWorkers | nexus/src/collectors/poller.rs:415-422 | Tells exactly the workers of devices that are no longer monitored to stop, and lists each once |
| PollerThreads.Supervisor.PrepareExpiredForReap | nexus/src/collectors/poller.rs:424-430 | Moves exactly the listed workers to the reap list |
| PollerThreads.Supervisor.Reload | nexus/src/collectors/poller.rs:503-512 | Afterwards the devices with a worker are exactly the monitored ones; staying devices keep their thread |
| PollerThreads.Supervisor.ReapFinishedThreads | nexus/src/collectors/poller.rs:432-450 | The swap-remove loop ends, joins only threads whose finish signal has arrived, and leaves none whose signal had arrived before |
| PollerThreads.SwapRemoveLoses | nexus/src/collectors/poller.rs:444-446 | Swap-remove loses exactly the removed thread |
| PollerThreads.Supervisor.StopAll | nexus/src/collectors/poller.rs:475-492 | Pause and shutdown leave no worker and nothing to reap, every thread being told to stop and joined |
| PollerThreads.Supervisor.Tick | nexus/src/collectors/poller.rs:474-516 | One pass of the loop: reload on resume and every reload period, then join what has finished, so that no thread is left to reap whose signal had arrived; stop everything while paused |
| PollerThreads.Supervisor.Run | nexus/src/collectors/poller.rs:474-528 | Over any life of the collector every spawned thread is joined exactly once and none is left; the states passed through are a history of the passes that the inputs and the reload period call for |
| PollerThreads.FinishedAreJoined | nexus/src/collectors/poller.rs:432-450 | In any history a thread that has been told to stop and whose finish signal has arrived is joined by the next pass |
| PollerThreads.JoinedInTheEnd | nexus/src/collectors/poller.rs:432-450 | Whenever its finish signal comes, a thread told to stop is joined in the end: a signal that shows from the n-th look on is seen within n + 1 passes |
| PollerThreads.JoinedHaveFinished | nexus/src/collectors/poller.rs:432-450 | While polling goes on, no thread is joined before its finish signal has arrived |
| PollerThreads.ReloadsOncePerPeriod | nexus/src/collectors/poller.rs:494-516 | While polling goes on the device set is reloaded exactly once every period |
| PollerThreads.ReloadsAfterPause | nexus/src/collectors/poller.rs:494-516 | The first pass after a pause reloads it too |
| PollerThreads.OneActiveThread | nexus/src/collectors/poller.rs:388-430 | At most one thread per device has not been told to stop |
| PollerThreads.EmptyMeansAllJoined | nexus/src/collectors/poller.rs:518-528 | With no worker and nothing to reap, every spawned thread was joined exactly once |
| PollerThreads.KeepsItsThread | nexus/src/collectors/poller.rs:474-516 | Over any stretch of a history, and so of a run, a device keeps its thread exactly as long as polling is not paused and every reload lists it |
| PollMerge.MergeQueryResult | nexus/src/collectors/poller.rs:289-306 | Each column of an interface keeps its old value, else takes that of the first row that has it; interfaces are the old ones and those with rows |
| PollMerge.WrapsTo32 | nexus/src/collectors/poller.rs:289-298 | Interface numbers wrap to 32 bits and stay when they fit |
| PollMerge.FirstWriterWins | nexus/src/collectors/poller.rs:299-304 | The first row about an interface that has a column decides it |
| Vendors.CollectFirst | nexus/src/collectors/vendor.rs:108-140 | The stable rank sort finds the best answering source; exactly the sources before it are probed, in order; the cache holds the winner, or nothing when none answers, and no other device changes |
| Vendors.Best | nexus/src/collectors/vendor.rs:117-137 | The best source answers and comes before every other answering one; there is none exactly when no source answers |
| Vendors.Preferences | nexus/src/collectors/vendor.rs:118-131 | The cached winner first; under a vendor hint its sources, then the standard ones, then the rest; under no hint the declared order |
| Vendors.ProbesInOrder | nexus/src/collectors/vendor.rs:117-131 | The probe order visits every source once, by rank and then by position |
| Vendors.CacheHoldsLastWinner | nexus/src/collectors/vendor.rs:73-139 | After any history of calls and removals of unmonitored devices the cache holds for a device the winner of its last call, nothing if that call had no answer or the device has been removed since |
| Vendors.NeverCalledNotCached | nexus/src/collectors/vendor.rs:73-139 | A device that was never asked about is not cached |
| Vendors.WinnerStays | nexus/src/collectors/vendor.rs:117-137 | A source that won wins again with a single probe as long as it still answers, whatever the hint and the others say |
| Lag.DecodePagp | nexus/src/collectors/lagpoller.rs:124-143 | The loop computes the channels and modes that the rows name |
| Lag.ChannelsAre | nexus/src/collectors/lagpoller.rs:133-142 | A port is in a channel exactly when some row puts it there; no channel is empty |
| Lag.DecodeDot3ad | nexus/src/collectors/lagpoller.rs:151-223 | The three loops compute the placed members and the ids of the last row about each aggregate |
| Lag.ClaimedByOnlyRow | nexus/src/collectors/lagpoller.rs:159-172 | A key leads to an aggregate exactly when that aggregate's row alone claims it |
| Lag.MembersAre | nexus/src/collectors/lagpoller.rs:188-211 | A port is a member of an aggregate exactly when some row attaches it there, or leaves it unattached with a positive key that this aggregate's row alone claims; every group has a member |
| Lag.OneAggregateEach | nexus/src/collectors/lagpoller.rs:188-211 | A port with one row is in at most one aggregate |
| Lag.LastRowDescribes | nexus/src/collectors/lagpoller.rs:174-211 | The member record is that of the last row placing the port |
| Lag.AttachedMemberColumns | nexus/src/collectors/lagpoller.rs:188-201 | An attached member carries the state, partner id and port of its row |
| Lag.GroupIds | nexus/src/collectors/lagpoller.rs:213-223 | A group carries the ids of the last aggregate row about it |
| Lag.SpellingsShareId | nexus/src/utilities/stp.rs:16-26 | Every spelling of an address, with any separator and in either case, has one id in lower-case colon form; the zero address has none |
| Lag.ConfiguredMember | nexus/src/collectors/lagpoller.rs:202-211 | A port that its last row leaves unattached is a member without state of the aggregate that alone claims its key |
| Lag.MergeCisco | nexus/src/collectors/lagpoller.rs:229-251 | The loop computes the merged group of every aggregate or channel |
| Lag.MergeKeepsDot3ad | nexus/src/collectors/lagpoller.rs:229-251 | LACP groups keep members, state, ids and protocol; members are the union; own channels are "pagp" exactly when a port negotiates; no group is empty |
| Lag.ChannelProtocol | nexus/src/collectors/lagpoller.rs:225-251 | A channel of its own is "pagp" exactly when a port of it has 3 or more as its last mode, and else "static" |
| Lag.CiscoMembersAre | nexus/src/collectors/lagpoller.rs:151-251 | End to end: membership of a Cisco device in terms of its rows |
| Bitmaps.ParseHexOctets | nexus/src/collectors/vlanpoller.rs:153-162 | The loop computes the octets of the words, none when a word is no octet |
| Bitmaps.PrintedOctetsReadBack | nexus/src/collectors/vlanpoller.rs:151-162 | Octets printed as space-separated hex pairs read back |
| Bitmaps.DecodeBitmap | nexus/src/collectors/vlanpoller.rs:168-178 | The double loop computes the values of the bits, most significant first |
| Bitmaps.ValuesAreSetBits | nexus/src/collectors/vlanpoller.rs:168-178 | A value is listed exactly when its bit is set, and the list is strictly increasing |
| Bitmaps.ValuesAreSet | nexus/src/collectors/vlanpoller.rs:168-178 | The same in octet arithmetic: value p is listed exactly when octet p/8, divided by 2 to the power 7 - p%8, is odd |
| Bitmaps.PackingUndoesDecoding | nexus/src/collectors/vlanpoller.rs:168-178 | Packing the decoded values into octets, most significant bit first, gives the octets back |
| Vlan.ActiveVlans | nexus/src/collectors/vlanpoller.rs:195-209 | The active VLANs are those of the rows |
| Vlan.ActiveAre | nexus/src/collectors/vlanpoller.rs:195-209 | A VLAN is active exactly when some operational ethernet row is about it |
| Vlan.DecodeCisco | nexus/src/collectors/vlanpoller.rs:249-303 | The loops compute what the last telling row says of each port |
| Vlan.CiscoVlansAre | nexus/src/collectors/vlanpoller.rs:271-302 | A trunk carries exactly the active, allowed, non-native VLANs, in increasing order exactly when its wanted bitmaps stay apart; an access port only the VLAN of its last membership row; the native VLAN is never tagged |
| Vlan.AccessVlanIs | nexus/src/collectors/vlanpoller.rs:249-302 | A port that no row makes a trunk is listed exactly when some row of the trunk table is about it and the membership table gives it a positive VLAN, with the last such one |
| Vlan.TrunkRowDecides | nexus/src/collectors/vlanpoller.rs:271-296 | In terms of rows and octets: a port whose last row is a trunk has that row's positive native VLAN, and tagged exactly the other VLANs set in its four bitmaps that an operational ethernet row names |
| Vlan.AccessRowDecides | nexus/src/collectors/vlanpoller.rs:297-302 | A port whose last row is no trunk has just the last positive VLAN of the membership table, or keeps what earlier rows said when there is none |
| Vlan.TaggedIncreasingIff | nexus/src/collectors/vlanpoller.rs:280-290 | Tagged lists are strictly increasing, whatever is active and native, if and only if no bitmap reaches into a later one |
| Vlan.TaggedIncreasingHere | nexus/src/collectors/vlanpoller.rs:280-290 | For given active VLANs and native VLAN, the tagged list is strictly increasing if and only if no bitmap holds an active, non-native VLAN at or above one of a later bitmap |
| Vlan.SizedBitmapsApart | nexus/src/collectors/vlanpoller.rs:280-290 | Bitmaps of at most 128 octets stay apart |
| Vlan.OversizedBitmapRepeats | nexus/src/collectors/vlanpoller.rs:280-290 | With one octet more the decoded tagged list of a port contains VLAN 1024 twice |
| Vlan.DecodeQbridge | nexus/src/collectors/vlanpoller.rs:309-378 | Natives from the port table, tagged lists increasing and without the native VLAN, one entry per interface with either |
| Vlan.TaggedAre | nexus/src/collectors/vlanpoller.rs:340-364 | An interface carries a VLAN tagged exactly when some row of the VLAN lists one of its bridge ports as egress and not as untagged |
| Vlan.QbridgeRowsDecide | nexus/src/collectors/vlanpoller.rs:309-378 | End to end in terms of rows and octets: an interface has the native VLAN of the last row that gives one to a bridge port of it, and tagged exactly the others whose current, or else static, lists have such a port as egress and not as untagged |
| VlanInventory.VlanStore.NetworkVlans | nexus/src/collectors/vlanpoller.rs:89-116 | Each VLAN named or referenced anywhere is listed once, in order, with its devices and distinct names in order and the right port counts |
| VlanTotals.CountsConserved | nexus/src/collectors/vlanpoller.rs:89-116 | Whatever the devices report, native counts sum to the interfaces with a native VLAN; tagged counts sum to at most the lengths of all tagged lists, and to exactly that if and only if no list repeats a VLAN |
| VlanTotals.DecodedCountsConserved | nexus/src/collectors/vlanpoller.rs:89-378 | End to end: for what the Cisco decoder makes of bitmaps of at most 128 octets, and for all the Q-BRIDGE decoder makes, tagged counts are exactly the summed lengths |
| VlanTotals.DecodedIncreasing | nexus/src/collectors/vlanpoller.rs:249-378 | Each tagged list that these decoders produce is strictly increasing |
| VlanInventory.TotalIs | nexus/src/collectors/vlanpoller.rs:96-107 | The total of the counts is the number of single uses counted |
| Stp.NamesAreRecognized | nexus/src/collectors/entitypoller.rs:225-291 | Every metric is recognized by its own name, although one prefix starts with the other |
| Stp.MetricNames | nexus/src/collectors/entitypoller.rs:225-291 | The names under which the metrics are stored |
| Stp.OtherNames | nexus/src/collectors/entitypoller.rs:225-291 | Any other name belongs to bridges or ports by its prefix |
| Stp.SamplesSayWhose | nexus/src/collectors/entitypoller.rs:2004-2034 | Each sample carries the device's two names and exactly the labels of its kind |
| Stp.RoleSurvives | nexus/src/collectors/entitypoller.rs:1132-1180 | Encoding and decoding keep a role, turn "backup" into "backUp" and anything else into "unknown" |
| Stp.StateSurvives | nexus/src/collectors/entitypoller.rs:1146-1192 | Encoding and decoding keep a state and turn anything else into "unknown" |
| Stp.NumbersSurvive | nexus/src/collectors/entitypoller.rs:1132-1192 | The texts are inverses of the encoders on the enumerations |
| Stp.DecodedPort | nexus/src/collectors/entitypoller.rs:258-294 | Whatever the order and company of its samples, a port is decoded with exactly the columns seen |
| Stp.DecodedBridge | nexus/src/collectors/entitypoller.rs:225-257 | The same for a bridge |
| StpRoundTrip.DecodeUndoesFlatten | nexus/src/collectors/entitypoller.rs:193-294 | Decoding any arrangement of the samples of records with distinct keys gives exactly the records, normalized |
| StpEntity.PushPort | nexus/src/collectors/entitypoller.rs:1912-1922 | A port record emits its samples in order |
| StpEntity.PushBridge | nexus/src/collectors/entitypoller.rs:1924-1947 | A bridge record emits one sample per known value, in order |
| StpEntity.FlattenRecords | nexus/src/collectors/entitypoller.rs:2004-2034 | All records emit their samples one after the other |
| StpEntity.DecodeEntity | nexus/src/collectors/entitypoller.rs:193-322 | The rows are the decoded ports sorted by VLAN, interface name and port, and the bridges by VLAN with the root port named through the rows of the same VLAN |
| StpEntity.PortRowsOrder | nexus/src/collectors/entitypoller.rs:302-306 | Rows come by VLAN, then by interface name with unnamed ports first, then by port |
| StpEntity.RowsAreRecords | nexus/src/collectors/entitypoller.rs:193-322 | Emit, shuffle, decode: the rows are the records, normalized, each once and in order, with root ports named by the records of the same VLAN |
| Text.ShownIntReads | nexus/src/collectors/entitypoller.rs:205-210 | The decimal form of a 64-bit number parses back |
| Rpvst.RpvstMetrics | nexus/src/collectors/entitypoller.rs:1877-1950 | HP tables become the samples of one record per role row with a role and one per VLAN row |
| Rpvst.StoredRowsAreTableRows | nexus/src/collectors/entitypoller.rs:1877-1950 | End to end for an HP device: from tables with one row per index, the stored port rows are exactly those of the role rows, sorted, and the stored bridge rows exactly those of the VLAN rows that report a value, by VLAN |
| Rpvst.PortRowColumns | nexus/src/collectors/entitypoller.rs:1888-1922 | A role row gives a port row exactly when it has both indices and a textual role: with the state and cost that the other tables last gave for its key, "unknown" and 0 when they gave none, the interface name of its port, and defaults elsewhere |
| Rpvst.BridgeRowColumns | nexus/src/collectors/entitypoller.rs:1924-1947 | A VLAN row gives a bridge row exactly when it reports some value: with its columns, the normalized root address beside the priority, the seconds since the last change, and the root port named as its own role row is |
| Sorting.SortBySorted | nexus/src/collectors/qos.rs:236-242 | The stable sort sorts |
| Sorting.SortByStable | nexus/src/collectors/qos.rs:236-242 | The stable sort keeps the order of ties |
| Sorting.SortByPosition | nexus/src/collectors/vendor.rs:117-131 | Sorting increasing numbers by rank leaves ties in increasing order |
| Sorting.StringLeIs | nexus/src/collectors/qos.rs:236-242 | Names are in order when the first is a prefix of the second or smaller where they first differ |
| Snmp.CastKeepsBits | nexus/src/collectors/entitypoller.rs:1115-1122 | An unsigned value read as signed keeps its 64 bits |
| Snmp.FloatsTruncate | nexus/src/collectors/qos.rs:96-104 | A float loses its fraction and saturates; a negative one is no unsigned value |

## Left out

- I/O of SNMP, HTTP, ICMP and DNS, database storage, configuration, logging, clocks and random jitter: parameters or absent.
- Lock poisoning, failing thread spawns and panics; `collect` and name resolution are fixed during a crawl. The steps of `try_resolve` itself (remapping, search domains) are one map from names to devices.
- The two device-bug flags that only gate log lines, `sys_descr`, device types, software versions and media of a device.
- `link_info_payload`, `ingest_links` and discovery triggers: payload shapes, and the scheduling of runs.
- Devices.DetectedDevice.MapIdUsingAnything: characters beyond ASCII in a port id make the source's byte slicing fail or stop; the model counts characters and answers that nothing decodes.
- Pinger: which shard owns a device (a hash), building the ping instance, and the tick length.
- Bulk.HandleRequest: parsing the datagram is a parameter; non-repeaters are absent as in the source.
- PollerThreads.Supervisor.ReapFinishedThreads: whether a stopped thread ever finishes is not modelled; the joins of pause and shutdown wait for it.
- Links.OrderDoesNotMatterIff: where a descriptor has to choose between devices with one chassis id, links can follow the order of the device map (`Links.OrderCanMatter`); which links then stay the same is not stated.
- PollMerge: the readers of merged columns and the interface report.
- Vendors: the vendor hint from device descriptions is a parameter.
- Lag: the mismatch warnings for a port channel.
- Vlan: reading VLAN names per device, the snapshots `membership_map` and `vlan_names`, and the poll-now queue.
- Rpvst.RpvstMetrics: parsing a duration printed as text is a parameter.
- StpEntity.DecodeEntity: sensor samples, PoE and QoS metrics of the same store; the walk of the Cisco tables from which full port records are read.
- Arithmetic beyond 64 bits in VLAN numbers (base plus position) and in row counts is unbounded.
