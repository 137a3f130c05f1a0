# Morningstar Modbus: a verified model

This project models the stateful core of the Morningstar solar-controller monitor: which physical
controller an observation belongs to, the Modbus RTU frames it arrives in, what happens to stored
telemetry when it is compressed, archived and pruned, and the reports computed from it. Classes with
`modifies` clauses stand for the objects that change in place; each of their methods is tied to a
function of the old state, and the theorems are about that function and about whole runs of it.

| files | part of the system |
|---|---|
| `Inventory`, `InventoryInvariant`, `Attribution`, `Scopes`, `RegistryRuns`, `Registry`, `Watcher` | controller identities, immutable UIDs, telemetry ownership, one discovery cycle |
| `Gf2`, `CrcBits`, `Crc`, `Bytes`, `Codec`, `Rtu`, `Replay` | checksum, PDUs, the streaming receiver, replay of captured exchanges |
| `Archive`, `ArchiveRuns`, `Grouping`, `Compression`, `RollupTables`, `RollupRows`, `RunTables` | archive, verify and prune; state runs and rollups |
| `Incidents`, `IncidentRuns`, `IncidentRows`, `Detectors`, `Verdicts`, `SiteHealth` | incident lifecycle, the detectors that drive it, health score, charge cycles |
| `AutoPoll`, `Calibration`, `Percentiles`, `Forecast`, `Outlooks` | interval calibration, order statistics, percentile forecasts and backtest |
| `Gaps`, `Energy`, `Tables`, `Datalog`, `Digits`, `Versions` | evidence gaps, energy integration, LiveView tables, firmware versions |
| `Options`, `Text`, `Sequences` | shared values, text and sequence operations |

CRC-16 is that of section 6.2.2 of the MODBUS over Serial Line Specification and Implementation Guide
V1.02; the PDUs are those of sections 6.3, 6.4 and 6.21 of the MODBUS Application Protocol
Specification V1.1b3.

Modelling choices: database tables are maps and an archive file is the set of its rows; a transaction
that fails leaves the tables as they were. Hashes and composed identifiers are injective constructors, a
random UID is a fresh number, timestamps are ordered numbers, and floating-point values are exact reals.
Letter case is folded for ASCII letters only.

## Where the code does not meet its promise

Each is stated as a law with the exact condition, and with a concrete input or run that shows it.

- **One immutable UID per controller.** Serial adapter ids are stripped and lower-cased when they become a
  controller id, but not in the endpoint key. After such an id was retired by promotion, an adapter whose
  serial differs only in case, on an endpoint never seen before, takes it up again, and two controllers
  share a UID: `Scopes.RegistrationMeetsPromise`, `RegistryRuns.RetiredAliasCanReturn`. Controllers with
  serials are kept apart even then, as long as the sync pass lists the identity just seen last, which its
  ordering does while the clock advances: `RegistryRuns.SerialsNeverMerge`.
- **Archives keep every row.** The file of a day is rewritten by a later pass with the rows still in the
  database. A cutoff inside a day (the default cutoff is a number of days before now) loses the part
  archived first, once that has been pruned: `Archive.PassLosesExactly`, `Archive.SecondPassLosesExactly`,
  `Archive.IntradayCutoffLoses`. A row inserted into an already archived range is pruned unarchived:
  `Archive.PruneLosesExactly`, `Archive.LateInsertIsLost`.
- **State runs reproduce the text history.** The running sum treats rows of equal time as peers, so runs
  are wrong exactly when two rows of the same time have different texts: `Compression.RunsAreFaithfulExactly`,
  `Compression.TiedTextsCollapse`.
- **Rollups and state runs outlive raw rows.** A rebuild deletes everything before its cutoff and keeps of it
  only what the remaining raw rows give again: an earlier rollup is lost exactly when no raw row before the
  later cutoff is left in its bucket: `RollupTables.RollupLostExactly`, `RollupTables.RebuildForgetsPruned`,
  `RollupTables.RollupIsLost`; likewise a state run: `RunTables.RunLostExactly`, `RunTables.RunsForgetPruned`.
- **A scan of one site cannot disturb another.** The unique index on active fingerprints spans all sites
  and a controller may belong to several, so a finding active in one site makes the whole scan of another
  fail: `Detectors.ScanRefusedExactly`, `Detectors.SharedControllerBlocks`.
- **Replay repeats a live session.** A request refused before it is sent is not recorded, but uses up a
  recorded exchange in the replay. A program replays as it ran live, whatever the replies, exactly when in no
  live session it sends a request after a refused one: `Replay.ReplayRepeatsExactly`,
  `Replay.RefusedRequestDesynchronises`.

## Model

| member | source | states |
|---|---|---|
| InventoryInvariant.RegisterKeepsInv | src/morningstar_modbus/controllers/inventory.py:245-372 | In all five branches a registration keeps the joint invariant of devices, identities, members and connections, turns every earlier controller into exactly one later one, and attributes the observation to an identity and its own canonical device |
| Attribution.AttributionExactly | src/morningstar_modbus/controllers/inventory.py:259-341 | To whom an observation is attributed and what becomes of the ids: a newcomer is added on a device nobody owned; an owner without a serial is replaced by the serial's id and keeps its device; in every other case the ids stay and the device returned is that of the controller that was there |
| Attribution.ControllersGrowExactly | src/morningstar_modbus/controllers/inventory.py:259-341 | Controllers become more, by one, if and only if the id is unknown and the endpoint has no owner or one of a different serial; they never become fewer |
| Attribution.MeantExactly | src/morningstar_modbus/controllers/inventory.py:111-123 | A serial read is always that of the controller returned, under the observed profile unless the owner of the endpoint has that serial under another one; without a serial the known id, else the endpoint's owner, else a new controller is returned |
| Attribution.OtherProfileKeepsOwner | src/morningstar_modbus/controllers/inventory.py:310-316 | The run that shows the exception: one endpoint read with the same serial first as one profile, then as another, stays the first controller |
| Attribution.NewcomerDevice | src/morningstar_modbus/controllers/inventory.py:283-341 | A newcomer on a free endpoint gets the device row that has its key, or one named after the endpoint; one of a serial conflict gets a device of its profile, serial and endpoint |
| Attribution.IdentityRowsExactly | src/morningstar_modbus/controllers/inventory.py:357-371 | Only the returned controller's row changes, and a serial that was read is stored there |
| Attribution.MembersExactly | src/morningstar_modbus/controllers/inventory.py:343-372 | Every member device stays with its controller, or goes to the id that took that one's place; at most the returned device is added |
| Attribution.ConnectionsExactly | src/morningstar_modbus/controllers/inventory.py:343-372 | The observed connection becomes active and never less recent; every other connection keeps its state, under the promoted id if its controller was promoted |
| Attribution.AttributedOwnsEndpoint | src/morningstar_modbus/controllers/inventory.py:266-281 | After an observation not older than any at its endpoint, its controller is the one the endpoint's owner query finds |
| InventoryInvariant.PromoteKeepsInv | src/morningstar_modbus/controllers/inventory.py:407-460 | Promotion re-keys an identity to its serial id without breaking ownership of members, connections or row keys |
| InventoryInvariant.PromoteEvolves | src/morningstar_modbus/controllers/inventory.py:447-460 | Promotion carries every member and connection over to the new id and keeps the canonical device |
| InventoryInvariant.InsertKeepsInv | src/morningstar_modbus/controllers/inventory.py:374-405 | A new identity on a device nobody owned keeps the invariant, also when the endpoint key is already taken |
| InventoryInvariant.NewDeviceUnowned | src/morningstar_modbus/controllers/inventory.py:283-341 | A new controller and a serial conflict are given a device that no controller owns |
| InventoryInvariant.CanonicalDevicesDistinct | src/morningstar_modbus/controllers/inventory.py:652-670 | Two identities never share a canonical device |
| InventoryInvariant.PresenceKeepsInv | src/morningstar_modbus/controllers/inventory.py:462-476 | Reconciling presence keeps the invariant, every identity and every connection row |
| InventoryInvariant.BootstrapEstablishesInv | src/morningstar_modbus/controllers/inventory.py:175-243 | Building identities from any legacy devices table whose rows are keyed by their endpoint establishes the invariant |
| InventoryInvariant.BootstrapExactly | src/morningstar_modbus/controllers/inventory.py:175-243 | Every legacy row is a member of its controller and connected at its endpoint since it was last seen; the newest row of a controller is canonical, and alone may be active |
| InventoryInvariant.BootstrapOnly | src/morningstar_modbus/controllers/inventory.py:175-243 | No other identity, member or connection is made |
| Inventory.KeysSurviveMoves | src/morningstar_modbus/domain/models.py:40-52 | An adapter with a USB serial has the same key on every port, and a TCP port that is not given is port 502 |
| Inventory.KeysDiffer | src/morningstar_modbus/domain/models.py:40-52 | Different units behind one address or adapter, ports with adapters that cannot be told apart, and serial and TCP endpoints have different keys |
| Scopes.SyncSucceeds | src/morningstar_modbus/controllers/scope.py:85-165 | In whatever order the identities are listed, the sync pass never violates the uniqueness of canonical devices, and leaves UIDs and identities in one-to-one correspondence |
| Scopes.SyncPrefix | src/morningstar_modbus/controllers/scope.py:85-165 | The same at every point in the middle of the pass: what was settled stays settled, aliases and UIDs only grow |
| Scopes.SyncIdempotent | src/morningstar_modbus/controllers/scope.py:82-165 | A second pass changes nothing, so resolving an identifier does not alter the tables |
| Scopes.LastPassKeepsApart | src/morningstar_modbus/controllers/scope.py:86-164 | A pass that lists a new identity after all others gives it no UID that another serial identity has as its alias |
| Scopes.RegistrationMeetsPromise | src/morningstar_modbus/controllers/scope.py:247-256 | A registration keeps one immutable UID per controller if and only if the new-controller branch is not taken with an id that already has an alias |
| Scopes.RetiredAliasMergesUids | src/morningstar_modbus/controllers/scope.py:247-256 | When it is taken with such an id, two identities with different canonical devices end up on one UID |
| Scopes.ResolutionIsStable | src/morningstar_modbus/controllers/scope.py:167-215 | Whatever resolves keeps resolving to the same UID and canonical device, over a history that only grows |
| Scopes.HistoriesDisjoint | src/morningstar_modbus/controllers/scope.py:193-215 | The history device ids of different UIDs are disjoint |
| Scopes.ResolvesExactly | src/morningstar_modbus/controllers/scope.py:167-215 | In every valid state exactly the UIDs in use and the ids with an alias resolve, each to its own UID, that UID's current identity and canonical device; the history is exactly the set of its member devices |
| Scopes.IdentityResolves | src/morningstar_modbus/controllers/scope.py:167-215 | Every identity resolves under its own id, to the scope its UID resolves to |
| RegistryRuns.UidsAreImmutable | src/morningstar_modbus/controllers/scope.py:85-165 | In every run of registrations, poll successes, presence updates, sync passes and restarts that never reuses a retired alias: no alias is re-pointed, no UID disappears, no canonical device of a UID changes, and members and connections stay with their UID |
| RegistryRuns.ResolvedOnceResolvedForEver | src/morningstar_modbus/controllers/scope.py:167-215 | Any id or UID that resolves at some point of such a run resolves to the same UID and device at every later point, across promotions |
| RegistryRuns.ReturnedUidIsAttributed | src/morningstar_modbus/controllers/scope.py:247-256 | The UID a registration returns is that of the identity and device the observation was attributed to |
| RegistryRuns.StepAnswers | src/morningstar_modbus/controllers/scope.py:247-256 | A registration answers with the controller the observation belongs to: under the UID that controller had before, across a promotion too, or under a UID never in use if it is new |
| RegistryRuns.ReturnedResolvesForEver | src/morningstar_modbus/controllers/scope.py:167-215 | Every UID and every id a registration returned resolves at every later point of a run without reuse, both to one scope with the returned device, connected where the observation was made |
| RegistryRuns.KnownResolvesForEver | src/morningstar_modbus/controllers/scope.py:167-215 | So does every identity and every alias there ever was, to the UID it had |
| RegistryRuns.SerialsNeverMerge | src/morningstar_modbus/controllers/scope.py:86-164 | Two observations with different serials, anywhere in a run and on any endpoints, get different UIDs and different canonical devices: in any order of the sync passes when no retired alias is reused, and in every run, reuses included, when each pass lists the identity just seen last |
| RegistryRuns.RunsKeepApart | src/morningstar_modbus/controllers/scope.py:86-164 | What survives a reuse along such a run: every identity has an alias that is never re-pointed, different serials have different aliases, and a serial keeps its canonical device |
| RegistryRuns.KeyedRunsNeverReuse | src/morningstar_modbus/controllers/inventory.py:111-123 | No run reuses a retired alias when each folded USB serial and unit belongs to one endpoint key |
| RegistryRuns.RetiredAliasCanReturn | src/morningstar_modbus/domain/models.py:46-52 | A concrete run from an empty database after which an observation reuses a retired alias |
| RegistryRuns.InitialWorldIsValid | src/morningstar_modbus/controllers/inventory.py:175-243 | The first initialization over an empty or legacy database gives a state the run theorems start from |
| RegistryRuns.InitialWorldRemembers | src/morningstar_modbus/controllers/inventory.py:175-243 | The first initialization also leaves every USB or endpoint fallback id connected at its endpoint, the condition under which no retired alias comes back |
| Registry.ControllerInventory.BootstrapLegacyRows | src/morningstar_modbus/controllers/inventory.py:175-243 | The loop over the rows chooses for every identity a row seen last, and leaves exactly the bootstrapped tables |
| Registry.ControllerInventory.EndpointOwner | src/morningstar_modbus/controllers/inventory.py:259-271 | Finds the owner an endpoint was last seen with, if there is one |
| Registry.ControllerInventory.InsertNewIdentity | src/morningstar_modbus/controllers/inventory.py:374-405 | Adds the identity and its device row, falling back to the device's own key when the endpoint key is taken |
| Registry.ControllerInventory.PromoteIdentity | src/morningstar_modbus/controllers/inventory.py:407-460 | Re-keys identity, members and connections together |
| Registry.ControllerInventory.AttributeObservation | src/morningstar_modbus/controllers/inventory.py:259-341 | Takes the branch the five-way match prescribes and returns its identity and device, so that the laws of `Attribution` hold of it |
| Registry.ControllerInventory.RegisterObservation | src/morningstar_modbus/controllers/inventory.py:245-372 | The tables afterwards are those of the registration function for the owner found, and the returned ids are its |
| Registry.ControllerInventory.ReconcilePresence | src/morningstar_modbus/controllers/inventory.py:462-476 | Clearing all flags and setting the observed ones leaves exactly the observed connections active |
| Registry.ControllerInventory.RecordSuccess | src/morningstar_modbus/controllers/inventory.py:478-493 | Refreshes one connection if it exists and nothing else |
| Registry.ControllerInventory.MarkAllOffline | src/morningstar_modbus/controllers/inventory.py:495-499 | Leaves no connection active and changes nothing else |
| Registry.ControllerScopes.SyncIdentity | src/morningstar_modbus/controllers/scope.py:98-164 | One row of the pass: alias first, then the UID holding the device, then a new UID; a violated constraint changes nothing |
| Registry.ControllerScopes.SyncCurrentIdentities | src/morningstar_modbus/controllers/scope.py:85-165 | The pass over all rows computes the sync function, or is rolled back whole |
| Registry.ControllerRegistry.RegisterObservation | src/morningstar_modbus/controllers/scope.py:247-256 | Unless a retired alias is reused: one step of a run whose result is the UID and device of the controller meant, with the serial that was read, under its earlier UID or a fresh one |
| Registry.ControllerRegistry.Resolve | src/morningstar_modbus/controllers/scope.py:167-215 | Resolves a UID or an alias without changing any table |
| Registry.ControllerRegistry.ReconcilePresence | src/morningstar_modbus/controllers/scope.py:313-319 | Translates UIDs to their current identities before presence is reconciled; unknown UIDs are dropped |
| Registry.ControllerRegistry.RecordSuccess | src/morningstar_modbus/controllers/scope.py:321-326 | Records a success for the UID's current identity, keeping every UID |
| Registry.ControllerRegistry.MarkAllOffline | src/morningstar_modbus/controllers/scope.py:328-329 | Marks everything offline as one step of a run |
| Watcher.Choose | src/morningstar_modbus/runtime/watcher.py:262-281 | Among one controller's candidates: its existing key when it is still offered, else one that no candidate is preferred to |
| Watcher.ChoicePrefers | src/morningstar_modbus/runtime/watcher.py:253-281 | With no connection to keep, a TCP endpoint is chosen before a USB adapter, an adapter before another port, and among equals the least key |
| Watcher.ControllerWatcher.SelectControllerEndpoints | src/morningstar_modbus/runtime/watcher.py:253-281 | One such choice for every controller found, and for no other |
| Watcher.ControllerWatcher.RefreshDevices | src/morningstar_modbus/runtime/watcher.py:140-151 | After a whole discovery cycle in which no registration reuses a retired alias, exactly the selected connection of each selected controller is active and no other, even if a later registration of the cycle re-keyed its connections; every UID is kept, and each device found is resolved to a controller with its serial, connected where it was found |
| Watcher.KeyedCycleNeverReuses | src/morningstar_modbus/runtime/watcher.py:140-151 | No registration of a cycle reuses a retired alias, whichever owner is found and whatever order the passes list, when each folded USB serial and unit names one endpoint key |
| Watcher.PresenceIsExact | src/morningstar_modbus/controllers/scope.py:313-319 | Translating the selection to identities and reconciling presence activates exactly the selected connections |
| Gf2.FeedXor | src/morningstar_modbus/protocol/codec.py:15-24 | The bit-serial register is linear over GF(2) in register and message together |
| Gf2.FeedInjective | src/morningstar_modbus/protocol/codec.py:15-24 | Two registers fed the same message stay different |
| Gf2.FeedParity | src/morningstar_modbus/protocol/codec.py:15-24 | The parity of register and message bits is kept, since the generator has an even number of terms |
| Gf2.FeedWindow | src/morningstar_modbus/protocol/codec.py:17-23 | Mixing in up to sixteen bits at once and then shifting is feeding them one by one |
| Crc.Crc16 | src/morningstar_modbus/protocol/codec.py:15-24 | The double loop computes the checksum function |
| Crc.CrcIsReference | src/morningstar_modbus/protocol/codec.py:15-24 | The checksum is the register of a bit-serial division by the generator polynomial, fed lowest bit first |
| Crc.SpecificationExample | src/morningstar_modbus/protocol/codec.py:15-28 | The worked example of the specification: 02 07 is sent as 02 07 41 12 |
| Crc.AppendedResidueIsZero | src/morningstar_modbus/protocol/codec.py:27-28 | The checksum of any payload with its checksum appended is zero |
| Crc.ValidIsZeroResidue | src/morningstar_modbus/protocol/codec.py:31-32 | A frame is valid if and only if its own residue is zero |
| Crc.UndetectedExactly | src/morningstar_modbus/protocol/codec.py:31-32 | An alteration of a valid frame of any length goes unnoticed exactly when the error pattern alone leaves a zero residue |
| Crc.OddErrorsDetected | src/morningstar_modbus/protocol/codec.py:15-32 | Every alteration of a valid frame by an odd number of bits is rejected |
| Crc.BurstErrorsDetected | src/morningstar_modbus/protocol/codec.py:15-32 | Every non-zero burst within sixteen consecutive bits is rejected, wherever it lies in a frame of any length |
| Codec.RegisterResponseExactly | src/morningstar_modbus/protocol/codec.py:45-51 | A register response is accepted if and only if it is the encoding of the words it parses to |
| Codec.ParseDeviceIdentification | src/morningstar_modbus/protocol/codec.py:54-86 | The cursor loop computes the recursive walk of the object list, with the same errors |
| Codec.IdentificationExactly | src/morningstar_modbus/protocol/codec.py:54-86 | The parser accepts exactly the encodings of object lists, and returns the list that was encoded |
| Codec.TextForExactly | src/morningstar_modbus/protocol/codec.py:81-86 | Of several objects with one id the last one's text is reported |
| Rtu.ReceivedIsWellFormed | src/morningstar_modbus/transports/modbus.py:259-301 | For every byte stream a received PDU is one its parser accepts to its last byte, and the receiver took exactly one frame |
| Rtu.ReceiverAcceptsExactly | src/morningstar_modbus/transports/modbus.py:259-301 | The receiver returns a PDU if and only if the stream begins with the frame of that well-formed PDU |
| Rtu.ExceptionExactly | src/morningstar_modbus/transports/modbus.py:272-277 | A device error with a function and a code is reported if and only if the stream begins with the undamaged exception frame of that function and code |
| Rtu.DecidedForGood | src/morningstar_modbus/transports/modbus.py:259-301 | Once a response, a device error or a protocol error is decided, no later byte changes it or is taken |
| Rtu.TimeoutMeansTooFew | src/morningstar_modbus/transports/modbus.py:325-334 | A timeout means that all bytes were taken and are fewer than the longest response, and that every stream of that length is decided |
| Rtu.IncompleteFrameIsAwaited | src/morningstar_modbus/transports/modbus.py:259-301 | A frame cut off anywhere is waited for, not rejected |
| Rtu.FramedIsReceived | src/morningstar_modbus/transports/modbus.py:259-301 | A framed PDU is received as sent and nothing behind the frame is consumed |
| Rtu.RegistersRoundTrip | src/morningstar_modbus/transports/modbus.py:259-301 | Any 1 to 125 words survive encoding, framing, receiving and parsing |
| Rtu.IdentificationRoundTrip | src/morningstar_modbus/transports/modbus.py:259-301 | So does any list of identification objects |
| Rtu.SerialPort.ReadExact | src/morningstar_modbus/transports/modbus.py:325-334 | Reads of arbitrary partial size collect exactly the requested bytes, or everything left when too few come |
| Rtu.RtuClient.ExchangeBlocking | src/morningstar_modbus/transports/modbus.py:259-301 | The piecewise reads return the result, and consume the bytes, of the receiver function on the whole stream |
| Replay.ReplayModbusClient.Next | src/morningstar_modbus/capture/replay.py:32-54 | Hands out the next exchange only for the request that was recorded and did not fail; the index moves past it either way |
| Replay.ReplayModbusClient.Read | src/morningstar_modbus/capture/replay.py:56-69 | The three reads give the answer and the new position of the replay function |
| Replay.ReplayModbusClient.Remaining | src/morningstar_modbus/capture/replay.py:73-79 | Consumed and remaining exchanges always make up the recording |
| Replay.RecordedShape | src/morningstar_modbus/transports/modbus.py:36-39 | Function, address and count of a request are recovered from the bytes that were sent |
| Replay.ReplayIsIndistinguishable | src/morningstar_modbus/capture/replay.py:32-79 | Any deterministic client that asks only valid requests sees from the replay of its own recording exactly what it saw live, and uses it up |
| Replay.ReplayRepeatsExactly | src/morningstar_modbus/capture/replay.py:32-79 | For every deterministic client: whatever the replies, the replay of its own recording repeats the live session and uses the recording up, if and only if in no live session a request that can be sent follows a refused one |
| Replay.SentAfterRefusalDiffers | src/morningstar_modbus/capture/replay.py:32-54 | Wherever a sendable request follows a refused one, there are replies for which the replay differs from the live session |
| Replay.DivergenceIsFirstMismatch | src/morningstar_modbus/capture/replay.py:44-50 | Any other program run on the recording of a client that asks only valid requests sees the live history as long as it asks the same, and its first different request is answered by a mismatch |
| Archive.StepKeepsSafe | src/morningstar_modbus/persistence/storage_v2.py:385-475 | Every single durable step at midnight cutoffs, a stop between steps included, keeps every row raw or in a verified file |
| Archive.RowsAreConserved | src/morningstar_modbus/persistence/storage_v2.py:341-504 | In every run of inserts, archiving, stops and pruning at UTC-midnight cutoffs, every row ever stored is raw or in the current file of its day |
| ArchiveRuns.PassIsARun | src/morningstar_modbus/persistence/storage_v2.py:341-475 | A whole archive pass at a midnight cutoff is a run of the durable steps: take the rows of a range, publish its file, record the entry |
| ArchiveRuns.PruningIsARun | src/morningstar_modbus/persistence/storage_v2.py:477-504 | Pruning at any cutoff is a run of steps that each delete one verified range |
| ArchiveRuns.MaintenanceConserves | src/morningstar_modbus/persistence/storage_v2.py:341-504 | So archiving and pruning at a midnight cutoff, from any state a run can reach between ranges, keep every row ever stored |
| Archive.FreshStoreIsSafe | src/morningstar_modbus/persistence/storage_v2.py:136-148 | A database with no archive yet is a state the conservation theorem starts from |
| Archive.PassLosesExactly | src/morningstar_modbus/persistence/storage_v2.py:341-475 | For any store and cutoff, a pass loses rows if and only if some archived row that is no longer raw lies in a day whose file it rewrites |
| Archive.SecondPassLosesExactly | src/morningstar_modbus/persistence/storage_v2.py:341-504 | After one complete maintenance, a later pass loses rows if and only if the first cutoff fell inside a day with rows on both sides of it |
| Archive.MidnightSplitsNoDay | src/morningstar_modbus/persistence/storage_v2.py:355-383 | A midnight cutoff never has rows of one day on both sides |
| Archive.PruneLosesExactly | src/morningstar_modbus/persistence/storage_v2.py:477-504 | Pruning loses a row if and only if it lies in a verified range whose file does not hold it |
| Archive.IntradayCutoffLoses | src/morningstar_modbus/persistence/storage_v2.py:341-504 | Two rows of one day with the first cutoff between them: the second pass loses the first row |
| Archive.LateInsertIsLost | src/morningstar_modbus/persistence/storage_v2.py:477-504 | A row inserted below the end of an archived day is deleted by the next pruning without being in its file |
| Archive.StorageManager.ArchiveBefore | src/morningstar_modbus/persistence/storage_v2.py:341-383 | The day loop between the oldest and the newest row archives every day before the cutoff, the last one up to it |
| Archive.StorageManager.ArchiveRange | src/morningstar_modbus/persistence/storage_v2.py:385-475 | Writes a range unless it is empty or already verified; an existing entry keeps its end |
| Archive.StorageManager.PruneVerifiedArchives | src/morningstar_modbus/persistence/storage_v2.py:477-504 | Deletes exactly the raw rows of verified ranges that end by the cutoff, in whatever order the ranges come |
| Grouping.GroupsAreSelections | src/morningstar_modbus/persistence/storage_v2.py:205-301 | Over ordered keys, runs of equal keys are the groups of GROUP BY: one a key, holding all its rows |
| Compression.RunsAreFaithfulExactly | src/morningstar_modbus/persistence/storage_v2.py:303-339 | Expanding the state runs gives back the raw texts if and only if no two rows of one time differ in text |
| Compression.TiedTextsCollapse | src/morningstar_modbus/persistence/storage_v2.py:303-339 | Two rows of one time with different texts become one run that expands wrongly |
| Compression.AdjacentRunsDiffer | src/morningstar_modbus/persistence/storage_v2.py:303-339 | Neighbouring runs differ in value and do not overlap in time |
| Compression.RollupTotals | src/morningstar_modbus/persistence/storage_v2.py:251-301 | Rollup counts sum to the number of raw rows, and rollup transitions to one fewer than the state runs |
| Compression.RollupsAreBuckets | src/morningstar_modbus/persistence/storage_v2.py:251-301 | Each time bucket gets one rollup, of exactly its rows |
| RollupTables.NumericRollupsKeepTheSum | src/morningstar_modbus/persistence/storage_v2.py:205-250 | Counts total the number of readings, averages weighted by counts give back their sum, and averages lie between the stored extremes |
| RollupTables.NumericRollupsAreBuckets | src/morningstar_modbus/persistence/storage_v2.py:205-250 | Each time bucket gets one numeric rollup, of exactly its readings |
| RollupTables.RebuildIsIdempotent | src/morningstar_modbus/persistence/storage_v2.py:205-301 | Rebuilding on unchanged raw rows changes nothing, and rollups from the cutoff on are never touched |
| RollupTables.RebuiltKeysExactly | src/morningstar_modbus/persistence/storage_v2.py:205-301 | After a rebuild a bucket has a rollup if and only if it had one from the cutoff on, or some reading or text before the cutoff falls into it |
| RollupTables.RebuildRefusedExactly | src/morningstar_modbus/persistence/storage_v2.py:205-301 | A rebuild fails if and only if some bucket holds both a reading and a text before the cutoff |
| RollupTables.RollupLostExactly | src/morningstar_modbus/persistence/storage_v2.py:590-612 | Between two rebuilds, whatever was inserted or pruned meanwhile, a rollup is lost if and only if its bucket starts before the second cutoff and no raw row before that cutoff is left in it |
| RollupTables.RollupIsLost | src/morningstar_modbus/persistence/storage_v2.py:590-612 | Two readings in two buckets: pruning the first and rebuilding at a later cutoff loses its rollup |
| RollupTables.RebuildForgetsPruned | src/morningstar_modbus/persistence/storage_v2.py:205-301 | Once everything before some time has been pruned, any later rebuild leaves no rollup of a bucket that ended by that time; with no raw row left it keeps only what starts from the cutoff on |
| RollupTables.InsertedBeforeCutoff | src/morningstar_modbus/persistence/storage_v2.py:205-301 | Inserted rollups never collide with the ones kept from the cutoff on |
| RollupTables.RollupTable.BuildRollups | src/morningstar_modbus/persistence/storage_v2.py:205-301 | Delete and insert compute the rebuilt table, or roll back when one bucket would hold both a numeric and a text rollup |
| RollupRows.NumericRowExactly | src/morningstar_modbus/persistence/storage_v2.py:205-250 | In the rebuilt table a bucket's row counts its readings before the cutoff, has the earliest and the latest value, the extremes that occur, and their average |
| RollupRows.TextRowExactly | src/morningstar_modbus/persistence/storage_v2.py:251-301 | A bucket's text row counts its texts, has the first and the last, and the number of changes that fall into the bucket, the one from the bucket before included |
| RollupRows.KeptRowExactly | src/morningstar_modbus/persistence/storage_v2.py:205-301 | Rows from the cutoff on are left as they are |
| RollupRows.BucketExactly | src/morningstar_modbus/persistence/storage_v2.py:205-301 | A bucket starts at a multiple of its width and holds the times from there to the next |
| RunTables.RunsStartAtChanges | src/morningstar_modbus/persistence/storage_v2.py:303-339 | Runs start exactly at the times of rows whose text differs from the row before, also among rows of equal times |
| RunTables.EveryRowInARun | src/morningstar_modbus/persistence/storage_v2.py:303-339 | Every raw row lies within a run, and every run starts and ends at the time of a row |
| RunTables.StartsAscend | src/morningstar_modbus/persistence/storage_v2.py:303-339 | The runs of any ordered rows start at strictly ascending times, so inserting them never violates the primary key |
| RunTables.RebuiltRunsExactly | src/morningstar_modbus/persistence/storage_v2.py:303-339 | After a rebuild there is a run from a time if and only if there was one from the cutoff on, or the text changes there before the cutoff |
| RunTables.RunLostExactly | src/morningstar_modbus/persistence/storage_v2.py:303-339 | Between two rebuilds a run is lost if and only if it starts before the second cutoff and the remaining rows do not change there |
| RunTables.RunsForgetPruned | src/morningstar_modbus/persistence/storage_v2.py:303-339 | No run from before a pruning survives the next rebuild, and the first row left starts a run even if its text is no change |
| RunTables.RunTable.BuildStateRuns | src/morningstar_modbus/persistence/storage_v2.py:303-339 | Deleting and inserting row by row compute the rebuilt table, and no insert meets an existing row |
| Incidents.IncidentStore.Reconcile | src/morningstar_modbus/persistence/incidents.py:129-262 | A scan is applied whole, row by row and transition by transition as specified, or refused with nothing changed; it is refused if and only if a finding that opens an incident is active in another site or repeated in the scan |
| Incidents.IncidentStore.ObserveFindings | src/morningstar_modbus/persistence/incidents.py:154-238 | The loop over findings touches a row once for every finding with its fingerprint and opens one for every other |
| Incidents.IncidentStore.ResolveAbsent | src/morningstar_modbus/persistence/incidents.py:240-260 | Closes exactly the site's incidents that are absent from the findings and whose key was evaluated |
| Incidents.ClashExactly | src/morningstar_modbus/persistence/incidents.py:39-41 | What the unique index sees in the middle of a scan: the incidents active before it, and the findings already opened |
| Incidents.FinalKeepsUnique | src/morningstar_modbus/persistence/incidents.py:39-41 | An accepted scan leaves at most one active incident per fingerprint over all sites |
| IncidentRows.RowAfterExactly | src/morningstar_modbus/persistence/incidents.py:154-260 | Row by row: resolved incidents and other sites' stay; a reported one shows the last finding with its fingerprint and counts all of them; an absent one is closed if its key was evaluated, and otherwise stays |
| IncidentRows.NewRowsExactly | src/morningstar_modbus/persistence/incidents.py:154-200 | The new rows are exactly the findings that no active row of the site owned, opened at the time of the scan |
| IncidentRows.TransitionsExactly | src/morningstar_modbus/persistence/incidents.py:194-262 | With distinct findings, a transition is announced if and only if it shows a row of the new table that is new, visibly changed, or no longer active |
| IncidentRuns.ScanDecidesLive | src/morningstar_modbus/persistence/incidents.py:129-262 | The active set after a scan is what it reported, plus what was active and not both absent and evaluated; other sites are untouched |
| IncidentRuns.RunsStayUnique | src/morningstar_modbus/persistence/incidents.py:39-41 | In every run of scans a fingerprint has at most one active incident |
| IncidentRuns.ResolvedForEver | src/morningstar_modbus/persistence/incidents.py:240-260 | A resolved incident is never changed by any later scan, and no incident disappears |
| IncidentRuns.OccurrencesAreSightings | src/morningstar_modbus/persistence/incidents.py:206-211 | The occurrence count is the number of times applied scans of its site reported the incident between its opening and its resolution |
| IncidentRuns.LogTellsLive | src/morningstar_modbus/persistence/incidents.py:198-260 | Folding the transitions of a whole run reproduces the active set |
| IncidentRuns.LogTellsEveryFace | src/morningstar_modbus/persistence/incidents.py:202-238 | With no fingerprint repeated in a scan, replaying the transitions reproduces state, severity, confidence, title and summary of every incident: no visible change goes unreported |
| Detectors.KeyTextInjective | src/morningstar_modbus/intelligence/incidents.py:423-427 | No two detectors and no two subjects share a fingerprint |
| Detectors.EvaluateController | src/morningstar_modbus/intelligence/incidents.py:365-413 | The accumulated findings and evaluated keys are those of the eight detectors' verdicts; without a sample only the offline detector judges |
| Detectors.Evaluate | src/morningstar_modbus/intelligence/incidents.py:218-259 | The scan handed to the store holds the verdicts on every controller and on the solar baseline, and no others |
| Detectors.ScanRefusedExactly | src/morningstar_modbus/intelligence/incidents.py:218-259 | A scan never repeats a fingerprint, and is refused if and only if one of its findings is active in another site only |
| Detectors.SharedControllerBlocks | src/morningstar_modbus/intelligence/incidents.py:218-259 | From the empty store, two sites that share a controller which is offline: the second site's scan is refused |
| Detectors.VerdictsDecideLive | src/morningstar_modbus/intelligence/incidents.py:218-259 | After a scan an incident is active if and only if its detector raised it, or nothing judged it and it was active before |
| Verdicts.VerdictOnExactly | src/morningstar_modbus/intelligence/incidents.py:218-259 | In a scan every controller is judged by each detector on its own readings, the site by the solar baseline, and nobody else |
| Verdicts.FindingTellsVerdict | src/morningstar_modbus/intelligence/incidents.py:365-413 | Every finding is that of a verdict the scan raised, under the detector's name, with its severity, confidence and measurement, and with the controller unless it is the site's |
| Verdicts.IncidentShowsVerdict | src/morningstar_modbus/intelligence/incidents.py:218-259 | After a scan an active incident shows the severity, confidence, wording and measurement of the verdict that scan raised, whenever it was opened |
| Verdicts.MarksOfSamples | src/morningstar_modbus/intelligence/incidents.py:444-576 | From which voltage difference and from which loss the sense and the efficiency detector warn or call it critical, without division, and that the finding names the measured value |
| Detectors.ScanKeepsKeysMatch | src/morningstar_modbus/persistence/incidents.py:129-262 | Incidents opened by the detectors keep an evaluation key equal to their fingerprint |
| Detectors.VerdictsAreMonotone | src/morningstar_modbus/intelligence/incidents.py:633-754 | Worse polling, more charge cycles or less solar power never earn a milder verdict |
| Detectors.SampleVerdictsAreMonotone | src/morningstar_modbus/intelligence/incidents.py:444-576 | Neither do a lower efficiency, a wider voltage difference or less day coverage |
| Detectors.SenseIsSymmetric | src/morningstar_modbus/intelligence/incidents.py:444-475 | The sense detector depends on the distance of the two voltages only |
| SiteHealth.HealthScore | src/morningstar_modbus/intelligence/incidents.py:995-1023 | Clamping at zero after every incident gives each category 20 points less its whole penalty, cut off once; score and status follow |
| SiteHealth.ScoreIgnoresOrder | src/morningstar_modbus/intelligence/incidents.py:1004-1022 | The score does not depend on the order of the incidents |
| SiteHealth.FullScoreExactly | src/morningstar_modbus/intelligence/incidents.py:1004-1022 | The score is 100 if and only if no active incident belongs to a scored category |
| SiteHealth.PenaltyByCounts | src/morningstar_modbus/intelligence/incidents.py:1004-1022 | A category loses 20 points for each critical incident, 8 for each warning, 2 for any other |
| SiteHealth.ScoreMeans | src/morningstar_modbus/intelligence/incidents.py:1004-1022 | "Good" means at most 15 points lost, "critical" more than 40, and one critical incident in a scored category rules "good" out |
| SiteHealth.ChargeCycleSummary | src/morningstar_modbus/intelligence/incidents.py:909-932 | One loop over the rows yields the collapsed stage sequence, its absorption and float entries, and the time spent in each stage |
| SiteHealth.CollapseCountsRuns | src/morningstar_modbus/intelligence/incidents.py:925-932 | The collapsed sequence never repeats a stage at once, and counts each stage by its maximal runs |
| SiteHealth.TimeInExactly | src/morningstar_modbus/intelligence/incidents.py:909-924 | The time in a stage is what passes from each of its rows to the next row that names a stage, stretches over fifteen minutes left out |
| SiteHealth.SteadyStage | src/morningstar_modbus/intelligence/incidents.py:918-924 | A stage named by every row, in order and without a long pause, has lasted the whole span |
| SiteHealth.TimeWithinSpan | src/morningstar_modbus/intelligence/incidents.py:921-924 | For ordered rows no time is counted twice: any distinct stages together last no longer than the rows span |
| AutoPoll.PassMeans | src/morningstar_modbus/polling/service.py:335-397 | What a passed stage says of its polls: at least the required part succeeded, at most the allowed parts missed their deadline or failed requests, none overloaded the bus, and all but a twentieth left the required headroom |
| AutoPoll.PassesSlower | src/morningstar_modbus/polling/service.py:378-397 | Evidence that passes at an interval passes at every slower one |
| Calibration.PassExactly | src/morningstar_modbus/polling/service.py:335-397 | A stage passes if and only if five conditions on the numbers of its polls hold, stated without division |
| Calibration.CleanEvidencePasses | src/morningstar_modbus/polling/service.py:335-397 | Polls that all succeed in time, with no failed request and no overloaded bus, pass under any thresholds that allow it |
| AutoPoll.StagedShape | src/morningstar_modbus/polling/service.py:243-245 | The stages are the configured intervals and the fallback, each once, slowest first |
| AutoPoll.ValidatedIsWellFormed | src/morningstar_modbus/config/settings.py:236-248 | Settings that pass validation give a well-formed controller: positive stages in strictly descending order that begin with the fallback |
| AutoPoll.AutoPollIntervalController.Create | src/morningstar_modbus/polling/service.py:228-252 | Which of the three configuration errors is raised, and otherwise a controller at its first stage |
| AutoPoll.AutoPollIntervalController.Observe | src/morningstar_modbus/polling/service.py:270-313 | Collecting, judging, advancing, retreating and locking compute the next calibration state and message |
| AutoPoll.AutoPollIntervalController.Reset | src/morningstar_modbus/polling/service.py:264-268 | Returns to the first stage with nothing buffered |
| AutoPoll.NextKeepsInvariant | src/morningstar_modbus/polling/service.py:270-313 | Buffered polls are all of the interval under test; the last safe interval is the stage before it; a lock is the last safe interval, the fallback, or the fastest stage once it passed |
| AutoPoll.CurrentIsConfigured | src/morningstar_modbus/polling/service.py:254-258 | The interval in force is always one of the stages |
| AutoPoll.AdvanceMeansAllPassed | src/morningstar_modbus/polling/service.py:283-313 | An advance or a final selection means every present controller passed, on a full stage of polls taken at that interval |
| Calibration.ObservationExactly | src/morningstar_modbus/polling/service.py:270-313 | A stage is judged if and only if nothing is locked and every present controller has a full stage of polls; calibration stops if and only if some present controller's last full stage fails, naming exactly those; judging uses the polls up, waiting keeps them |
| AutoPoll.OneEvaluationPerStage | src/morningstar_modbus/runtime/watcher.py:118-136 | Between resets each stage is evaluated at most once, so calibration locks within as many evaluations as there are stages |
| AutoPoll.LockedUntilReset | src/morningstar_modbus/runtime/watcher.py:163-166 | Once locked, only a changed controller set moves the interval |
| AutoPoll.FailureRetreatsOneStage | src/morningstar_modbus/polling/service.py:298-304 | A failed stage locks the next slower stage, or the first one itself |
| AutoPoll.BuildReport | src/morningstar_modbus/polling/service.py:400-420 | The report recommends the last of the leading stages that passed, and names the first failed or else the last stage as fastest |
| AutoPoll.LiveRefinesReport | src/morningstar_modbus/polling/service.py:270-313 | Fed the polls of a benchmark, the live controller with one device locks on the report's recommendation, or on the fallback if there is none |
| Percentiles.PercentileIgnoresOrder | src/morningstar_modbus/polling/service.py:23-33 | A percentile depends on the values, not on their order |
| Percentiles.PercentileMonotone | src/morningstar_modbus/polling/service.py:23-33 | A larger fraction never gives a smaller percentile |
| Percentiles.PercentileRank | src/morningstar_modbus/forecasting/service.py:40-50 | What the interpolated value means: how many values are at or below it, how many at or above it, and that it lies between two of them |
| Percentiles.PercentileAtRank | src/morningstar_modbus/polling/service.py:23-33 | At a whole position the percentile is the value of that rank |
| Percentiles.PercentileLinear | src/morningstar_modbus/polling/service.py:23-33 | Between two neighbouring ranks it is linear in the position |
| Forecast.SolarForecast | src/morningstar_modbus/forecasting/service.py:197-239 | The loop over the 96 buckets accumulates the day curve, the due and covered buckets, and the expected, observed and remaining energies |
| Forecast.CurveBandsOrdered | src/morningstar_modbus/forecasting/service.py:203-238 | Every point of the curve has its 10th, 50th and 90th percentiles in order |
| Forecast.RemainingOrdered | src/morningstar_modbus/forecasting/service.py:220-226 | The remaining energies, and with them the end-of-day energies, keep the order of their fractions |
| Forecast.EndOfDayIsWholeDay | src/morningstar_modbus/forecasting/service.py:299-308 | No bucket is counted twice or left out: a day that follows the forecast has the same end-of-day energy whatever the hour |
| Outlooks.CurveExactly | src/morningstar_modbus/forecasting/service.py:197-239 | The curve is ascending and has a point for exactly the quarter hours with a value in the training days or today |
| Outlooks.SteadyObserved | src/morningstar_modbus/forecasting/service.py:208-219 | With constant power, each quarter hour that has begun has given a quarter of it in watt hours |
| Outlooks.SteadyRemaining | src/morningstar_modbus/forecasting/service.py:220-226 | With training days of constant power each later quarter hour is expected to give as much, whatever the percentile |
| Outlooks.SteadyExpected | src/morningstar_modbus/forecasting/service.py:208-219 | With training days of constant power, what should have come by now counts every begun quarter hour if they are productive, and none otherwise |
| Forecast.QuantileIgnoresDayOrder | src/morningstar_modbus/forecasting/service.py:198-205 | The order of the training days does not matter |
| Forecast.Backtest | src/morningstar_modbus/forecasting/service.py:351-389 | The loop yields the rows of all days with enough history, the last ones kept, and counts those inside their band |
| Outlooks.BacktestExactly | src/morningstar_modbus/forecasting/service.py:351-389 | There is one row for each day that has enough days before it and no other, in order, with the percentiles of exactly the preceding days the policy keeps, the day's place in the band and its relative error |
| Forecast.NoLookAhead | src/morningstar_modbus/forecasting/service.py:352-362 | A backtested day is judged by earlier days alone: later days change none of its rows |
| Gaps.Coverage | src/morningstar_modbus/history/analytics.py:182-225 | Covered days are the live and the recovered ones, missing days the partial and the absent ones |
| Gaps.CountExactly | src/morningstar_modbus/history/analytics.py:182-225 | The counts are those of the days of a kind |
| Gaps.FindGaps | src/morningstar_modbus/history/analytics.py:245-280 | The grouping loop returns disjoint, ordered, uniform gaps that cover exactly the days without live samples, touching gaps differing in status |
| Gaps.GroupingUnique | src/morningstar_modbus/history/analytics.py:259-280 | There is only one such grouping |
| Gaps.DurationsAreCounts | src/morningstar_modbus/history/analytics.py:259-280 | The gaps of a status last as many days as the period has days of that status |
| Gaps.GapsAgreeWithCoverage | src/morningstar_modbus/history/analytics.py:180-280 | The two reports of a period agree: recovered gaps make up the recovered days, partial and missing gaps the missing days, and with the live days all days |
| Energy.Integrate | src/morningstar_modbus/history/analytics.py:336-347 | The loop computes the trapezoids, the integrated seconds and the skipped seconds of neighbouring samples |
| Energy.SecondsExactly | src/morningstar_modbus/history/analytics.py:339-347 | Integrated are exactly the distances between neighbours up to the allowed gap, skipped those above it; steps back in time count for neither |
| Energy.LineIsTrapezoid | src/morningstar_modbus/history/analytics.py:339-347 | For samples on one straight line without a gap the totals are the trapezoid of the two end samples and the whole span |
| Energy.SecondsConservedExactly | src/morningstar_modbus/history/analytics.py:339-347 | Integrated and skipped seconds make up the span of the samples if and only if the samples are in time order |
| Energy.EnergyBetween | src/morningstar_modbus/history/analytics.py:346-347 | The energy lies between least and greatest power over the integrated time |
| Energy.SplitAtSample | src/morningstar_modbus/history/analytics.py:339-347 | Splitting at any shared sample makes all three totals add up |
| Energy.CollinearSampleIsFree | src/morningstar_modbus/history/analytics.py:346-347 | A sample on the line between its neighbours changes neither energy nor time |
| Tables.TableParser.Feed | src/morningstar_modbus/history/retained/liveview.py:64-101 | Feeding events one by one reaches the state of the run over all of them |
| Tables.ReadsCell | src/morningstar_modbus/history/retained/liveview.py:84-91 | The events of one printed cell, its text split and marked up in any way, append exactly its cleaned text to the row |
| Tables.ReadsRow | src/morningstar_modbus/history/retained/liveview.py:92-95 | The events of one printed row append its cell texts to the table, or nothing if all are blank |
| Tables.ReadsTable | src/morningstar_modbus/history/retained/liveview.py:96-101 | The events of one printed table append its non-blank rows as a table, or nothing if there are none |
| Tables.ReadingUndoesPrinting | src/morningstar_modbus/history/retained/liveview.py:64-101 | For flat tables printed with cells split into any chunks, inline markup, and text between the tags: the tables read are exactly the cleaned non-blank rows |
| Tables.ChunkingIrrelevant | src/morningstar_modbus/history/retained/liveview.py:84-91 | How the text of a cell is split does not matter |
| Tables.CleanTextIdempotent | src/morningstar_modbus/history/retained/liveview.py:104-105 | Cleaning twice is cleaning once |
| Datalog.OffsetRoundTrip | src/morningstar_modbus/history/retained/liveview.py:134-136 | A printed day offset of either sign is read back |
| Datalog.AcceptedExactly | src/morningstar_modbus/history/retained/liveview.py:215-222 | A printed offset is taken if and only if it is today's or that of a day not too far back |
| Datalog.RecordFromColumn | src/morningstar_modbus/history/retained/liveview.py:139-190 | One column gives the record of its day, built row by row from the rows that have a label other than the day row's and text in the column; complete exactly for past days |
| Datalog.FieldIsLastTold | src/morningstar_modbus/history/retained/liveview.py:149-170 | A field of the record is absent if no row tells it, and otherwise holds the cleaned text of the last telling row whose label maps to it |
| Datalog.RawIsLastTold | src/morningstar_modbus/history/retained/liveview.py:149-158 | The same for the raw texts, under the headings as printed |
| Datalog.ParseDatalog | src/morningstar_modbus/history/retained/liveview.py:193-229 | The loops over tables and columns return the records of the first table that has any, newest first, or the error |
| Datalog.ColumnsAreRead | src/morningstar_modbus/history/retained/liveview.py:208-226 | Every column whose offset is taken gives the record of that very column |
| Datalog.RecordsAreHonest | src/morningstar_modbus/history/retained/liveview.py:208-229 | No record lies in the future or too far back, exactly past days are complete, days never ascend, no record of the deciding table is lost or repeated, and the error means no table had a record |
| Datalog.DistinctDaysExactly | src/morningstar_modbus/history/retained/liveview.py:227-228 | The days strictly descend if and only if the accepted offsets are distinct |
| Versions.VersionRoundTrip | src/morningstar_modbus/catalog/compatibility.py:18-22 | Printing a version with dots and reading it gives its components back |
| Versions.DigitRunsAreRead | src/morningstar_modbus/catalog/compatibility.py:18-22 | Every maximal run of digits in any text is read as one component, whatever separates the runs |
| Versions.CompareExactly | src/morningstar_modbus/catalog/compatibility.py:25-33 | The padded comparison decides by the first component that differs, absent components counting as zero |
| Versions.ComparePreorder | src/morningstar_modbus/catalog/compatibility.py:25-33 | A total preorder on numeric versions of any lengths, although the padding differs from pair to pair |
| Versions.TrailingZerosIrrelevant | src/morningstar_modbus/catalog/compatibility.py:30-33 | Trailing zero components never change a comparison |
| Versions.RangeIsConvex | src/morningstar_modbus/catalog/compatibility.py:36-43 | A version between two accepted ones is accepted |
| Versions.RangeExactly | src/morningstar_modbus/catalog/compatibility.py:36-43 | A range holds exactly what is neither before its first nor after its last version; a bound without digits cannot be judged, unless the first bound already excludes the version |
| Versions.EffectiveIsFilter | src/morningstar_modbus/catalog/compatibility.py:46-55 | The effective items are exactly those in range, each as often and in the order it occurs; one unreadable bound fails the listing |

## Left out

- Watcher.ControllerWatcher.RefreshDevices: says nothing of a cycle in which a registration reuses a retired alias; discovery itself is the list of devices found.
- RegistryRuns.SerialsNeverMerge: the times identities were last seen are not stored; that a pass lists the identity just observed last is a condition on the run.
- Registry.ControllerInventory.RecordSuccess: the identity's last sight and the connection's last success are not modelled.
- Registry.ControllerInventory.MarkAllOffline: the status column of the device rows is not modelled.
- Registry.ControllerRegistry.RegisterObservation: says nothing of the result when a retired alias is reused; the mirrored device status, transport columns, locations and evidence rows are not modelled.
- Archive.StorageManager.ArchiveRange: a failed verification and a stop before the catalogue entry are steps of the step machine, not outcomes of this method.
- Archive.RowsAreConserved: assumes cutoffs at UTC midnight and no insert older than an archived range, as the exact laws beside it show it must.
- Detectors.Evaluate: titles, summaries and evidence lists are a parameter; polling, coverage and charge summaries arrive as values, a failed query as none.
- Incidents.IncidentStore.Reconcile: resolutions are reported in table order; the database does not promise any.
- Tables.ReadingUndoesPrinting: nested tables are not covered; the parser ends an outer cell at the first inner cell's end.
- Datalog.RecordFromColumn: field values stay text; parsing of decimals and hour meters, and the conversion of days to UTC instants, are not modelled.
- Forecast.Backtest: means and medians of the errors are not modelled; the policy's numbers are parameters.
- SiteHealth.ChargeCycleSummary: the query for the last 24 hours is a list of rows.
- Firmware values given as floating-point numbers are not modelled; versions come from text or are absent.
- FastAPI routes, event streams, exports and the command line apart from the benchmark report.
- SQLite, Parquet, Zstandard and SHA-256 internals; batches, file replacement and reading back are single steps that may stop between them.
- The TCP transport, timeouts, locks, thread pools and cancellation; a port is the bytes it will deliver.
- Float decoding and the register tables of the controller families.
- The watcher's per-endpoint clients, profiles and lifecycles, and persistence limiting.
- System-wide bucketed history, power summaries and component inventories.
- SNMP traps, configuration validation beyond the benchmark settings, the maintenance scanner and the provenance gate.
- Letter case beyond ASCII, and the splitting of Unicode digits.
- Charge forecasts and maintenance forecasts.
