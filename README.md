# SparkWeaver ESP32 firmware: BLE tree transport, passkey policy and blob store

This is a Dafny model of the transport core of the SparkWeaver ESP32 firmware.
A mobile client configures and drives a lighting "tree" program over
Bluetooth Low Energy. The model covers the following parts.

- **Tree characteristic** (`ChrTreeCallbacks`, src/bluetooth.cpp). It moves a
  blob of any length in chunks that fit the negotiated ATT MTU.
  - Each read serves the next chunk: one sequence byte (1, 2, …), then up to
    `MTU − 16` bytes of the published blob.
  - A lone `0x00` says the transfer is complete. A lone `0xFF` says the
    253-chunk counter ran out.
  - Each write delivers the next chunk of a new blob. The chunk counter
    wraps as a `uint8_t`.
  - A lone `0x00` hands the accumulated bytes to the store.
  - A short packet, or one with the wrong number, discards the transfer.
  - A new connection resets both sessions.
- **Passkey** (`setPw`, `ChrPwCallbacks`, `Bluetooth::init`).
  - The six-digit pairing passkey starts at the default 654321.
  - A 4-byte little-endian write proposes a new one. It is accepted when it
    lies in 100000..999999 and is not 123456.
  - An accepted value is persisted. Advertising is stopped if the BLE stack
    reports that it is running. `deleteBond` is called for each bond index
    below `getNumBonds()`. Then advertising restarts with the new passkey.
  - Reading the characteristic gives 0x01 while the default is in use, and
    0x00 otherwise.
  - At boot a stored value out of range is removed.
- **Trigger characteristic**. A read returns the engine's trigger list. A
  write of exactly one byte fires that trigger.
- **Blob store** (namespace `Tree`, src/tree.cpp).
  - `setTree` asks the engine to build the candidate.
  - On success it adopts the candidate and persists it. It removes the file
    when the tree has at most one byte.
  - On failure it clears the tree. Either way it publishes the result into
    the tree characteristic.
  - `init` loads the file. If that leaves the tree empty, it falls back to the
    one-byte tree `[TREE_VERSION]`.

The model has five modules.

- `Bytes`: the `byte`, `uint16` and `uint32` types, `Option`, and the
  wrapping increment.
- `Chunking`: the reader and writer as pure step functions, `ReadStep` and
  `WriteStep`, with lemmas about whole traversals and transfers.
- `TreePolicy`: the store's decisions as pure functions.
- `TreeTransfer`: two classes whose fields are the source's mutable state.
  - `ChrTreeCallbacks` has `data_offset`, `chunk_number`, `write_chunk`,
    `write_data` and `full_data`. Each of its methods is proved against the
    step functions.
  - `TreeStore` holds the tree, the file and the engine.
  - The two classes share a module because each calls the other. `onWrite`
    calls `Tree::setTree`, which calls `Bluetooth::setTree`.
- `Passkey`: the passkey policy, plus a class `BleSecurity` that holds
  `ble_pw`, the stored key, the advertising this code started or stopped, and
  a log of platform calls.

The model has these parameters:
- The engine's verdict on a blob is `engineAccepts`. It holds exactly when
  `engine.build` returns instead of throwing.
- `engineTriggers(blob)` is what `engine.listExternalTriggers()` returns once
  the engine has built `blob`. The store's `built` field is the last blob
  `build` accepted, so the list follows every successful `setTree`.
- `getMTU()` is the `mtu` argument of a read.
- `getNumBonds()` is the `nBonds` argument of the passkey change.
- `p_advertising->isAdvertising()` is the `isAdvertising` argument of the
  passkey change. The stack ends advertising by itself when a client
  connects, so this answer is not the model's own `advertising` record.

The startup order in src/main.cpp:16-17 is `Bluetooth::init` then
`Tree::init`. It corresponds to `BleSecurity.Init` followed by `TreeStore.Init`.

Some behaviours of the code are easy to miss. The model keeps each of them:
- **Empty blobs.** A lone `0x00` write with nothing accumulated hands an
  *empty* blob to `setTree`. The writer does not filter it out. When the
  engine refuses it, that submission clears the tree (`LoneEndClearsTree`).
- **One-byte trees.** A one-byte tree is adopted but not persisted. The next
  boot falls back to `[TREE_VERSION]` (`OneByteTreeNotKeptAcrossBoot`).
- **Boot check.** The boot-time check tests only the range. A stored 123456
  is kept, although `setPw` refuses it (`BootKeepsStoredWeakValue`).
- **The 253-chunk limit.** The counter test comes before the
  remaining-bytes test. A blob that needs exactly 253 chunks is therefore
  served in full and then answered with `0xFF`, not `0x00`
  (`ExactlyMaxChunksEndsInError`).
  - Reassembling the payload works for blobs of up to 253 chunks.
  - The end sentinel only arrives for up to 252 chunks (`ReadRoundTrip`,
    `ReadOverflow`).

## Model

| member | source | states |
|---|---|---|
| Bytes.Inc | src/bluetooth.cpp:124 | the write counter increments modulo 256, so 0xFF wraps to 0x00 |
| Chunking.ChunkCap | src/bluetooth.cpp:93 | a chunk carries at most MTU − 16 payload bytes, a positive amount below the MTU |
| Chunking.ReadStep | src/bluetooth.cpp:83-107 | one read of the tree characteristic. The value is a 1-byte sentinel exactly when the counter passed 253 or nothing is left. It is 0xFF exactly when the counter passed 253, and 0x00 when the counter is within range and the offset has reached or passed the end of the blob. After a sentinel the reader is idle. Otherwise the value is the current number and then the next min(cap, remaining) bytes of the blob, the offset advances by that amount and the number by one. The reachable-state invariant is kept |
| Chunking.ReadsUntilSentinel | src/bluetooth.cpp:83-107 | reading again and again ends in exactly one 1-byte sentinel, and every earlier value carries data |
| Chunking.TraversalSentinel | src/bluetooth.cpp:86-104 | from any reachable reader state, a traversal ends in 0x00 exactly when the remaining bytes fit the chunk numbers left before the limit, and in 0xFF otherwise |
| Chunking.TraversalPayload | src/bluetooth.cpp:90-100 | from any reachable state, the stripped payloads of a traversal are exactly the next bytes of the blob, in order, up to what the numbers left can carry |
| Chunking.TraversalNumbering | src/bluetooth.cpp:98 | the data values of a traversal carry consecutive numbers starting at the state's number |
| Chunking.ReadRoundTrip | src/bluetooth.cpp:83-107 | from idle, a blob of at most 252 chunks is served as chunks numbered 1, 2, … whose payloads concatenate to the blob, followed by 0x00 |
| Chunking.ReadOverflow | src/bluetooth.cpp:86-89 | a blob needing more than 252 chunks ends in 0xFF after delivering its first min(length, 253·cap) bytes |
| Chunking.ExactlyMaxChunksEndsInError | src/bluetooth.cpp:86-103 | a blob needing exactly 253 chunks is delivered in full, yet the traversal ends in 0xFF |
| Chunking.ReadFiftyBytesAtMtu36 | src/bluetooth.cpp:93-100 | with cap 20, a 50-byte blob is served as [1]+bytes 0–19, [2]+bytes 20–39, [3]+bytes 40–49, then [0x00] |
| Chunking.WriteStep | src/bluetooth.cpp:109-130 | one write. The accumulated blob is handed over exactly on a lone 0x00. An in-sequence packet appends its payload and advances the wrapping counter. Every other packet, the end sentinel included, leaves the writer idle |
| Chunking.Framed | src/bluetooth.cpp:120-124 | the packets a client sends, one per payload, numbered with the counter's wrap-around |
| Chunking.FramedAt | src/bluetooth.cpp:120-124 | the i-th packet carries number (first + i) mod 256 and then the i-th payload |
| Chunking.WriteTransfer | src/bluetooth.cpp:109-130 | from any writer state, framed packets from the expected number, then 0x00, submit exactly one blob: the earlier accumulation followed by all payloads. The writer ends idle |
| Chunking.WriteRoundTrip | src/bluetooth.cpp:109-130 | from idle, packets [1]+p1, [2]+p2, …, [0x00] submit p1 + p2 + … exactly once |
| Chunking.ViolationResets | src/bluetooth.cpp:116-128 | a short or out-of-sequence packet discards the accumulation and submits nothing. The following writes behave as from idle |
| Chunking.RecoveryAfterViolation | src/bluetooth.cpp:116-128 | after a violation, a fresh transfer numbered from 1 succeeds and submits only its own payloads |
| Chunking.WriteFiveBytesInTwoChunks | src/bluetooth.cpp:109-130 | writes [1,a,b,c], [2,d,e], [0] submit [a,b,c,d,e] once |
| TreePolicy.SetTreeAdoptsOrClears | src/tree.cpp:71-85 | setTree never keeps the previous tree. It gives the candidate if that builds, and an empty tree with the file unchanged otherwise |
| TreePolicy.EmptyCandidateClears | src/tree.cpp:74-82 | setting an empty blob leaves an empty tree whatever the engine decides |
| TreePolicy.PersistRoundTrip | src/tree.cpp:23-48 | what a successful setTree persists reads back as the whole tree when it has two or more bytes, and as nothing otherwise |
| TreePolicy.BootResult | src/tree.cpp:50-61 | after init the tree is empty or a blob the engine accepts. It is non-empty whenever [TREE_VERSION] builds |
| TreePolicy.BootRestoresPersisted | src/tree.cpp:50-61 | a tree of two or more bytes that was set successfully is the tree after the next init |
| TreePolicy.OneByteTreeNotKeptAcrossBoot | src/tree.cpp:40-61 | a one-byte tree is adopted, but after the next init the tree is [TREE_VERSION] |
| TreePolicy.BootRemovesBrokenFile | src/tree.cpp:50-61 | a stored blob that fails to build ends with tree [TREE_VERSION] and no file |
| Passkey.DecodeEncode | src/bluetooth.cpp:147 | decoding the little-endian encoding of a 32-bit value gives the value back |
| Passkey.EncodeDecode | src/bluetooth.cpp:147 | encoding the decoded value of any 4 bytes gives the bytes back |
| Passkey.AcceptedCandidateBytes | src/bluetooth.cpp:140-149 | an accepted 4-byte candidate has last byte 0 and third byte at most 0x0F, so the signed shift of the last byte never matters |
| Passkey.Status | src/bluetooth.cpp:137 | the status byte is 0x01 exactly while the passkey is the default, and 0x00 exactly otherwise |
| Passkey.SanitisedProperties | src/bluetooth.cpp:259-264 | the boot check yields an in-range passkey that agrees with the key it keeps. A valid stored key wins. An out-of-range key gives the default with the key removed. A second boot changes nothing |
| Passkey.BootKeepsStoredWeakValue | src/bluetooth.cpp:259-264 | a stored 123456 survives boot although setPw refuses it |
| Passkey.CandidateExamples | src/bluetooth.cpp:43 | 999999 and 100000 are accepted. 1000000, 99999 and 123456 are refused. Their 4-byte encodings decode to those values |
| Passkey.DeleteCalls | src/bluetooth.cpp:216-223 | unbinding n bonds deletes the bond at each index 0 … n − 1, in order |
| Passkey.BleSecurity.constructor | src/bluetooth.cpp:26 | before init the passkey is the default 654321, and nothing is advertising or logged |
| Passkey.BleSecurity.Init | src/bluetooth.cpp:258-265 | the state after the boot check is the sanitised one. A key is removed only when out of range. Starting from the default, the passkey invariant holds afterwards |
| Passkey.BleSecurity.StopAdvertising | src/bluetooth.cpp:206-214 | advertising is off afterwards, and a stop call is made exactly when the stack reports that it is advertising |
| Passkey.BleSecurity.StartAdvertising | src/bluetooth.cpp:189-204 | the current passkey is handed to the pairing stack and advertising is on |
| Passkey.BleSecurity.UnbindClients | src/bluetooth.cpp:216-223 | the call log grows by one deletion per bond index below the reported bond count |
| Passkey.BleSecurity.SetPw | src/bluetooth.cpp:41-53 | a refused value changes nothing. An accepted value becomes the passkey and is stored, then come a stop call (only if the stack reports advertising), a `deleteBond` call for each index below the bond count, and a restart with the new passkey. The passkey invariant is kept |
| Passkey.BleSecurity.OnReadPw | src/bluetooth.cpp:135-138 | the value read is the status byte, never the passkey |
| Passkey.BleSecurity.OnWritePw | src/bluetooth.cpp:140-149 | a write of length other than 4 changes nothing. A 4-byte write has exactly setPw's effect on its decoded value and then sets the status byte. The passkey invariant is kept |
| Passkey.PasskeyWrites | src/bluetooth.cpp:133-150 | on a device with no stored key, status 0x01. Writing 999999 after a client connected makes it the passkey with status 0x00, with no stop call in the log. 1000000, 123456 and a 3-byte write then leave it unchanged |
| TreeTransfer.ChrTreeCallbacks.constructor | src/bluetooth.cpp:55-75 | both sessions start idle and nothing is published |
| TreeTransfer.ChrTreeCallbacks.ResetRead | src/bluetooth.cpp:62-66 | the read session returns to offset 0, chunk 1 |
| TreeTransfer.ChrTreeCallbacks.ResetWrite | src/bluetooth.cpp:68-72 | the write session returns to chunk 1 with nothing accumulated |
| TreeTransfer.ChrTreeCallbacks.Reset | src/bluetooth.cpp:77-81 | both sessions idle. The published blob is untouched |
| TreeTransfer.ChrTreeCallbacks.Publish | src/bluetooth.cpp:271-276 | later reads serve the given blob |
| TreeTransfer.ChrTreeCallbacks.OnRead | src/bluetooth.cpp:83-107 | the value served and the new read session are exactly ReadStep's, and the reachable-state invariant is kept |
| TreeTransfer.ChrTreeCallbacks.OnWrite | src/bluetooth.cpp:109-130 | the new write session is WriteStep's. A lone 0x00 performs setTree on the accumulation and republishes the result. Any other packet leaves the store, the engine's blob and the published blob alone. The store's invariant is kept |
| TreeTransfer.TreeStore.constructor | src/tree.cpp:13-18 | the static state before init: empty tree, no blob built, the file as found, idle characteristic |
| TreeTransfer.TreeStore.StoreTreeToStorage | src/tree.cpp:40-48 | the file is removed exactly when the tree has at most one byte, and otherwise holds the whole tree |
| TreeTransfer.TreeStore.GetTree | src/tree.cpp:63-69 | a copy of the current tree, which the store's invariant ties to the published blob |
| TreeTransfer.TreeStore.SetTree | src/tree.cpp:71-85 | the tree and file change as TreePolicy.SetTree says, and the blob reads serve is the new tree. The engine runs the new blob exactly when it builds, and otherwise keeps the old one. A non-empty tree is always the blob the engine runs |
| TreeTransfer.TreeStore.Init | src/tree.cpp:50-61 | the tree and file after boot are TreePolicy.Boot's. setTree is called with the file's bytes, and with [TREE_VERSION] only when that left the tree empty |
| TreeTransfer.TreeStore.ListExternalTriggers | src/tree.cpp:95-98 | the trigger list of the blob the engine last built, passed through |
| TreeTransfer.TreeStore.TriggerExternalTrigger | src/tree.cpp:100-103 | exactly that id is passed to the engine |
| TreeTransfer.OnConnect | src/bluetooth.cpp:175-179 | a new connection leaves both tree sessions idle |
| TreeTransfer.TriggerOnRead | src/bluetooth.cpp:154-157 | reading the trigger characteristic gives the trigger list of the blob the engine last built |
| TreeTransfer.TriggerOnWrite | src/bluetooth.cpp:159-167 | a 1-byte write fires exactly that trigger. Any other length fires nothing |
| TreeTransfer.ReadFiftyBytes | src/bluetooth.cpp:83-107 | the class serves a 50-byte blob under MTU 36 as chunks 1–3 and 0x00, and is idle afterwards |
| TreeTransfer.ReconnectMidRead | src/bluetooth.cpp:175-179 | a connection in the middle of a read makes the next read serve chunk 1 again |
| TreeTransfer.WriteFiveBytes | src/bluetooth.cpp:109-130 | an in-order write hands [a,b,c,d,e] to setTree once. The stored and the published tree are that blob if it builds, and empty otherwise |
| TreeTransfer.WriteAfterMismatch | src/bluetooth.cpp:119-128 | a number mismatch discards the partial transfer. A fresh transfer from 1 then submits only its own bytes |
| TreeTransfer.LoneEndClearsTree | src/bluetooth.cpp:111-115 | a lone 0x00 with nothing accumulated submits an empty blob and clears the tree. The file keeps the previous blob unless the engine accepts the empty blob |

## Left out

- Mutexes (`tree_chr_mutex`, `tree_mutex`) and the FreeRTOS tasks. Each callback and each store call is modelled as atomic, one after another. Interleavings with the real-time `tick()` path are not modelled.
- `Tree::tick`, the DMX output and `loop()` in src/main.cpp. They do not touch the transport state.
- NimBLE device setup (`task`): the device name, TX power, MTU setting, security flags, service and characteristic UUIDs and permissions, advertising appearance and the service UUID. Pairing, encryption and bonding are enforced by the BLE stack, which is not part of this model.
- The engine (`SparkWeaverCore::Engine`). `build` is known only through `engineAccepts`, and its diagnostic messages are not modelled. The engine is assumed to keep running its last built blob when a build throws, and its trigger list is assumed to depend only on that blob. The trigger list and fired ids are opaque bytes.
- LittleFS failures: the mount result, `open` failing, short reads and failed writes. The file is modelled as present-with-contents or absent, so `loadTreeFromStorage` of an empty or unreadable file gives an empty blob exactly like a missing one.
- Preferences internals. `putUInt`, `remove` and the `isKey`/`getUInt` pair are modelled as the `storedPw` value plus entries in the call log.
- Serial logging.
- Chunking.ReadStep requires MTU > 16. The minimum ATT MTU of the Bluetooth Core Specification is 23, so every negotiated MTU meets this. The behaviour of a smaller MTU, a non-positive chunk size, is not modelled.
- Passkey.BleSecurity.UnbindClients requires at most 255 bonds. With a `uint8_t` index a larger count would never end the loop.
- Passkey.BleSecurity.UnbindClients: deleting bonds is recorded as `DeleteBond(index)` calls. The model does not claim what the bond list holds afterwards, because that depends on how NimBLE renumbers the bonds after each deletion.
- `write_data` has no size limit in the source, and the model does not add one. Memory exhaustion is not modelled.
