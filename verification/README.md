# Face identity and mood pipeline — a Dafny model

This project models the part of the smart-home simulator that turns camera
frames into people and moods:

- **The face camera** (`facecam`) keeps the set of faces visible in one room.
  Motion on the room's `motion` topic starts a periodic timer. Each tick makes
  one random change to the set (add a face not yet visible, remove one, or
  nothing) and publishes the set with its count. Motion off stops the timer,
  clears the set and publishes the empty state. While motion is off, a
  command on `face/cmd` replaces the set with the command's frames, one
  frame per digest. While motion is on, a command clears the set.
- **The face resolver** (`faceData` to `FaceNames`) digests every frame of a
  batch, looks all digests up in the face collection in one query, and
  publishes one name per frame. With each name it publishes the user's
  current mood, which is remembered per user across messages and changes only
  rarely.
- **The mood aggregator** (`mood/in` to `mood/out`) fetches each listed user's
  settings for the requested mood. It averages Celsius temperature, colour
  temperature and luminosity over the users who have complete settings, and
  publishes the averages to the room.

Frames are identified by content: FNV-1a (32-bit) over the low byte of every
colour channel, written as eight lowercase hexadecimal digits. The camera
hashes a frame over its own dimensions. The resolver hashes exactly the
top-left 64 by 64 pixels.

Modules, one per concern:

| file | module | models |
|---|---|---|
| `optional.dfy` | `Optional` | `null`/`undefined` and `??` |
| `draws.dfy` | `Draws` | a `Math.random()` draw and `Math.floor(u * n)` |
| `topics.dfy` | `Topics` | `topic.split("/")` and `parts[1] \|\| "unknown"` |
| `hex.dfy` | `Hex` | `("00000000" + h.toString(16)).slice(-8)` |
| `face_hash.dfy` | `FaceHash` | both copies of `hashFace` |
| `double_fnv.dfy` | `DoubleFnv` | `hashFace`'s double-precision multiply, as written (see Findings) |
| `visible_set.dfy` | `VisibleSet` | `visible` / `visibleHashes` and their invariant |
| `facecam.dfy` | `FaceCam` | the camera: jitter, timer, motion and command handling |
| `resolver.dfy` | `Resolver` | the face resolver's message handler and mood memory |
| `aggregator.dfy` | `Aggregator` | the mood aggregator's message handler |

Everything outside the program becomes a parameter: the random draws, the
frame pool, the generated frame, the store's replies and the keep
probability. Handlers are pure functions from (state, message, environment)
to (new state, publications). Methods `HashFaceLoop`, `HashFixedLoop`,
`SyncLoop`, `ResolveLoop` and `AccumulateLoop` follow the source's loops
statement by statement. Each is proved equal to the functional definition
that the rest of the model reasons about.

## Model

| member | source | states |
|---|---|---|
| Hex.Hex8Format | src/sensors/sims/facecam.sim.js:70 | The eight-digit digest equals zero-padding `toString(16)` and keeping the last eight characters. It is lowercase hexadecimal, and parsing it back gives the 32-bit accumulator. |
| Hex.Hex8Injective | src/sensors/sims/facecam.sim.js:70 | Two accumulators below 2^32 have the same digest if and only if they are equal. |
| FaceHash.MixRow | src/sensors/sims/facecam.sim.js:60-68 | The inner loop leaves the accumulator equal to FNV-1a over the bytes seen so far followed by the row's first `cols` pixels, three bytes per pixel, red, green, blue. |
| FaceHash.HashFaceLoop | src/sensors/sims/facecam.sim.js:54-71 | The camera's nested loop over the frame's own rows and columns yields the FNV-1a digest of the frame's channel bytes in row-major order. |
| FaceHash.HashFixedLoop | src/controllers/faceMLSim.js:25-46 | The resolver's loop over rows 0..63 and columns 0..63 yields the camera's digest of the top-left 64 by 64 crop. |
| FaceHash.HashFaceFormat | src/sensors/sims/facecam.sim.js:52-70 | The camera's digest (`FaceHash.HashFace`) is the padded lowercase numeral of the FNV-1a accumulator (offset basis 0x811c9dc5, prime 0x01000193) and parses back to it. |
| FaceHash.HashFaceCollision | src/sensors/sims/facecam.sim.js:54-71 | Two frames share a digest exactly when their byte streams give the same FNV-1a accumulator, so digest deduplication is accumulator deduplication. |
| FaceHash.EmptyFrameHash | src/sensors/sims/facecam.sim.js:56-70 | A frame with no pixels (no rows, or only empty rows) has digest "811c9dc5", the offset basis. |
| FaceHash.FnvTestVectors | src/sensors/sims/facecam.sim.js:51-53 | The modelled hash is genuine 32-bit FNV-1a: the one-octet input "a" gives the published value 0xe40c292c, and a one-pixel black frame gives 0x4ab0f7b7. |
| FaceHash.HashOnlyLowBits | src/sensors/sims/facecam.sim.js:61-67 | The digest depends only on the frame's shape and on every channel modulo 256 (`v & 0xff`). |
| FaceHash.FixedAgreesOnExactFrame | src/controllers/faceMLSim.js:32-45 | On a frame of exactly 64 rows of 64 pixels, the resolver's digest (`FaceHash.HashFixed`) equals the camera's digest. |
| FaceHash.FixedIgnoresOutside | src/controllers/faceMLSim.js:32-35 | Frames that agree on the top-left 64 by 64 block have the same resolver digest (`FaceHash.HashFixed`), whatever lies outside it. |
| DoubleFnv.ToDoubleExact | src/sensors/sims/facecam.sim.js:63 | A product below 2^53 in magnitude survives the double multiplication unchanged. |
| DoubleFnv.RoundNearest | src/sensors/sims/facecam.sim.js:63 | A larger product is replaced by a multiple of the double spacing no further than half a spacing away; with spacing 1 nothing changes. |
| DoubleFnv.JsStepWhenExact | src/sensors/sims/facecam.sim.js:62-63 | While the signed accumulator times the prime stays below 2^53, one round of the source is exact multiplication modulo 2^32. |
| DoubleFnv.FirstProductRounds | src/sensors/sims/facecam.sim.js:56-63 | On a zero byte, the first product is odd and lies between 2^54 and 2^55, where doubles are four apart, so the source rounds it. |
| DoubleFnv.JsRoundOne | src/sensors/sims/facecam.sim.js:56-63 | The source's first round on a zero byte gives 0x050c5d20, one more than FNV-1a's 0x050c5d1f. |
| DoubleFnv.BlackPixelDiverges | src/sensors/sims/facecam.sim.js:54-71 | For a frame of one black pixel, the source's digest is "70b37220" and FNV-1a's is "4ab0f7b7": the two differ. |
| VisibleSet.RemoveAt | src/sensors/sims/facecam.sim.js:135 | `splice(i, 1)` removes exactly the frame at `i`: earlier frames keep their positions and later frames shift down by one. |
| VisibleSet.SyncedCardinality | src/sensors/sims/facecam.sim.js:74-75 | When the set mirrors the sequence without duplicate digests, the set has exactly as many digests as the sequence has frames. |
| VisibleSet.AddKeepsSynced | src/sensors/sims/facecam.sim.js:126-127 | Pushing a frame whose digest is not yet in the set, and adding that digest, keeps the set equal to the sequence's digests with no duplicates. |
| VisibleSet.RemoveKeepsSynced | src/sensors/sims/facecam.sim.js:134-137 | Splicing out a frame and deleting its digest keeps the set equal to the sequence's digests with no duplicates. |
| VisibleSet.DedupHashes | src/sensors/sims/facecam.sim.js:226-234 | A sync keeps every digest of the command's frames and holds each only once. |
| VisibleSet.DedupIsFirstOccurrences | src/sensors/sims/facecam.sim.js:228-234 | A sync keeps exactly the first frame with each digest, in the command's order, as an independent reference definition states. |
| VisibleSet.DedupIdempotent | src/sensors/sims/facecam.sim.js:226-234 | Syncing a synced sequence again changes nothing. |
| VisibleSet.DedupSubset | src/sensors/sims/facecam.sim.js:228-234 | A sync keeps only frames of the command and never more frames than the command holds. |
| VisibleSet.SyncLoop | src/sensors/sims/facecam.sim.js:226-234 | The clear-then-push loop builds the first-occurrence sequence and a digest set that mirrors it. |
| FaceCam.Attempts | src/sensors/sims/facecam.sim.js:103 | The number of pool samples is `min(10, 2 * poolSize)`: at most 10, at most twice the pool size, and equal to one of the two for a non-empty pool (so none for an empty pool). |
| FaceCam.TryPool | src/sensors/sims/facecam.sim.js:104-108 | The pool loop returns the first sampled candidate whose digest is not visible: every earlier sample was visible. It returns nothing exactly when every sample drawn was already visible. |
| FaceCam.PickUniqueSpec | src/sensors/sims/facecam.sim.js:101-116 | A pick (`FaceCam.PickUnique`) is a frame not yet visible. When some pool sample is unseen, it is the first such sample. The generated frame is returned only when every pool sample was visible and the novel-frame coin fired. There is no pick exactly when all pool samples were visible and the coin failed or gave a visible frame. |
| FaceCam.Jitter | src/sensors/sims/facecam.sim.js:119-143 | "generate" grows the set by one, "remove" shrinks it by one, and "none" leaves both sequence and set unchanged (each an if-and-only-if). The set never exceeds `maxFaces` unless it already did. |
| FaceCam.JitterKeepsSynced | src/sensors/sims/facecam.sim.js:119-143 | Every jitter step keeps the digest set equal to the visible frames' digests with no duplicates. |
| FaceCam.JitterAddBranch | src/sensors/sims/facecam.sim.js:122-131 | A draw below `pAdd` never removes, even where the two ranges overlap. It appends exactly when below capacity and a pick exists, and it appends at the end a frame whose digest was not visible. |
| FaceCam.JitterRemoveBranch | src/sensors/sims/facecam.sim.js:132-141 | A removal happens exactly when `r >= pAdd`, `r > 1 - pRemove` and the set is non-empty. It removes the frame at the drawn index and its digest. |
| FaceCam.InitValid | src/sensors/sims/facecam.sim.js:74-78 | The initial state (no faces, motion off, no timer) satisfies the invariant. |
| FaceCam.StepKeepsValid | src/sensors/sims/facecam.sim.js:197-250 | Every motion message, command and tick (`FaceCam.OnEvent`) keeps the digest set synced and keeps the timer running exactly while motion is active. |
| FaceCam.RunKeepsValid | src/sensors/sims/facecam.sim.js:146-250 | Every sequence of events keeps that invariant, so every reachable state satisfies it. |
| FaceCam.RunWithinCapacity | src/sensors/sims/facecam.sim.js:122-131 | Without sync commands, a run that starts within `maxFaces` stays within it. |
| FaceCam.CmdHasNoCap | src/sensors/sims/facecam.sim.js:228-234 | A sync command while idle has no capacity check: a command of distinct frames becomes the visible sequence whatever its length. |
| FaceCam.CmdWhileIdle | src/sensors/sims/facecam.sim.js:223-240 | While idle, a command (`FaceCam.OnCmd`) sets the visible frames to the first occurrence of each digest among the command's frames (none when `faces` is not an array). The set stays synced, the count matches, a non-empty `ts` is kept, and motion and timer are untouched. |
| FaceCam.CmdResyncIsIdentity | src/sensors/sims/facecam.sim.js:223-234 | Re-sending the visible frames as a command while idle leaves the visible sequence and digest set as they were. |
| FaceCam.CmdWhileActive | src/sensors/sims/facecam.sim.js:241-247 | While motion is active, a command (`FaceCam.OnCmd`) ignores its payload and clears the visible set; motion and timer stay as they were. |
| FaceCam.MalformedIgnored | src/sensors/sims/facecam.sim.js:198-208 | Unparsable messages and non-boolean `motion` values change nothing and publish nothing. |
| FaceCam.MotionTransitions | src/sensors/sims/facecam.sim.js:206-219 | A motion message (`FaceCam.OnMotion`): off to on starts the timer and publishes nothing. On to off stops it, empties the set and publishes the empty state twice (`FaceCam.StopPublishingAndClear`). A repeated value changes nothing. |
| FaceCam.StartPublishing | src/sensors/sims/facecam.sim.js:169-173 | After starting, the timer runs, and nothing else about the camera changes. |
| FaceCam.StartIdempotent | src/sensors/sims/facecam.sim.js:170 | Starting a running timer is a no-op. |
| FaceCam.TickSpec | src/sensors/sims/facecam.sim.js:146-167 | A tick (`FaceCam.PublishState`) with motion off does nothing. Otherwise it performs exactly one jitter step and publishes the resulting visible frames with their count. |
| Topics.RoomOfTopic | src/controllers/faceMLSim.js:75-76 | On a topic `<prefix>/<room>/...` with a non-empty room segment, the room is that segment. |
| Topics.RoomFallback | src/controllers/moodAggregator.js:40-41 | A topic without a separator, or with an empty second segment, gives the room "unknown". |
| Topics.Room | src/controllers/moodAggregator.js:40-41 | The room is never empty and never contains a separator. |
| Draws.Pick | src/controllers/faceMLSim.js:49 | `Math.floor(u * n)` for a draw in [0, 1) is a valid index below `n`, the unique integer `i` with `i <= u * n < i + 1`. |
| Draws.PickSurjective | src/sensors/sims/facecam.sim.js:105 | Every index of a non-empty pool is selected by some draw. |
| Resolver.PickRandomMood | src/controllers/faceMLSim.js:48-50 | A drawn mood is one of relax, focus, sleep, energize. |
| Resolver.PickRandomMoodCovers | src/controllers/faceMLSim.js:20 | Each of the four moods is drawn by some value of the random draw. |
| Resolver.MoodStep | src/controllers/faceMLSim.js:126-132 | After one update, the map holds the old ids plus this one. Every other user's mood is unchanged. This id's mood is a valid mood or the one it already had. |
| Resolver.MoodStepCases | src/controllers/faceMLSim.js:126-132 | An unseen id gets a drawn mood. A seen id keeps its mood when the keep coin is below `P_KEEP_MOOD` and is redrawn otherwise. Valid moods stay valid. |
| Resolver.ResampleMayKeepMood | src/controllers/faceMLSim.js:130-131 | For any keep probability below one, including the default 0.99, there is a failing keep coin whose fresh draw is the old mood: a redraw picks from all four moods, so the old mood can come back. |
| Resolver.RecordMapKeys | src/controllers/faceMLSim.js:117 | The record map (`Resolver.RecordMap`) holds exactly the digests of the returned documents. |
| Resolver.RecordMapLastWins | src/controllers/faceMLSim.js:117 | With duplicate digests among the documents, the last document is the one kept. |
| Resolver.ResolutionDefaults | src/controllers/faceMLSim.js:123-125 | Name and id come from the record when present. Otherwise the name is "unknown" and the id is the digest itself. |
| Resolver.ResolvePositional | src/controllers/faceMLSim.js:122-136 | In the per-frame fold (`Resolver.Resolve`), output entry `i` belongs to frame `i`: its name and id, and the id's mood right after frame `i`'s update, so repeated users see earlier updates. |
| Resolver.ResolveKeys | src/controllers/faceMLSim.js:122-136 | After a batch, the mood map holds exactly the old ids plus the ids of the batch's frames. |
| Resolver.ResolveLeavesOthers | src/controllers/faceMLSim.js:122-136 | Users not in the batch keep their remembered mood. |
| Resolver.ResolveKeepsMoods | src/controllers/faceMLSim.js:22 | If every remembered mood is one of the four, it stays so after a batch. |
| Resolver.ResolveReportsMoods | src/controllers/faceMLSim.js:135 | Every published mood is one of the four. |
| Resolver.ResolveOne | src/controllers/faceMLSim.js:123-135 | One loop iteration takes the name and id from the record when it has them, else "unknown" and the digest. It touches only that id's mood: a known id with the keep coin below `P_KEEP_MOOD` keeps it, otherwise the freshly drawn mood is stored. The entry reports the stored mood. |
| Resolver.ResolveLoop | src/controllers/faceMLSim.js:119-136 | The loop as written builds the per-frame names, `{id, mood}` entries and mood map that the fold defines. |
| Resolver.DigestsMatchCamera | src/controllers/faceMLSim.js:92 | On a batch of exact 64 by 64 frames, the digests the resolver looks up are the ones the camera computed for the same frames. |
| Resolver.NothingPublished | src/controllers/faceMLSim.js:78-92 | The handler (`Resolver.OnFaceData`) publishes nothing exactly when the payload is unparsable or a frame is too small to hash. Neither case touches the moods. |
| Resolver.EmptyPaths | src/controllers/faceMLSim.js:95-114 | No frames, `count === 0`, or a failed lookup: the room's topic gets no names, `user_moods` `{}`, count 0, and the moods are unchanged. |
| Resolver.FoundOutcome | src/controllers/faceMLSim.js:116-140 | A successful lookup makes the handler (`Resolver.OnFaceData`) publish the loop's names and entries with the frame count to `homeA/<room>/FaceNames`, and keep the loop's mood map. |
| Resolver.FoundMoods | src/controllers/faceMLSim.js:116-136 | Across a successful message, the mood map gains exactly the batch's ids, all moods stay valid, and users outside the batch are untouched. |
| Aggregator.Contribution | src/controllers/moodAggregator.js:53-57 | A user contributes exactly when a profile exists with `moods`, the requested mood is present, and none of the three fields is null or missing. |
| Aggregator.Accumulate | src/controllers/moodAggregator.js:47-63 | The loop completes exactly when no entry is `null` and no lookup throws; the count never exceeds the number of entries. |
| Aggregator.CountIsContributors | src/controllers/moodAggregator.js:52-63 | The count is the number of contributing entries by an independent definition, a user listed twice counting twice. |
| Aggregator.ContributorsAppend | src/controllers/moodAggregator.js:52-63 | Contributions over two concatenated lists add up. |
| Aggregator.DuplicateCountsTwice | src/controllers/moodAggregator.js:52 | The same request listed twice contributes twice. |
| Aggregator.Round | src/controllers/moodAggregator.js:72-73 | `Math.round` gives the integer within a half of its argument, halves upward. |
| Aggregator.RoundUnique | src/controllers/moodAggregator.js:72-73 | That integer is unique. |
| Aggregator.Fixed1 | src/controllers/moodAggregator.js:71 | The one-decimal Celsius average is a whole number of tenths within 0.05 of the exact mean. Ties go away from zero. |
| Aggregator.Fixed1Nearest | src/controllers/moodAggregator.js:71 | No multiple of 0.1 is closer to the mean than the published Celsius value, which is itself a multiple of 0.1. |
| Aggregator.SilentCases | src/controllers/moodAggregator.js:31-82 | The handler (`Aggregator.OnMoodIn`) publishes nothing exactly when: the payload is not a non-empty array, connecting fails, some entry is `null` or its lookup throws, or nobody contributes. |
| Aggregator.PublishedAverages | src/controllers/moodAggregator.js:65-77 | A publication goes to `homeA/<room>/mood/out`. Its count is the number of contributors. Celsius is a whole number of tenths within 0.05 of the mean; kelvin and luminosity are the rounded means. |
| Aggregator.PublishedWithinBounds | src/controllers/moodAggregator.js:59-74 | With whole-number bounds on contributors' kelvin and luminosity, the published averages respect those bounds. The Celsius average lies within the bounds widened by 0.05. |
| Aggregator.ThrowAborts | src/controllers/moodAggregator.js:52-53 | One throwing lookup or `null` entry anywhere aborts the message, even after others contributed; there is no partial average. |
| Aggregator.TwoUserExample | src/controllers/moodAggregator.js:31-77 | Two users with settings {20, 293, 40} and {24, 297, 60} give {22.0, 295, 50} on the room's `mood/out` topic. |
| Aggregator.AccumulateLoop | src/controllers/moodAggregator.js:47-63 | The loop as written finishes exactly when the fold does, and then holds the fold's totals. |

## Left out

- `Math.random()`, `generatePixels` and the `faces.txt` pool loading are parameters. Each tick's draws, the generated frame and the pool are inputs, not modelled randomness.
- MQTT connection, subscription, QoS/retain flags and Mongo connection handling are left out. The handlers are modelled from message in to publication out. The aggregator's `connect()` is a boolean parameter; the resolver's query is a reply parameter (documents, or a failure).
- Timestamps (`ts: new Date().toISOString()`, `Date.now()`) are opaque: the camera records only whether the stamp is the clock's or the command's, and the resolver's record omits it.
- JSON parsing is abstracted to a datatype per message shape: unparsable, or parsed with each field of the right type or not. A JSON `null` payload on the camera's topics makes `msg.motion`/`msg.faces` throw outside any handler; the model treats it like a message lacking the field.
- FaceHash.HashFaceLoop: models exact 32-bit FNV-1a, not the source's double-precision multiply (see Findings), so it does not claim the running program's digests bit for bit.
- FaceHash.HashFixedLoop: the resolver's copy (`src/controllers/faceMLSim.js:36-41`) has the same double-precision multiply; it too models exact FNV-1a.
- Channel values are integers; a non-integer channel (truncated by `& 0xff`) and pixels with fewer than three channels are not modelled.
- `Number(...)` coercion of stored settings and the double-precision `toFixed(1)`/`Math.round` are modelled on exact reals; stored values are numbers or absent.
- The aggregator's `user.id`/`user.mood` are strings; non-object, non-null entries are not modelled.
- The aggregator wraps the whole loop in one `try`, so one throwing lookup aborts the message (`Aggregator.ThrowAborts`); a failed lookup is never treated as a per-user miss.
- Resolver.NothingPublished: an unreadable frame throws at `faces.map(hashFace)` inside the asynchronous message handler, which has no `try` around it. That is an unhandled promise rejection, which by default ends the process on Node.js 15 and later, losing `moodByUser`. The model records the message as `Rejected` with the moods kept, as a runtime that survives unhandled rejections would; it does not model the process ending.
- User ids in face documents are strings compared by value. A `user_id` stored as a non-primitive value (such as an ObjectId) is a new object on every query, so `moodByUser.has(id)` on the identity-keyed `Map` would never find it and every message would draw a fresh mood; the model does not cover that case.
- The camera's `state` aliases the `visible` array after a command; no publication observes that alias, so state is a value.
- Frames handed to the camera's `hashFace` are arrays of rows; other JSON values inside `faces` are not modelled.
- Logging (`console.*`) and process signal handling are left out.

## Findings

| source | as written | input that shows it | evidently intended | confidence | as-written member | corrected member |
|---|---|---|---|---|---|---|
| src/sensors/sims/facecam.sim.js:62-67 | `h = (h * FNV_PRIME) >>> 0` multiplies in double precision. After `h ^= v & 0xff` the accumulator is a signed 32-bit value, so the product reaches about 2^55 and is rounded before its low 32 bits are kept. The same code is in `src/controllers/faceMLSim.js:36-41`. | a frame of one black pixel, `[[[0, 0, 0]]]`: the code gives "70b37220", 32-bit FNV-1a gives "4ab0f7b7" | 32-bit FNV-1a, as the comment on line 51 names it, i.e. multiplication modulo 2^32 (`Math.imul(h, FNV_PRIME) >>> 0`) | high for the arithmetic; the two copies still agree with each other, so the damage is confined to digests computed by other FNV-1a code (such as stored `face_hash` values); not executed | DoubleFnv.BlackPixelDiverges | FaceHash.FnvTestVectors |

The rest of the model uses the corrected hash, `FaceHash.HashFace`, which is
exact FNV-1a.
