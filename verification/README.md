# Device registry and input-synthesis helpers, in Dafny

This project models two pure-logic parts of a desktop-automation console.

- **The devices API** (`frontend/src/app/api/devices/route.ts`). It keeps an ordered registry of
  `Device` records (`id`, `name`, `ip`, `port`, `osType`, `status`, optional `description`) in a
  JSON file. It serves four handlers: list (GET), create (POST), update (PUT) and delete (DELETE).
  Each handler is modelled as a pure function from the loaded registry, the request and whether
  the final save succeeds. The result is an `Outcome`: the reply (HTTP 200, 400, 404 or 500) and
  the registry persisted afterwards. A file layer (`DeviceStore`) adds the load fallback and the
  whole-file save, and serves one request end to end.
- **The computer tool's helpers** (`tool_server/tools/computer.py`). `gen_path` turns a mouse drag
  into integer waypoints, one per 30 pixels (`DRAG_STEP`) of the longer axis. `chunks` splits a
  string into fixed-size pieces.

Files:

- `wrappers.dfy` defines `Option`. A request key that is absent is `None`; a key that is present
  is `Some`, whatever its value.
- `device_registry.dfy` (module `DeviceRegistry`) holds the records, the JavaScript truthiness
  tests used for validation, `some`/`findIndex`, the shallow merge and `splice`.
- `device_routes.dfy` (module `DeviceRoutes`) holds the four handlers and the lemmas relating them.
- `device_store.dfy` (module `DeviceStore`) holds the registry file, `Load`/`Save` and `Serve`.
- `computer.dfy` (module `Computer`) holds truncating division, `GenPath` and `Chunks`.

Behaviour of the code worth noting:

- The create reply echoes the request body as received, not the stored record. So a request
  without a status is echoed without one, although "STOPPED" is stored.
- For every registry document the model represents, loading yields a device sequence and the list
  handler answers 200.
- An update cannot change a record's id. The record is found by the payload's id, so the payload's
  `id` key always equals the record's id.
- In local mode the sandbox listing route returns one fixed descriptor whose OsType is the host platform
  (`frontend/src/app/api/sandbox/list/route.ts:20-36`).

## Model

| member | source | states |
|---|---|---|
| DeviceRegistry.AnyWithId | frontend/src/app/api/devices/route.ts:98 | the `some` scan is true exactly when some record carries the id |
| DeviceRegistry.FindIndex | frontend/src/app/api/devices/route.ts:157 | `findIndex` gives -1 exactly when no record carries the id; otherwise it gives the first position that carries it |
| DeviceRegistry.FindIndexOfUnique | frontend/src/app/api/devices/route.ts:219 | when ids are unique, the lookup finds the one record with that id |
| DeviceRegistry.NewDevice | frontend/src/app/api/devices/route.ts:109-112 | the appended record copies the request's fields; its status is "STOPPED" when the request's status is absent or empty |
| DeviceRegistry.RemoveAt | frontend/src/app/api/devices/route.ts:232 | `splice(i, 1)` shortens the registry by one; it keeps the records before `i` in place and shifts the later ones down by one; it removes exactly one copy of the record at `i` |
| DeviceRegistry.MergeKeys | frontend/src/app/api/devices/route.ts:170-173 | states the meaning of `Merge`, the spread `{ ...record, ...payload }`: for each of the seven keys, including `id`, a key present in the payload overrides (even with an empty value) and an absent key keeps the stored value |
| DeviceRegistry.MergeIdOnlyIsIdentity | frontend/src/app/api/devices/route.ts:170-173 | a payload that carries only the record's id leaves the record unchanged |
| DeviceRegistry.MergeIdempotent | frontend/src/app/api/devices/route.ts:170-173 | merging the same payload twice gives the same record as merging it once |
| DeviceRegistry.MergeCompose | frontend/src/app/api/devices/route.ts:170-173 | two successive merges equal one merge of the combined payload, where the later keys win |
| DeviceRoutes.List | frontend/src/app/api/devices/route.ts:61-67 | GET answers 200 with the whole registry and changes nothing |
| DeviceRoutes.Create | frontend/src/app/api/devices/route.ts:80-128 | a missing or empty required field gives 400; a taken id gives 400; a failed save gives 500; all three leave the registry unchanged. Otherwise the reply is 200 echoing the request; exactly one record is appended at the end and the earlier records are unchanged. It answers 200 exactly in that last case |
| DeviceRoutes.Update | frontend/src/app/api/devices/route.ts:142-189 | a missing or empty id gives 400; an unknown id gives 404; a failed save gives 500; all three leave the registry unchanged. Otherwise only the first record with that id is replaced, by the merge; its id is kept; the length and every other record are unchanged; the reply carries the merged record |
| DeviceRoutes.Delete | frontend/src/app/api/devices/route.ts:203-247 | a missing or empty `id` parameter gives 400; an unknown id gives 404; a failed save gives 500; all three leave the registry unchanged. Otherwise exactly the first matching record is removed, the length drops by one and the rest keep their order |
| DeviceRoutes.CreateKeepsIdsUnique | frontend/src/app/api/devices/route.ts:98-112 | if ids were unique before a create, they are unique after it |
| DeviceRoutes.UpdateKeepsIdsUnique | frontend/src/app/api/devices/route.ts:157-173 | if ids were unique before an update, they are unique after it |
| DeviceRoutes.DeleteKeepsIdsUnique | frontend/src/app/api/devices/route.ts:219-232 | if ids were unique before a delete, they are unique after it |
| DeviceRoutes.CreateThenListShowsDevice | frontend/src/app/api/devices/route.ts:109-112 | after a successful create, listing shows the new id last; its status is "STOPPED" when none was given |
| DeviceRoutes.CreateEchoesRequest | frontend/src/app/api/devices/route.ts:115-119 | the create reply echoes the request without a status while the stored record has "STOPPED" |
| DeviceRoutes.CreateThenDeleteRestores | frontend/src/app/api/devices/route.ts:218-232 | deleting the id that a create just added answers 200 and restores the original registry |
| DeviceRoutes.DeleteThenListOmits | frontend/src/app/api/devices/route.ts:218-232 | when ids are unique, no record carries the id after it is deleted |
| DeviceRoutes.UpdateIdempotent | frontend/src/app/api/devices/route.ts:169-173 | a repeat of a successful update leaves the registry as the first update left it |
| DeviceRoutes.UpdateIdOnlyIsIdentity | frontend/src/app/api/devices/route.ts:169-173 | an update whose payload carries only a known id leaves the registry unchanged |
| DeviceStore.Load | frontend/src/app/api/devices/route.ts:33-43 | an absent or unreadable file loads as the empty registry; a well-formed file loads as its devices |
| DeviceStore.Save | frontend/src/app/api/devices/route.ts:46-58 | a successful save reloads as exactly the saved registry; a failed save leaves the file unchanged |
| DeviceStore.Serve | frontend/src/app/api/devices/route.ts:114-127 | the file after a request reloads as the handler's persisted registry; any non-200 reply and every GET leave the file unchanged |
| DeviceStore.SaveLoadIdempotent | frontend/src/app/api/devices/route.ts:33-58 | saving what was loaded a second time gives the same document as the first time |
| DeviceStore.FailedSaveKeepsFile | frontend/src/app/api/devices/route.ts:234-247 | when the save fails, a mutating request never answers 200; it answers 500 exactly when a working save would have answered 200; the file is unchanged |
| DeviceStore.CreateOverUnreadableFile | frontend/src/app/api/devices/route.ts:33-43 | an unreadable file lists as empty; a create over it writes a document holding only the new device |
| Computer.TruncDiv | tool_server/tools/computer.py:239 | `int(a / b)`: the quotient's magnitude is the largest multiple of the divisor that fits in the dividend; its sign is the sign of the exact quotient |
| Computer.TruncDivNegate | tool_server/tools/computer.py:239 | negating the dividend negates the truncated quotient |
| Computer.TruncDivAgainstEuclidean | tool_server/tools/computer.py:241 | truncating and Euclidean division agree on naturals; they differ on -7 / 2 (-3 and -4) |
| Computer.TruncDivMonotone | tool_server/tools/computer.py:241 | truncating division by a positive divisor is monotone in the dividend |
| Computer.GenPath | tool_server/tools/computer.py:235-245 | the path has steps + 2 points; it starts at the source and ends at the target; when there is a step, point 1 repeats the source |
| Computer.DragStepsMeasure | tool_server/tools/computer.py:239 | steps is the longer axis distance counted in whole 30-pixel steps: steps·30 ≤ max(abs dx, abs dy) < (steps+1)·30 |
| Computer.GenPathShortDrag | tool_server/tools/computer.py:239-245 | a drag shorter than 30 on both axes gives exactly [source, target] |
| Computer.GenPathPoint | tool_server/tools/computer.py:240-244 | with at least one step, intermediate point i is source + trunc(d·i/steps) on each axis; the endpoints fit the same formula with i = 0 and i = steps |
| Computer.GenPathMonotone | tool_server/tools/computer.py:240-244 | each coordinate moves monotonically from source to target, so every waypoint lies between the endpoints on each axis |
| Computer.Chunks | tool_server/tools/computer.py:154-155 | a zero size raises (None); a negative size gives no chunks; a positive size gives ceil(length / size) chunks |
| Computer.ChunksCount | tool_server/tools/computer.py:155 | the empty string gives no chunks; otherwise (count − 1)·size < length ≤ count·size |
| Computer.ChunksSizes | tool_server/tools/computer.py:155 | every chunk but the last has exactly `size` characters; the last has 1 to `size` |
| Computer.ChunkContents | tool_server/tools/computer.py:155 | chunk k is the `size` characters starting at k·size, cut short at the end of the string |
| Computer.ChunksConcat | tool_server/tools/computer.py:154-155 | concatenating the chunks gives back the string |

## Left out

- File I/O and JSON encoding (`existsSync`, `readFileSync`, `writeFileSync`, `JSON.parse`/`stringify`) are not modelled. The file is one of three states (absent, unreadable, well-formed), and a save is a success flag passed to the handler.
- A parsed file is assumed to be a devices document: an object whose `devices` array holds complete records. Other parseable contents (`null`, `{}`, an array of non-records) are outside the model; depending on the shape and the handler, the code then answers anything from 200 to 500.
- Request bodies are assumed to give each key its declared type. Keys outside the device record, non-string ids, and a `NaN` or non-numeric port are not modelled.
- A request body that is not JSON, or is `null`, makes POST and PUT throw and answer 500 from their `catch` blocks (route.ts:82, :85, :144, :146). Such bodies are outside the model, whose only 500 reply is a failed save.
- DeviceStore.Save: a failed write leaves the file as it was, as the handlers assume. A write that fails partway can leave a truncated file; that is not modelled.
- Concurrent requests racing on the file (last writer wins) are a concurrency matter and are not modelled. Each request is served on its own.
- The sandbox list and create routes are not modelled. In local mode they return one fixed descriptor whose OsType is the host platform, and remote mode forwards to an external service.
- The UI components are rendering and lookup tables, and the console warning suppressors are console patching. Neither is modelled.
- `paste` is not modelled: it only performs keyboard, clipboard and sleep side effects.
- The pydantic request models and `generate_request` are not modelled. They depend on reflection over module globals and on a `base` module that is not part of this model.
- Computer.GenPath: Python computes `dx * i / steps` and `dx / 30` in floating point. The model uses exact truncated integer division, which agrees as long as the coordinates are small enough for the doubles to be exact.
