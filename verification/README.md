# Verified models of the inference engine's core

This project models, in Dafny, the parts of the engine whose correctness spans many functions, threads or nodes, and
proves what they are for.

- **Distributed runtime** (`distributed.c`). The coordinator searches a contiguous route over registered workers
  (`route_search.dfy`), keeps a registry and a cached plan (`registry.dfy`), and encodes the plan for the wire
  (`route_blob.dfy`). Prompt chunks stream through a bounded pipeline (`prefill.dfy`, `prefill_progress.dfy`), are
  checked against a rolling token hash at every hop (`token_hash.dfy`, `worker_session.dfy`), and results come back
  through FIFO queues (`relay.dfy`, `relay_progress.dfy`, `relay_faults.dfy`, `work_queues.dfy`). KV snapshots are gathered from and cut into layer shards
  (`tensor_sizing.dfy`, `kv_payload.dfy`, `kv_topology.dfy`, `kv_transfer.dfy`). Activations travel at 32, 16 or 8 bits (`half.dfy`,
  `float8.dfy`, `float32_sum.dfy`, `float8_nearest.dfy`, `activation.dfy`, `activation_meaning.dfy`).
- **Disk KV store** (`kv_store.c`): streaming SHA-1 (`sha1.dfy`), eviction (`kv_evict.dfy`), and storing, lookup and
  loading (`kv_store.dfy`).
- **Layer packer** (`layer_pack.c`): `layer_pack.dfy`.
- **Streaming boundary** (`openai.rs`, `qwen_tokenizer.rs`): incremental decoding and the stream producers
  (`stream.dfy`), chunked framing and the channel reader (`frames.dfy`), and the frames' bytes (`sse.dfy`).

Code that changes state is modelled by classes and methods with loops, each proved against a specification function or
a stated property; threads that interleave are modelled as state machines with one step per critical section, and the
properties hold in every reachable state. In `registry.dfy` each lock section is a method that keeps the invariant;
operations that span several take arbitrary events of other threads in between, and `Registry.Coordinator.Run` covers
every interleaving.

`words.dfy` holds the 32- and 64-bit integer types, byte orders and shared facts about sequences.
`dafny verify dfyconfig.toml` checks the project.

Some promises hold only under a condition:

- Eviction reaches its target if and only if the file sizes sum to less than 2^64 (`KvEvict.FitsIff`,
  `KvEvict.WrapExample`): the running total is a wrapping 64-bit sum.
- An equal generation means a fresh plan when fewer than 2^64 registry changes lie in between
  (`Registry.Coordinator.CachedPlanIsFresh`). The bound is sufficient, and `Registry.StaleAfterWrap` is one run that
  needs it.
- The chunked body decodes to the frames if and only if no frame is empty (`Frames.RoundTripIff`); the producers never
  send an empty one (`Sse.ChatBodyArrives`, `Sse.EventBodyArrives`).
- A vector that was sent can be decoded if and only if its floats fit a 32-bit byte count
  (`Activation.VectorRoundTrip`): at 16 and 8 bits the writer accepts longer vectors than the reader.
- The 8-bit encoder picks a nearest code if and only if the magnitude is not strictly between 7.5 / 512 and 8 / 512 and
  is not the largest float below 0.5 / 512, where the float sum rounds up (`Float8Nearest.NearestIff`,
  `Float8Nearest.ClampExample`, `Float8Nearest.TieExample`).
- A refused load may have replaced sessions: those of the first spans, up to the first shard that could not be cut or was
  refused, and all of them when the file is only too long (`KvTransfer.LoadPayload`, `KvTransfer.EveryShardFits`).

Where arguments stand for the environment:

- The graph evaluator, the payload reader of a session and the tokenizer are function arguments or outcome records. A
  successful slice evaluation needs the announced position to equal the timeline's length and appends its tokens; a
  reset empties the timeline, a failed reset leaves it unchanged, a load replaces it, and a failed evaluation or load may
  leave any timeline.
- Sends, writes, deletes, renames and file contents are oracles: functions that say which attempt succeeds or what a
  file holds. The theorems quantify over them.
- Registered workers have unique identities instead of file descriptor numbers, which the system reuses.
- Eviction scores, the prefix hash of the KV store and the token hash step are arbitrary functions where the property
  does not depend on them.

## Model

| member | source | states |
|---|---|---|
| `LayerPack.ComputeLayerPlacement` | models/glm-5.3-flash-q2/engine/src/layer_pack.c:14-45 | the loop fills exactly the first n entries with the greedy placement, leaves the rest of the output alone, and returns 2 or 3 without writing for a negative entry count or a device count out of range |
| `LayerPack.GreedyFeasible` | models/glm-5.3-flash-q2/engine/src/layer_pack.c:28-43 | the greedy placement respects every budget and is monotone with a CPU-only suffix |
| `LayerPack.AdvanceStaysAhead` | models/glm-5.3-flash-q2/engine/src/layer_pack.c:29-43 | one more entry: a cursor (device, bytes used on it) that is lexicographically no greater than a rival's stays so |
| `LayerPack.GreedyStaysAhead` | models/glm-5.3-flash-q2/engine/src/layer_pack.c:28-43 | for every feasible monotone placement the greedy cursor after the same entries is lexicographically no greater |
| `LayerPack.CpuSpillIsLatest` | models/glm-5.3-flash-q2/engine/src/layer_pack.c:39-41 | an entry goes to a GPU if and only if some feasible placement puts it on one |
| `RouteSearch.Search` | models/glm-5.3-flash-q2/engine/src/distributed.c:1954-1989 | on workers sorted by start: finds a path iff an admissible contiguous chain exists, the path it leaves is one, the shared array of n entries never overflows, and on failure missing_layer bounds every admissible chain and is reached by one |
| `RouteSearch.TryHop` | models/glm-5.3-flash-q2/engine/src/distributed.c:1970-1984 | a candidate is pushed, tried and popped again; a failed candidate is a dead end for completion and for the furthest layer |
| `RouteSearch.FindRoute` | models/glm-5.3-flash-q2/engine/src/distributed.c:2240-2255 | the planner's call, in the workers' fields: it succeeds iff some registered workers abut from the first missing layer to the last one, all but the last with hidden-state output, the last with the output head, or with hidden-state output for a coordinator that has the head; the route it returns is such a sequence with at most n hops; on failure missing_layer is exactly the furthest layer that abutting workers with hidden-state output reach |
| `RouteSearch.ChainIff` | models/glm-5.3-flash-q2/engine/src/distributed.c:1944-1989 | an admissible chain, in fields: its workers are registered and abut, every one but the last ends before the last layer and can pass hidden states on, the last reaches the last layer and has the output head, or passes hidden states to a coordinator with the head |
| `RouteSearch.ReachesIff` | models/glm-5.3-flash-q2/engine/src/distributed.c:1944-1989 | the layer that a partial path reaches, in the same fields |
| `RouteSearch.FurthestIff` | models/glm-5.3-flash-q2/engine/src/distributed.c:1963-1988 | the furthest layer, in the same fields |
| `RouteSearch.ChainShape` | models/glm-5.3-flash-q2/engine/src/distributed.c:1944-1989 | hops of a chain are registered candidates, abut, start at the first missing layer, and only the last reaches the last layer |
| `RouteSearch.ChainCovers` | models/glm-5.3-flash-q2/engine/src/distributed.c:1954-1989 | every remaining layer is on exactly one hop of a chain |
| `Registry.Coordinator.AddWorker` | models/glm-5.3-flash-q2/engine/src/distributed.c:1888-1914 | puts the new entry at the head and advances the generation; an old entry stays iff it differs in host, first layer, last layer or output flag; nothing happens during shutdown; unique keys and the freshness of the cached plan are kept |
| `Registry.Coordinator.RemoveWorker` | models/glm-5.3-flash-q2/engine/src/distributed.c:4095-4118 | removes exactly the entry of a connection and advances the generation iff there was one |
| `Registry.Coordinator.ForgetRoute` | models/glm-5.3-flash-q2/engine/src/distributed.c:2102-2133 | at the end of its lock section no registered worker matches any hop of the plan and every other worker is still there; the generation advances once iff any was removed, and the plan may be freed |
| `Registry.Coordinator.FreePlan` | models/glm-5.3-flash-q2/engine/src/distributed.c:2081-2089 | freeing a plan that is not in use as a fresh one keeps the invariant |
| `Registry.Coordinator.Others` | models/glm-5.3-flash-q2/engine/src/distributed.c:4146-4278 | any registrations and departures by other threads keep the invariant, leave a freeable plan freeable, and add no worker that did not register |
| `Registry.Coordinator.CheckRoute` | models/glm-5.3-flash-q2/engine/src/distributed.c:4337-4338 | the session's test of its cached plan; when it fails the plan may be freed |
| `Registry.Coordinator.BuildRoutePlan` | models/glm-5.3-flash-q2/engine/src/distributed.c:2201-2314 | a ready plan is fresh at the current generation: all hops registered, contiguous to the last layer, someone has the output head; a coordinator with all layers and the head gets a plan without hops, and the hops of any other plan are, field by field, those of a route in the sense of FindRoute; it reports an incomplete route iff no chain exists, with the furthest layer reached |
| `Registry.Coordinator.EnsureRoute` | models/glm-5.3-flash-q2/engine/src/distributed.c:4332-4348 | with other threads active between its lock sections: a session that goes on has a plan that was fresh when it was built, during the call or at a generation that was still the registry's when the call began |
| `Registry.Coordinator.Rebuild` | models/glm-5.3-flash-q2/engine/src/distributed.c:2948-2974 | with other threads active between forgetting and planning and during the replay: the new plan was fresh when it was built, after the call began, and contains a worker of the failed route only if that worker registered anew since it was forgotten |
| `Registry.Coordinator.Run` | models/glm-5.3-flash-q2/engine/src/distributed.c:4332-4348 | in every interleaving of the session's lock sections with registrations and departures, every reachable state has unique keys, and a ready plan of the registry's generation is fresh, up to the wrap of the counter |
| `Registry.Coordinator.CachedPlanIsFresh` | models/glm-5.3-flash-q2/engine/src/distributed.c:4337-4338 | when plan_ready holds and plan_generation equals the generation, and fewer than 2^64 changes happened since planning, every hop is registered and the hops cover the remaining layers; the generations are equal iff the number of changes is a multiple of 2^64 |
| `Registry.StaleAfterWrap` | models/glm-5.3-flash-q2/engine/src/distributed.c:1913-1913 | the bound is needed: a run of the coordinator, with one departure and 2^64 - 1 registrations after planning, that ends with a ready plan of the registry's generation that is not fresh |
| `Registry.ForgottenOk` | models/glm-5.3-flash-q2/engine/src/distributed.c:2107-2128 | dropping the first match of each hop, given unique keys, removes exactly the workers some hop matches |
| `Registry.ForgottenInFields` | models/glm-5.3-flash-q2/engine/src/distributed.c:2107-2128 | a worker is gone after forgetting iff some hop of the route has its host, port, layers and output flag |
| `Registry.WithoutHopOk` | models/glm-5.3-flash-q2/engine/src/distributed.c:2109-2126 | with unique keys the first match of a hop is its only match |
| `Registry.RouteIsFresh` | models/glm-5.3-flash-q2/engine/src/distributed.c:2261-2304 | a chain over the registered workers makes a plan that covers the remaining layers with registered hops |
| `Registry.RouteOrderOk` | models/glm-5.3-flash-q2/engine/src/distributed.c:1933-1942 | sorting keeps the set of workers and orders them by start, then output head first, then longer range first |
| `Registry.DropStale` | models/glm-5.3-flash-q2/engine/src/distributed.c:1894-1911 | the unlinking loop of a registration drops all entries of the key and keeps the order of the others |
| `Registry.DropMatch` | models/glm-5.3-flash-q2/engine/src/distributed.c:2109-2126 | the inner loop of forgetting drops the first match, and reports whether there was one |
| `RouteBlob.BuildBlob` | models/glm-5.3-flash-q2/engine/src/distributed.c:2261-2312 | a plan of admitted workers gets exactly the encoding of its hops and the upstream record, and gets one iff that is shorter than 2^32 bytes |
| `RouteBlob.AppendHop` | models/glm-5.3-flash-q2/engine/src/distributed.c:2135-2171 | appends one record iff the host length is 1 to 1024 and the blob stays below 2^32 bytes |
| `RouteBlob.ValidateBlob` | models/glm-5.3-flash-q2/engine/src/distributed.c:6131-6229 | accepts a blob iff it is the encoding of a well-formed contiguous route of that many hops, with the upstream record and no byte more |
| `RouteBlob.GetEntry` | models/glm-5.3-flash-q2/engine/src/distributed.c:6011-6062 | returns the record at an index of the parsed prefix, or refuses |
| `RouteBlob.GetReturnTarget` | models/glm-5.3-flash-q2/engine/src/distributed.c:6064-6129 | returns the record behind the hops, with the weaker host-length rule the source applies here, and refuses trailing bytes |
| `RouteBlob.HopLayout` | models/glm-5.3-flash-q2/engine/src/distributed.c:2135-2171 | a record byte by byte: host length, port, first layer, last layer and flags as big-endian words, then the host |
| `RouteBlob.RoundTrip` | models/glm-5.3-flash-q2/engine/src/distributed.c:6011-6229 | the blob of every non-empty well-formed route is accepted, entry i is hop i for every i, and the return target is UPSTREAM |
| `RouteBlob.AcceptsIff` | models/glm-5.3-flash-q2/engine/src/distributed.c:6131-6229 | acceptance, as a function of the bytes, is being the encoding of a well-formed route |
| `RouteBlob.BlobInjective` | models/glm-5.3-flash-q2/engine/src/distributed.c:2135-2199 | a blob determines its route |
| `RouteBlob.ParseHopsIff` | models/glm-5.3-flash-q2/engine/src/distributed.c:6023-6052 | n records parse iff the bytes begin with their encodings in order |
| `RouteBlob.ReturnIff` | models/glm-5.3-flash-q2/engine/src/distributed.c:6098-6127 | a return record parses iff the bytes are its encoding and nothing more |
| `RouteBlob.UpstreamIff` | models/glm-5.3-flash-q2/engine/src/distributed.c:6197-6227 | the return record that validation accepts is the one the coordinator writes |
| `RouteBlob.ChainRouteOk` | models/glm-5.3-flash-q2/engine/src/distributed.c:4214-4250 | hops of a chain of workers that passed HELLO admission form a route that validation accepts |
| `RouteBlob.RouteChecksIff` | models/glm-5.3-flash-q2/engine/src/distributed.c:7352-7411 | the route of a WORK frame passes a worker's checks iff it is the encoding of a well-formed route and the frame is for its hop at the index, with that hop's layers and output flag |
| `TensorSizing.CheckedMul` | models/glm-5.3-flash-q2/engine/src/distributed.c:699-704 | the division test is exact: succeeds iff the true product fits 64 bits |
| `TensorSizing.LayerTensorBytesExact` | models/glm-5.3-flash-q2/engine/src/distributed.c:4611-4664 | for the non-GLM layout the checked computation succeeds iff the true size fits 64 bits, and then returns it |
| `TensorSizing.StateBytesExact` | models/glm-5.3-flash-q2/engine/src/distributed.c:4597-4609 | the same for the compressor state |
| `KvPayload.DenseTotalExact` | models/glm-5.3-flash-q2/engine/src/distributed.c:4782-4792 | the sum of the checked layer sizes of the non-GLM layout fits 64 bits iff the true size does, and is then the true size |
| `KvPayload.DenseBodyExact` | models/glm-5.3-flash-q2/engine/src/distributed.c:4760-4796 | a body of the non-GLM layout is accepted iff its counts are within the cap and it has exactly as many tensor bytes as the true size |
| `KvPayload.ParseShardSound` | models/glm-5.3-flash-q2/engine/src/distributed.c:4692-4803 | a shard file that parses is the encoding of a valid shard of that span |
| `KvPayload.ParseShardComplete` | models/glm-5.3-flash-q2/engine/src/distributed.c:4692-4803 | the encoding of a valid shard parses to it |
| `KvPayload.ParseSessionSound` | models/glm-5.3-flash-q2/engine/src/distributed.c:5238-5340 | a session file that parses is the encoding of a session that fits |
| `KvPayload.ParseSessionComplete` | models/glm-5.3-flash-q2/engine/src/distributed.c:5238-5340 | the encoding of a session that fits parses to it |
| `KvPayload.ShardAcceptedIff` | models/glm-5.3-flash-q2/engine/src/distributed.c:4681-4803 | the exact acceptance test of a shard file, in its fields: among others the window and the cap are not zero, and the live rows exceed neither the tokens nor the window nor the cap and, except for GLM, are as many as one of the first two |
| `KvPayload.SessionAcceptedIff` | models/glm-5.3-flash-q2/engine/src/distributed.c:5238-5340 | the exact acceptance test of a session file, in its fields |
| `KvPayload.HeaderWords` | models/glm-5.3-flash-q2/engine/src/distributed.c:4806-4867 | every word of the two file headers, by position |
| `KvTopology.GatherComplete` | models/glm-5.3-flash-q2/engine/src/distributed.c:5141-5213 | gathering the shards cut from a body under any contiguous route gives the body's layers so far |
| `KvTopology.GatherSound` | models/glm-5.3-flash-q2/engine/src/distributed.c:5141-5213 | whatever parses as the shards of a route is the cutting of one body: the gathered one |
| `KvTopology.SaveSucceeds` | models/glm-5.3-flash-q2/engine/src/distributed.c:5141-5213 | saving succeeds iff the shard files are the cutting of one body with the right token count |
| `KvTopology.CuttingInFields` | models/glm-5.3-flash-q2/engine/src/distributed.c:5141-5213 | being the cutting of one body, in the body's fields; with SaveSucceeds it says which sessions can be saved |
| `KvTopology.SaveIsRouteFree` | models/glm-5.3-flash-q2/engine/src/distributed.c:5092-5222 | the saved file is the body's session file, whatever the route |
| `KvTopology.LoadOfSave` | models/glm-5.3-flash-q2/engine/src/distributed.c:5225-5388 | loading a saved file is accepted iff it fits the loading session, and gives each shard its slice |
| `KvTopology.TopologyNeutral` | models/glm-5.3-flash-q2/engine/src/distributed.c:5092-5388 | save under one contiguous route, load under another: accepted iff the file fits, each shard gets exactly its own layers' counts and tensors, saving again gives the same file, and under the same route every shard file is reproduced byte for byte |
| `KvTopology.SessionFileInjective` | models/glm-5.3-flash-q2/engine/src/distributed.c:4806-4830 | two sessions with the same file are the same session |
| `KvTransfer.ValidateRoute` | models/glm-5.3-flash-q2/engine/src/distributed.c:4891-4918 | accepts a local span and hops iff they are a contiguous partition of the layers |
| `KvTransfer.ParseLayerPayload` | models/glm-5.3-flash-q2/engine/src/distributed.c:4692-4803 | the reading loops compute the shard parser that the payload lemmas are about |
| `KvTransfer.SumLayers` | models/glm-5.3-flash-q2/engine/src/distributed.c:4770-4790 | the overflow-checked sum over layers is the true sum when that fits 64 bits, and fails otherwise |
| `KvTransfer.SavePayload` | models/glm-5.3-flash-q2/engine/src/distributed.c:5092-5222 | the gather loop computes the save function that the topology lemmas are about |
| `KvTransfer.WriteSession` | models/glm-5.3-flash-q2/engine/src/distributed.c:4806-4830 | the writer emits the session file of the gathered body |
| `KvTransfer.WriteShard` | models/glm-5.3-flash-q2/engine/src/distributed.c:4832-4867 | the writer emits the shard file of a span of the body |
| `KvTransfer.LoadShards` | models/glm-5.3-flash-q2/engine/src/distributed.c:5335-5372 | cutting and loading shard by shard: the sessions loaded when the loop ends are exactly those of the first spans, up to the first whose shard the payload is too short for or whose session refuses it, each with its slice |
| `KvTransfer.LoadPayload` | models/glm-5.3-flash-q2/engine/src/distributed.c:5225-5388 | the whole load: it succeeds iff the announced file is there, the load function that the topology lemmas are about accepts it and every session takes its shard; a refused load has replaced nothing if the head does not parse, and otherwise exactly the sessions of the first spans |
| `KvTransfer.EveryShardFits` | models/glm-5.3-flash-q2/engine/src/distributed.c:5335-5376 | when the payload holds every layer, with or without bytes left over, every session has been loaded before the test for trailing bytes, unless one refused its shard |
| `KvTransfer.HeadIff` | models/glm-5.3-flash-q2/engine/src/distributed.c:5238-5334 | a file is a session iff its head parses and the bytes left are as many as the layers need |
| `TokenHash.FoldConcat` | models/glm-5.3-flash-q2/engine/src/distributed.c:1504-1507 | hashing two spans one after the other is hashing their concatenation |
| `TokenHash.UpdateSpan` | models/glm-5.3-flash-q2/engine/src/distributed.c:1504-1507 | the loop is the fold of the step over the span |
| `TokenHash.UpdateToken` | models/glm-5.3-flash-q2/engine/src/distributed.c:1495-1502 | the loop over the four bytes of a token is the FNV-1a step |
| `TokenHash.KnownHashes` | models/glm-5.3-flash-q2/engine/src/distributed.c:1495-1502 | the byte step gives two published values of 64-bit FNV-1a |
| `WorkerSession.Worker.ProcessWork` | models/glm-5.3-flash-q2/engine/src/distributed.c:7171-7540 | one WORK frame changes only its session, as the session function with all its checks says, and keeps every session hash-honest, whatever the evaluator does |
| `WorkerSession.AcceptedFrame` | models/glm-5.3-flash-q2/engine/src/distributed.c:7286-7455 | a frame that is let through is for its hop of a well-formed route, with that hop's layers and output flag, and its activations decode to as many values as the span has |
| `WorkerSession.Worker.LoadSnapshot` | models/glm-5.3-flash-q2/engine/src/distributed.c:6984-7165 | a snapshot load replaces its session on success, invalidates the hash on failure, and keeps every session hash-honest |
| `WorkerSession.EveryHistoryIsHonest` | models/glm-5.3-flash-q2/engine/src/distributed.c:7133-7151 | after every history of WORK, reset, failed evaluation and snapshot load, a session marked hash-valid carries the fold of its timeline |
| `WorkerSession.EvaluatedOnMatchingPrefix` | models/glm-5.3-flash-q2/engine/src/distributed.c:7456-7520 | a span is evaluated only on a timeline with the announced length and hash, and then the session's hash is the announced result hash |
| `WorkerSession.DoneIff` | models/glm-5.3-flash-q2/engine/src/distributed.c:7171-7520 | a WORK frame is evaluated iff its sizes, flags, route, model and layers are right, its tokens are there, in the vocabulary and within the context, hidden-state input comes exactly on layers after the first, logits are asked only of the last layer's worker with the head, both hashes are right, and reset and evaluator succeed; the session then has the announced timeline and hash |
| `WorkerSession.LoadDoneIff` | models/glm-5.3-flash-q2/engine/src/distributed.c:6984-7165 | a snapshot is loaded iff payload, model, layers, length, vocabulary and token hash are right and the payload reader succeeds; the session then has the snapshot's tokens and their hash |
| `WorkerSession.SpanCompletes` | models/glm-5.3-flash-q2/engine/src/distributed.c:2691-2704 | when every hop is ready, in the fields of its configuration, session and environment, the whole span succeeds at every hop |
| `WorkerSession.PlannedFramePasses` | models/glm-5.3-flash-q2/engine/src/distributed.c:7286-7455 | the frame built for a hop of a planned route passes that hop's checks of route and activations |
| `WorkerSession.PlannedSpanCompletes` | models/glm-5.3-flash-q2/engine/src/distributed.c:2691-2704 | over a planned route, with the frames as they are forwarded, the whole span succeeds at every hop that has the prefix and whose reset and evaluator succeed |
| `WorkerSession.HopsAgree` | models/glm-5.3-flash-q2/engine/src/distributed.c:2691-2704 | after a successful span every hop has the coordinator's result hash over its own timeline; if the prefix hash has no collision every hop has the coordinator's tokens |
| `WorkerSession.HopsAgreeAfterAnyHistory` | models/glm-5.3-flash-q2/engine/src/distributed.c:2691-2704 | the same for hops that have each seen an arbitrary history |
| `Prefill.CountExact` | models/glm-5.3-flash-q2/engine/src/distributed.c:3536-3536 | the chunk count is exactly the number of chunks that start inside the span |
| `Prefill.ExpectedHashes` | models/glm-5.3-flash-q2/engine/src/distributed.c:3593-3602 | the loop that precomputes the hash expected of each chunk gives the hash of the prompt up to the end of that chunk |
| `Prefill.ChunksTile` | models/glm-5.3-flash-q2/engine/src/distributed.c:3640-3700 | the tokens of the chunks end to end are the span |
| `Prefill.ChunksChain` | models/glm-5.3-flash-q2/engine/src/distributed.c:3593-3609 | consecutive chunks abut, and the result hash of one is the prefix hash of the next |
| `Prefill.RunInv` | models/glm-5.3-flash-q2/engine/src/distributed.c:3152-3419 | the invariant of ring, flow window, wire and reader holds in every reachable state of every interleaving |
| `Prefill.NoOverwrite` | models/glm-5.3-flash-q2/engine/src/distributed.c:3152-3187 | the producer never writes a slot that is queued or being sent |
| `Prefill.FlowAndOrder` | models/glm-5.3-flash-q2/engine/src/distributed.c:3206-3266 | in every run, failing ones too, submitted minus completed stays within the window and the wire carries chunks 0, 1, 2, ... each once in order |
| `Prefill.WireFlags` | models/glm-5.3-flash-q2/engine/src/distributed.c:3640-3700 | in every run frame i carries request firstRequest + i and the i-th chunkCap tokens of the span; only the first frame resets the session, if the call asks for it, and every frame but the last asks for an acknowledgement, if the call asks for that |
| `Prefill.SuccessMeansDone` | models/glm-5.3-flash-q2/engine/src/distributed.c:3513-3760 | a successful call sent every chunk once in order, together they are the span, each result carries the prompt's hash at its chunk's end and a payload of the right size, and the last result is not an ACK |
| `PrefillProgress.NeverStuck` | models/glm-5.3-flash-q2/engine/src/distributed.c:3152-3419 | in every reachable state without a failure, before the end, some thread has a step that is not a failure: window, ring and hand-over never block each other |
| `PrefillProgress.StepCounts` | models/glm-5.3-flash-q2/engine/src/distributed.c:3152-3419 | every step takes one of the steps left, three of the producer, three of the sender and one result for each chunk, and two exits; only a failure saves some |
| `PrefillProgress.NoDeadlock` | models/glm-5.3-flash-q2/engine/src/distributed.c:3152-3419 | with failures too: until all three threads have ended some thread has a step, where the reader's read returns only when an answer is due or the connection was shut down, as every failure does |
| `PrefillProgress.EveryRunEnds` | models/glm-5.3-flash-q2/engine/src/distributed.c:3513-3760 | every run, with failures anywhere, has at most 7 * chunks + 2 steps, and can go on exactly until all three threads have ended |
| `PrefillProgress.EveryScheduleSucceeds` | models/glm-5.3-flash-q2/engine/src/distributed.c:3513-3760 | however the three threads are scheduled, a run without failures has taken all 7 * chunks + 2 steps exactly when the call has succeeded, and can go on without a failure until then |
| `Relay.RunInv` | models/glm-5.3-flash-q2/engine/src/distributed.c:6437-6625 | without failures, the invariant of inboxes, pending queues and results holds in every reachable state of a route of any length |
| `Relay.ResultsInOrder` | models/glm-5.3-flash-q2/engine/src/distributed.c:6437-6625 | without failures, results arrive in request order with the payload of the composed slices and exactly k telemetry records, last hop first |
| `Relay.RelayAlwaysMatches` | models/glm-5.3-flash-q2/engine/src/distributed.c:6500-6560 | without failures a relay never meets a result that does not answer the head of its pending queue |
| `Relay.NothingLost` | models/glm-5.3-flash-q2/engine/src/distributed.c:6437-6625 | without failures, no pending queue exceeds its window and every request is accounted for at every hop |
| `RelayProgress.AllReturned` | models/glm-5.3-flash-q2/engine/src/distributed.c:6437-6625 | when no hop can go on, every hop has returned all that was sent to it, from the last hop to the first, since then every window has room |
| `RelayProgress.NeverStuck` | models/glm-5.3-flash-q2/engine/src/distributed.c:6437-6625 | without failures, as long as a request has no answer some hop can evaluate, forward, answer or pass back, whatever the windows |
| `RelayProgress.InternalCounts` | models/glm-5.3-flash-q2/engine/src/distributed.c:6437-6625 | every step other than a new request takes one of the steps left |
| `RelayProgress.EveryRequestIsAnswered` | models/glm-5.3-flash-q2/engine/src/distributed.c:6437-6625 | without failures, however the threads are scheduled, a run takes at most 3k steps for each request on a route of k hops, and has taken them all exactly when every request has its answer |
| `RelayFaults.SuccessesAreRight` | models/glm-5.3-flash-q2/engine/src/distributed.c:6437-6795 | in every run, with failing evaluations, sends and relays anywhere: each successful result that reaches the coordinator is the right answer to a request with exactly k telemetry records, and successful results come in request order, none twice |
| `RelayFaults.RunInv` | models/glm-5.3-flash-q2/engine/src/distributed.c:6437-6795 | what is on every hop belongs to a request, and the ids at the first hop (successful results, pending requests, inbox) increase, in every reachable state |
| `WorkQueues.Forwarder.Enqueue` | models/glm-5.3-flash-q2/engine/src/distributed.c:6319-6348 | appends a request unless closing; the count stays the queue's length and within the depth |
| `WorkQueues.Forwarder.Pop` | models/glm-5.3-flash-q2/engine/src/distributed.c:6350-6372 | takes the oldest request; false iff the queue is empty |
| `WorkQueues.Forwarder.Remove` | models/glm-5.3-flash-q2/engine/src/distributed.c:6374-6396 | takes out the first request with an id and nothing else; false iff there is none |
| `WorkQueues.Forwarder.NoteSendDone` | models/glm-5.3-flash-q2/engine/src/distributed.c:6398-6412 | updates the first request with an id and nothing else |
| `WorkQueues.JobQueue.Enqueue` | models/glm-5.3-flash-q2/engine/src/distributed.c:7696-7714 | accepts a job iff the queue is open |
| `WorkQueues.JobQueue.Pop` | models/glm-5.3-flash-q2/engine/src/distributed.c:7716-7733 | hands out jobs in order; on a finished, uncancelled queue it ends only when every accepted job was processed |
| `WorkQueues.JobQueue.Cancel` | models/glm-5.3-flash-q2/engine/src/distributed.c:7686-7694 | drops the queued jobs; what was processed stays a prefix of what was accepted |
| `WorkQueues.JobQueue.Drain` | models/glm-5.3-flash-q2/engine/src/distributed.c:7735-7755 | a closed queue processes its jobs in order, up to and including the first that fails, which cancels the rest; without one every accepted job is processed once |
| `Half.Encode16Rounds` | models/glm-5.3-flash-q2/engine/src/distributed.c:818-848 | for every finite input the 16-bit encoder is roundTiesToEven of section 4.3.1 of IEEE 754-2019, with subnormals, carry into the exponent and overflow; the sign and infinities are kept and every NaN becomes the quiet one |
| `Half.RoundsToUnique` | models/glm-5.3-flash-q2/engine/src/distributed.c:818-848 | roundTiesToEven has one result, so the previous row fixes the encoder |
| `Half.NormalRounds` | models/glm-5.3-flash-q2/engine/src/distributed.c:844-847 | rounding at 13 dropped bits, with carry into the exponent, is rounding to the nearest code, ties to even |
| `Half.SubnormalRounds` | models/glm-5.3-flash-q2/engine/src/distributed.c:827-834 | round bit and sticky bits on a variable shift give the nearest subnormal code, ties to even |
| `Half.Decode16Exact` | models/glm-5.3-flash-q2/engine/src/distributed.c:850-877 | decoding a finite 16-bit code gives exactly its value |
| `Half.DecodeHalf` | models/glm-5.3-flash-q2/engine/src/distributed.c:850-877 | the decoder with its normalizing loop is the decoding function |
| `Half.Encode16Inverse` | models/glm-5.3-flash-q2/engine/src/distributed.c:818-877 | decoding and encoding again gives back every code the encoder can send |
| `Float8.Encode8Range` | models/glm-5.3-flash-q2/engine/src/distributed.c:879-910 | whatever the input and the rounding of x + 0.5f, the code keeps the sign and is at most 0x77 without it |
| `Float8.Decode8Exact` | models/glm-5.3-flash-q2/engine/src/distributed.c:912-923 | decoding gives mant / 512, or (1 + mant / 8) times 2^(exp - 7) |
| `Float8.Decode8Top` | models/glm-5.3-flash-q2/engine/src/distributed.c:919-921 | the codes that no sender makes decode to 240 with their sign |
| `Float8.Encode8Inverse` | models/glm-5.3-flash-q2/engine/src/distributed.c:879-923 | decoding and encoding again gives back every code the encoder can send |
| `Float8Nearest.NearestIff` | models/glm-5.3-flash-q2/engine/src/distributed.c:879-910 | with x + 0.5f in binary32 arithmetic, the encoder picks a nearest code for a finite input iff its magnitude does not lie strictly between 7.5 / 512 and 8 / 512 and is not the largest float below 0.5 / 512 |
| `Float8Nearest.TieExample` | models/glm-5.3-flash-q2/engine/src/distributed.c:885-889 | the float 0x3a7fffff, just below 0.5 / 512, is sent as 1 / 512 although 0 is nearer |
| `Float8Nearest.SumFloor` | models/glm-5.3-flash-q2/engine/src/distributed.c:885-901 | below the normal range the float sum has the same integer below it as the exact sum, except at that one float |
| `Float32Sum.PlusHalfIsFloatSum` | models/glm-5.3-flash-q2/engine/src/distributed.c:886-904 | the binary32 sum is monotone and exact on small integers, so the range and re-encoding laws hold for it |
| `Float8Nearest.ClampExample` | models/glm-5.3-flash-q2/engine/src/distributed.c:895-900 | 7.75 / 512 is sent as 7 / 512 although 8 / 512 is a code and nearer |
| `Float8Nearest.StepsAreValues` | models/glm-5.3-flash-q2/engine/src/distributed.c:912-923 | the units in which the nearest code is measured count the values the receiver decodes |
| `Activation.VectorRoundTrip` | models/glm-5.3-flash-q2/engine/src/distributed.c:925-1021 | for vectors of every length at 32, 16 and 8 bits: decoding succeeds iff the floats fit a 32-bit byte count, and then encode(decode(encode(v))) == encode(v) |
| `ActivationMeaning.VectorArrives` | models/glm-5.3-flash-q2/engine/src/distributed.c:925-1021 | what the receiver gets for element i: at 32 bits the same float; at 16 bits its sign and, for finite floats, the half-precision value that roundTiesToEven gives; at 8 bits its sign and, under the condition of NearestIff, a nearest code's value |
| `ActivationMeaning.BytesOfOne` | models/glm-5.3-flash-q2/engine/src/distributed.c:925-964 | the bytes of one value, least significant first, are the float's word, its half-precision code or its 8-bit code |
| `ActivationMeaning.OneArrives16` | models/glm-5.3-flash-q2/engine/src/distributed.c:818-877 | one value at 16 bits, infinities and NaN included |
| `ActivationMeaning.OneArrives8` | models/glm-5.3-flash-q2/engine/src/distributed.c:879-923 | one value at 8 bits, values that are not finite included |
| `Activation.ElementsRoundTrip` | models/glm-5.3-flash-q2/engine/src/distributed.c:995-1021 | the re-encoding law value by value, without a length limit |
| `Activation.WritePayload` | models/glm-5.3-flash-q2/engine/src/distributed.c:925-964 | chunked writing sends exactly the element-wise encoding, or a prefix of it when a write fails; it succeeds on valid widths except a 32-bit payload of 2^32 bytes or more |
| `Activation.DecodePayload` | models/glm-5.3-flash-q2/engine/src/distributed.c:966-1021 | the decoding loop computes the decoding function, including its refusals |
| `Activation.WireBytes` | models/glm-5.3-flash-q2/engine/src/distributed.c:786-802 | exists iff the width is 0 (the default, 32), 8, 16 or 32 and the bytes fit 32 bits, and is then the number of values times the width in bytes |
| `Sha1.Context.Update` | models/glm-5.3-flash-q2/engine/src/kv_store.c:278-293 | any split of a message over calls leaves the context that the whole message determines |
| `Sha1.Context.Final` | models/glm-5.3-flash-q2/engine/src/kv_store.c:295-312 | the digest is the fold of the block transform over the message padded as in section 4 of RFC 3174 |
| `Sha1.Context.Pad` | models/glm-5.3-flash-q2/engine/src/kv_store.c:299-300 | the one-byte padding loop ends and has appended exactly the zeros that section 4 of RFC 3174 asks for |
| `Sha1.Transform` | models/glm-5.3-flash-q2/engine/src/kv_store.c:226-266 | the loops compute the compression function of section 6.1 of RFC 3174 |
| `Sha1.ChoiceIs` | models/glm-5.3-flash-q2/engine/src/kv_store.c:240-253 | bit by bit: in rounds 0 to 19 b chooses between c and d, in rounds 40 to 59 the majority decides, in the others the parity |
| `Sha1.ConstantIsRoot` | models/glm-5.3-flash-q2/engine/src/kv_store.c:240-253 | the round constants are the square roots of 2, 3, 5 and 10 in units of 2^-30, rounded down |
| `Sha1.CountIsDigits` | models/glm-5.3-flash-q2/engine/src/kv_store.c:301-302 | the digits written behind the padding make the bit count, most significant first |
| `Sha1.SplitsAgree` | models/glm-5.3-flash-q2/engine/src/kv_store.c:278-293 | two contexts that were given the same bytes agree in every live field |
| `Sha1.ZeroCountLeast` | models/glm-5.3-flash-q2/engine/src/kv_store.c:299-300 | no fewer zeros reach position 56 of a block |
| `Sha1.Sha1` | models/glm-5.3-flash-q2/engine/src/kv_store.c:321-328 | the one-shot hash is the digest of the message |
| `KvEvict.ExactGreedy` | models/glm-5.3-flash-q2/engine/src/kv_store.c:571-606 | when deletes succeed: survivors fit the target, victims and survivors are the old entries with order kept, no survivor goes before a victim in (score, last_used), and putting back the last victim exceeds the target |
| `KvEvict.LeastAreEvicted` | models/glm-5.3-flash-q2/engine/src/kv_store.c:571-606 | in fields: every victim has a lower score than every survivor, or the same score and was used no later; the same for an earlier and a later victim |
| `KvEvict.VictimInFields` | models/glm-5.3-flash-q2/engine/src/kv_store.c:572-586 | in fields: the victim has the lowest score, among those the earliest last use, and among those the lowest index |
| `KvEvict.FitsIff` | models/glm-5.3-flash-q2/engine/src/kv_store.c:568-571 | with the source's 64-bit running total, survivors fit iff the sizes sum to less than 2^64 |
| `KvEvict.OverflowNeverFits` | models/glm-5.3-flash-q2/engine/src/kv_store.c:568-571 | when the sizes sum to 2^64 or more, what survives never fits |
| `KvEvict.WrapExample` | models/glm-5.3-flash-q2/engine/src/kv_store.c:568-571 | four files of 2^62 bytes with different paths: nothing is evicted, whatever the target |
| `KvEvict.FailureStops` | models/glm-5.3-flash-q2/engine/src/kv_store.c:597-600 | at most one delete fails and it is the last thing eviction does |
| `KvEvict.Victim` | models/glm-5.3-flash-q2/engine/src/kv_store.c:572-586 | the first entry that no other goes before in (score, last_used) |
| `KvStore.KvStore.FindVictim` | models/glm-5.3-flash-q2/engine/src/kv_store.c:572-586 | the scan finds the entry with the lowest score, among those the one used longest ago, and among those the first in the index |
| `KvStore.KvStore.SumSizes` | models/glm-5.3-flash-q2/engine/src/kv_store.c:568-569 | the summation loop is the sum modulo 2^64 |
| `KvStore.KvStore.Evict` | models/glm-5.3-flash-q2/engine/src/kv_store.c:561-607 | the loop leaves what the greedy run leaves; disabled, unlimited or oversized calls change nothing; when deletes succeed and all entries are readable, index and directory stay the same |
| `KvStore.FitTestIsExact` | models/glm-5.3-flash-q2/engine/src/kv_store.c:772-812 | the fit test passes iff the true size fits 64 bits and, under a budget, 101 * size <= 100 * budget |
| `KvStore.KvStore.StoreNew` | models/glm-5.3-flash-q2/engine/src/kv_store.c:1025-1110 | a written checkpoint leaves the directory within the budget, up to what the trailer grew beyond its estimate, given successful deletes, readable entries and a directory below 2^64 bytes; an estimate that does not fit changes nothing |
| `KvStore.KvStore.Store` | models/glm-5.3-flash-q2/engine/src/kv_store.c:995-1110 | the whole store: a compatible file is kept and nothing changes, an incompatible one is deleted first, and a written checkpoint keeps the budget in the same way |
| `KvStore.KvStore.FindTextPrefix` | models/glm-5.3-flash-q2/engine/src/kv_store.c:1190-1213 | with its skips before hashing the scan returns the first entry maximal in (text bytes, tokens) among all compatible entries whose name is the hash of the prompt's prefix, or -1 iff there is none |
| `KvStore.BestInFields` | models/glm-5.3-flash-q2/engine/src/kv_store.c:1190-1213 | in fields: when some entry is short enough, has enough tokens and the right model, context, quantization and hash, the entry found is one of these, no such entry has more text bytes or as many with more tokens, and none with as many of both comes before it |
| `KvStore.LoadReadyIff` | models/glm-5.3-flash-q2/engine/src/kv_store.c:1242-1278 | the tests before a load succeeds, in the fields of the file |
| `KvStore.StoredTextIsFound` | models/glm-5.3-flash-q2/engine/src/kv_store.c:1190-1213 | a stored text is found again by every prompt that begins with it, unless a longer one serves |
| `KvStore.KvStore.TryLoadText` | models/glm-5.3-flash-q2/engine/src/kv_store.c:1226-1318 | a successful load has a true byte prefix whatever the hash function, its effective prompt is the stored tokens and the tokenized suffix, the file gets a new time of use and one more hit and nothing else in the directory changes; it succeeds whenever the best entry's file is sound |
| `Streaming.IncrementalDecoder.Push` | common/qwen_tokenizer.rs:255-267 | succeeds iff the stable text extends what was returned; the pieces returned so far are then the stable text |
| `Streaming.IncrementalDecoder.Finish` | common/qwen_tokenizer.rs:269-277 | succeeds iff the decoded text extends what was returned; the pieces are then the decode of all tokens |
| `Streaming.DecodeIncrementally` | common/qwen_tokenizer.rs:254-277 | pushing all tokens and finishing gives decode(tokens) iff the tokens can be streamed |
| `Streaming.RespondNonStreaming` | common/openai.rs:452-471 | the single reply's content is decode(tokens) |
| `Streaming.ChatStream.OnToken` | common/openai.rs:650-684 | the callback keeps the text delivered equal to the text emitted, also when it fails |
| `Streaming.ChatStream.Produce` | common/openai.rs:620-756 | with a backend that stops at the first callback error, the client gets the whole stream frame by frame, cut at the first refused send: the role, the non-empty pieces of text token by token, the last piece, the finish frame with reason and token count and the closing mark, or an error frame and the closing mark where tokens, decoder or backend fail; a stream that completes carries exactly decode(tokens), the text of the single reply |
| `Streaming.ResponseStream.SendEvent` | common/openai.rs:1001-1013 | an event takes the next number, and the number moves on iff the send got through |
| `Streaming.ResponseStream.Opening` | common/openai.rs:763-830 | the four opening events, in order, up to the first refused send |
| `Streaming.ResponseStream.Closing` | common/openai.rs:921-984 | the four closing events, in order, with the whole text, the finish reason and the token count, up to the first refused send |
| `Streaming.ProgressIs` | common/openai.rs:650-684 | the tokens go through up to the first one whose prefix does not decode or whose stable text does not extend what was sent |
| `Streaming.ResponseStream.Produce` | common/openai.rs:758-984 | delivered events are numbered 0, 1, 2, ... in every run, also on failure, disconnect or a backend that ignores errors; with a backend that stops, the client gets the four opening events, the pieces of text and the four closing events or the failure in this order, cut at the first refused send; a completed response's deltas are decode(tokens), and every closing event repeats it |
| `Frames.RoundTripIff` | common/openai.rs:1054-1061 | decoding the body by section 7.1 of RFC 9112 gives exactly the frames iff none is empty |
| `Frames.DecodeOfEncode` | common/openai.rs:1054-1061 | for any frames the client decodes those before the first empty one |
| `Frames.WriteBody` | common/openai.rs:1054-1061 | the writing loop emits the encoding that the decoding lemmas are about |
| `Frames.DigitsAre` | common/openai.rs:1054-1061 | sizes are written with lower-case hex digits; the reference decoder takes both cases and nothing else |
| `Sse.ChatBodyArrives` | common/openai.rs:991-999 | the chat frames that a producer sends are never empty, so a client that decodes the body gets every one of them, and from each its JSON, or [DONE] for the closing mark |
| `Sse.EventBodyArrives` | common/openai.rs:1001-1013 | the same for the events of a response: the client reads the name from the first line and the JSON from the second |
| `Frames.ChannelReader.Read` | common/openai.rs:1082-1097 | a read takes the next bytes of the stream; it returns 0 iff the buffer is empty or the stream has ended |
| `Frames.ReadSizes` | common/openai.rs:1065-1097 | for any sequence of read sizes, zero included, what was read and what is left are the concatenation of the frames, and as many non-empty reads as there are bytes leave nothing |

## Left out

- Sockets, connection setup, polling, timeouts, environment tunables, logging and telemetry timings. A connection is a
  reliable FIFO queue that may close, or an oracle over attempts. Files are byte sequences; buffering is not modelled.
- Waiting on condition variables: a method that follows such a wait has the awaited condition as its precondition, and
  lost wake-ups are not modelled. Progress is proved for the step systems of prefill (`PrefillProgress`) and, without
  failures, of the relay (`RelayProgress`).
- Graph evaluation, sampling, byte-pair encoding and the layout of tensors inside a payload.
- The GLM branch of layer sizing. The KV lemmas hold for any function that gives a layer's size.
- The floating-point score formula of eviction; the score is any fixed function of the entry.
- The trailer rewrite on an already compatible checkpoint, which does no budget check, and the header bytes of a
  checkpoint file.
- Out-of-memory branches, null pointers and error message texts.
- JSON shapes, HTTP routing, request validation and header lines.
- Option parsing, benchmarks, CUDA and TVM adapters, and declarations without an implementation in the repository.
- Methods that only clear or close a queue, or forget all sessions, have no row above.
- KvStore.KvStore.StoreNew: file sizes are those the writer computes, and the budget clause covers readable entries,
  because unreadable files are invisible to the source's index.
- Relay.ResultsInOrder: covers failure-free runs; what holds when steps fail is RelayFaults.SuccessesAreRight.
- Relay.RelayAlwaysMatches: covers failure-free runs; after a failure a mismatch is possible and is the relay's error.
- Relay.NothingLost: covers failure-free runs; a failing hop drops requests and answers them with an error.
- Relay.RunInv: covers failure-free runs, like the lemmas that rest on it.
- Registry.RouteOrderOk: an insertion sort with the source's comparison stands for the library's sort; the search
  result does not depend on which sorted order it gets.
- KvStore.KvStore.TryLoadText: the hook that reads a checkpoint's trailer after a hit is not modelled; it changes neither
  the directory nor the prompt.
- Streaming.ResponseStream.Produce: texts are sequences of characters; the final byte slice behind a text that is not a
  prefix, which only a backend that ignores errors can cause, is an oracle.
- Activation.WireBytes: a count of 2^62 values or more, where the 64-bit product would wrap, is not modelled; a frame's
  count is a token count times the width of a hidden state and stays far below.
- Frames.RoundTripIff: the reference decoder knows neither chunk extensions nor trailer fields, which the writer never
  emits.
