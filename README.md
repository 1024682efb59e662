# Session-consistent replicated product catalogue, modelled in Dafny

This project models one node of a small replicated product catalogue. Every
node keeps three tables:

- `products`: product id to record. A record is the payload attributes plus
  `last_updated` and `version`.
- `sessions`: session id to token. A token maps a product id to the least
  version that session has been shown.
- `ops_log`: an append-only list of read and write entries.

Nodes replicate by anti-entropy. A sweep pulls every peer's `/api` snapshot
in peer-list order. Each entry is merged last-writer-wins by
`(version, last_updated)`: a higher version wins, and on equal versions a
strictly later stamp wins. A read waits, with at most two sweeps, until the
local version reaches the session's bound; then it raises the bound to the
version it saw. This gives Monotonic Reads and Read-Your-Writes. A write first
runs the same bounded wait for every entry of the session's token
(Writes-Follow-Reads). Then it stores the record with version local+1 and
raises the writer's bound to it. `/api` gives version 1 to any record that
lacks one.

`nodes/nodo_1.py` and `nodes/nodo_2.py` run identical logic, so one class
models both. The core functions are the same; only the name, colour, port,
Flask template folder and line numbers differ. In nodo_2.py, `ensure_session`
is at 27-30, `merge_product` at 35-45, `_sync_internal` at 47-59, `read` at
97-111, `write` at 115-140 and `api` at 144-148. The earlier design in `TP2_simulacion4/nodo_2.py` merges by
`last_updated` alone and writes records without a version. It is modelled
separately.

Files:

- `catalog.dfy` (module `Catalog`): records, tables, log entries and the
  shape of the network's answers. A peer's answer is `Option<Products>`, with
  `None` for a failed fetch. A sweep's answers are a sequence of them, in
  peer order.
- `replica.dfy` (module `Replica`): functions that specify the versioned
  store: `local_version`, the merge rule, one snapshot, one sweep and the
  `/api` normalisation. It also holds the lemmas about them.
- `session.dfy` (module `Session`): functions that specify tokens and the
  bounded waits, with lemmas. It also defines the node invariant `Covered`:
  every bound in every token is met by the local table.
- `node.dfy` (module `Nodes`): class `Node` with the three tables as fields.
  Its methods follow the handlers step by step, with their loops. Each one is
  proved equal to the specification functions above.
- `legacy.dfy` (module `Legacy`): the timestamp-only design. It has the
  merge loop of `sync_all`, the unversioned `write` and the `read`.

The merge is deterministic only for records of different rank. When two
different records of a product have the same (version, last_updated), the
tie test keeps whichever arrived first, so two nodes can hold different
copies forever. `Replica.MergeEqualRankFirstStays` states this.

One consequence of the design is proved, not assumed. Tokens never leave the
node that issued them, and every bound a node writes into a token is a version
its own table already holds. Merges never lower a version. So the `Covered`
invariant holds on every node, and on a single node the retry loops of `read`
and `write` never sweep. See `Nodes.Node.Read`, `Session.WriteGuarantees`,
`Session.CoveredReadIsIdle` and `Session.CoveredDepsAreIdle`.

## Model

| member | source | states |
|---|---|---|
| Replica.LocalVersion | nodes/nodo_1.py:43-44 | an absent product or a record without `version` reads as 0, otherwise the stored version (nodo_2.py:32-33 is the same) |
| Replica.LocalRank | nodes/nodo_1.py:48-54 | the local rank the merge compares against is (`local_version`, local `last_updated`), with 0 for what is missing |
| Replica.SupersedesIsRankOrder | nodes/nodo_1.py:48-57 | the nested version/stamp test of `merge_product` accepts exactly when the incoming (version, last_updated) is lexicographically above the local one |
| Replica.MergeNeverLowers | nodes/nodo_1.py:46-57 | a merge never lowers the rank, so never the `local_version`, of any product |
| Replica.MergeChangesIff | nodes/nodo_1.py:46-57 | `merge_product` returns True if and only if `products` changed |
| Replica.MergeTouchesOnlyKey | nodes/nodo_1.py:46-57 | a merge changes no product other than `pid`; the key set grows by `pid` exactly when the record is accepted |
| Replica.MergeTwice | nodes/nodo_1.py:50-57 | merging the same record a second time is rejected (strict `>` on the tie) and leaves `products` unchanged |
| Replica.MergeOrderIrrelevant | nodes/nodo_1.py:50-56 | two records of different rank, merged in either order, give the same table |
| Replica.MergeEqualRankFirstStays | nodes/nodo_1.py:50-56 | for two records of equal rank, whichever is merged first stays (the tie test is a strict `>`), so two such records with different payloads leave different tables in the two orders |
| Replica.MergeIntoEmpty | nodes/nodo_1.py:50-56 | merging two records of different rank into an empty store, in either order, keeps the lexicographically larger one; a record not above (0, 0) is never stored |
| Replica.OverwriteNeverLowers | nodes/nodo_1.py:143-152 | storing a record one version above the local one lowers no product |
| Replica.ApplyIsPerKeyMerge | nodes/nodo_1.py:65-67 | after a snapshot's entry loop each product is where merging its own entry alone would leave it, so entry order does not matter |
| Replica.ApplyLookup | nodes/nodo_1.py:45-67 | after a snapshot each product holds the incoming copy exactly when it ranks strictly above the local copy (an absent copy ranks (0, 0)), and the local copy otherwise |
| Replica.MergeStep | nodes/nodo_1.py:65-67 | one iteration of the entry loop extends the partial result by that entry and adds 1 to the count exactly when the merge returned True |
| Replica.ApplyOneMore | nodes/nodo_1.py:65-67 | merging one more entry sees the original local record for that product, and adds that entry to the partial result and to the accepted set |
| Replica.ApplySettles | nodes/nodo_1.py:65-67 | after a snapshot is merged, no entry of it would be accepted again, and no product was lowered |
| Replica.SettledApplyIsNoOp | nodes/nodo_1.py:65-67 | a snapshot none of whose entries is accepted changes nothing and counts 0 merges |
| Replica.SettledStaysSettled | nodes/nodo_1.py:46-57 | once a snapshot would be rejected entry by entry, it stays so while ranks only grow |
| Replica.SweepNeverLowers | nodes/nodo_1.py:59-71 | a sweep never lowers the rank, or the version, of any product |
| Replica.SweepSkipsFailedPeer | nodes/nodo_1.py:61-69 | a peer whose fetch fails is skipped: the sweep's table and `merged_total` are those of the sweep without that peer |
| Replica.SweepSettlesAll | nodes/nodo_1.py:59-71 | after a sweep, no entry of any reachable peer's snapshot would be accepted again |
| Replica.SettledSweepIsNoOp | nodes/nodo_1.py:59-71 | a sweep over snapshots already settled changes nothing and counts 0 |
| Replica.SweepAgainIsNoOp | nodes/nodo_1.py:59-71 | running the same sweep again leaves the table unchanged and gives `merged_total` 0 |
| Replica.MutualPullConverges | nodes/nodo_1.py:59-71 | x pulls y's `/api` export, which normalises y's table in place (lines 164-166); then y pulls x's export. Both end with the same table, provided no product has two different records of equal rank and every rank is above (0, 0) |
| Replica.WithVersionRaises | nodes/nodo_1.py:164-166 | giving a record its default version 1 never lowers its rank, and is idempotent |
| Replica.Normalised | nodes/nodo_1.py:164-166 | `/api` keeps the key set, gives every record a version, leaves records that had one unchanged and never alters payload or stamp (nodo_2.py:145-147) |
| Replica.NormalisedRaisesOnlyMissing | nodes/nodo_1.py:164-166 | normalising sets exactly the missing versions to 1, lowers nothing, and is idempotent |
| Session.Ensured | nodes/nodo_1.py:38-41 | `ensure_session` adds the session with an empty token when it is new and keeps every existing token (nodo_2.py:27-30) |
| Session.EnsureIdempotent | nodes/nodo_1.py:38-41 | a second `ensure_session` for the same id changes nothing |
| Session.Raised | nodes/nodo_1.py:123 | `token[pid] = max(token.get(pid, 0), v)`: the bound never decreases, reaches `v`, equals one of the two, and no other bound changes (also line 155) |
| Session.CatchUp | nodes/nodo_1.py:116-120 | the read's wait runs at most 2 sweeps and stops early only when the local version reaches the bound; it runs none when the bound is already met |
| Session.CatchUpNeverLowers | nodes/nodo_1.py:116-120 | waiting never lowers any product |
| Session.CatchUpRunsOnlySweeps | nodes/nodo_1.py:116-120 | the wait changes `products` only through its sweeps: the result is its first `tries` sweeps applied in order |
| Session.AwaitDeps | nodes/nodo_1.py:136-140 | the Writes-Follow-Reads loop gives one `tries` per token dependency, each at most 2 |
| Session.AwaitDepsNeverLowers | nodes/nodo_1.py:136-140 | the dependency waits never lower any product |
| Session.AwaitDepsOutcome | nodes/nodo_1.py:136-140 | after the loop, each dependency is locally at least at its bound, unless its wait used both sweeps |
| Session.AwaitDepsIdle | nodes/nodo_1.py:136-140 | when every bound is already met, the loop runs no sweep and changes nothing |
| Session.WriteAfterWaits | nodes/nodo_1.py:136-152 | waits then overwrite: nothing is lowered, the new version is above the one held before the write, and every dependency still meets its bound unless its wait gave up |
| Session.CoveredStaysCovered | nodes/nodo_1.py:59-71 | while versions only grow, the invariant that all token bounds are met is kept |
| Session.RaiseKeepsCovered | nodes/nodo_1.py:113-123 | creating a session and raising its bound to a version the table holds keep the invariant |
| Session.WriteKeepsCovered | nodes/nodo_1.py:143-155 | a write of version local+1 with the writer's bound raised to it keeps the invariant |
| Session.CoveredReadIsIdle | nodes/nodo_1.py:113-120 | under the invariant, the read's wait runs no sweep |
| Session.CoveredDepsAreIdle | nodes/nodo_1.py:133-140 | under the invariant, the write's dependency waits run no sweep |
| Nodes.Node.constructor | nodes/nodo_1.py:29-32 | a node starts with empty tables, and the invariant holds |
| Nodes.Node.EnsureSession | nodes/nodo_1.py:38-41 | the sessions table becomes `Ensured` of the old one and the session's token is returned; the invariant is kept |
| Nodes.Node.MergeProduct | nodes/nodo_1.py:46-57 | the table becomes `Merged`; the result is True exactly when the merge is accepted and the table changed; nothing is lowered; the invariant is kept |
| Nodes.Node.MergeSnapshot | nodes/nodo_1.py:65-67 | the merge of one peer snapshot (its loop is `MergeEntries`) leaves `ApplySnapshot` of the old table, counts exactly the accepted entries, lowers nothing and keeps the invariant |
| Nodes.Node.MergeEntries | nodes/nodo_1.py:65-67 | the loop merges each entry once through `MergeProduct` and leaves `ApplySnapshot` of the old table; `merged` counts the calls that returned True |
| Nodes.Node.SyncInternal | nodes/nodo_1.py:59-71 | the peer loop yields exactly `Sweep` of the old table (failed peers skipped, `merged_total` counted), lowers nothing and keeps the invariant |
| Nodes.Node.RecordOp | nodes/nodo_1.py:73-80 | the log grows by exactly one entry at the end, with earlier entries unchanged |
| Nodes.Node.CatchUpLoop | nodes/nodo_1.py:116-120 | the `while local_version(pid) < needed and tries < 2` loop yields exactly `CatchUp`, lowers nothing and keeps the invariant (same loop at lines 137-140) |
| Nodes.Node.Read | nodes/nodo_1.py:109-124 | at most 2 sweeps, and `products` changes only through them; the token becomes max(old bound, version seen), so it never decreases and covers what was read; exactly one read entry is logged; under the invariant nothing sweeps |
| Nodes.Node.AwaitDependencies | nodes/nodo_1.py:136-140 | the loop over the token's dependencies yields exactly `AwaitDeps`, lowers nothing and keeps the invariant |
| Nodes.Node.StoreWrite | nodes/nodo_1.py:143-156 | the record is stored with version local+1, the writer's bound is raised to it, exactly one write entry is logged, nothing is lowered and the invariant is kept |
| Nodes.Node.Write | nodes/nodo_1.py:129-156 | the handler leaves the product and session tables, returns the record written and each dependency's sweep count exactly as `Session.WriteEffect` gives them from the old tables; exactly one write entry is logged; the invariant is kept |
| Session.WriteGuarantees | nodes/nodo_1.py:129-156 | for every write: nothing is lowered, the record gets a version above the one held before the write, `token[pid]` reaches it (Read-Your-Writes), no other bound of the writer decreases and other sessions are untouched, each dependency sweeps at most 2 times and meets its bound unless its wait gave up (Writes-Follow-Reads); under the invariant nothing sweeps, the version is exactly local+1 and the invariant is kept (nodo_2.py:115-140) |
| Nodes.Node.Api | nodes/nodo_1.py:161-167 | the in-place pass leaves `Normalised` of the old table and returns it; nothing is lowered (nodo_2.py:144-148) |
| Legacy.TieKeepsLocal | TP2_simulacion4/nodo_2.py:134-137 | for a non-empty local record, the merge keeps the local record if and only if the incoming `last_updated` is not strictly later |
| Legacy.StampOnlyMergeDropsVersion | TP2_simulacion4/nodo_2.py:134-137 | for any record with a later stamp but a lower version than the local one, the timestamp-only merge replaces the local record and lowers its version, while the versioned merge keeps the local record |
| Legacy.ApplyKeepsStamps | TP2_simulacion4/nodo_2.py:133-138 | after one peer's entries, every product of the snapshot is stored, and the stamp of a non-empty local record never goes down |
| Legacy.ApplyTwice | TP2_simulacion4/nodo_2.py:133-138 | re-merging the same snapshot leaves the table unchanged; its count is the number of accepted entries that were empty records |
| Legacy.MergeStep | TP2_simulacion4/nodo_2.py:133-138 | one iteration of the entry loop extends the partial result by that entry, and `merged` grows by 1 exactly when it is accepted |
| Legacy.SweepReports | TP2_simulacion4/nodo_2.py:128-141 | `sync_all` reports, per peer, a failure exactly when the fetch failed, and otherwise `merged`: the number of that peer's entries accepted against the table the earlier peers left |
| Legacy.SweepKeepsStamps | TP2_simulacion4/nodo_2.py:128-141 | over a whole `sync_all`, a non-empty local record stays non-empty and its `last_updated` never decreases, when no reachable peer sends an empty dict or no local stamp is negative |
| Legacy.SweepSkipsFailedPeer | TP2_simulacion4/nodo_2.py:128-141 | a failed fetch is skipped: the table is as if that peer were absent |
| Legacy.Node.constructor | TP2_simulacion4/nodo_2.py:24 | a node starts with an empty table |
| Legacy.Node.MergeSnapshot | TP2_simulacion4/nodo_2.py:132-139 | the entry loop leaves `Apply` of the old table, and `merged` counts exactly the accepted entries |
| Legacy.Node.SyncAll | TP2_simulacion4/nodo_2.py:126-142 | the peer loop yields exactly `Sweep` of the old table with its per-peer counts |
| Legacy.Node.Write | TP2_simulacion4/nodo_2.py:107-120 | the record is overwritten unconditionally, stamped and without a version, and no other product changes |
| Legacy.Node.Read | TP2_simulacion4/nodo_2.py:99-105 | the lookup returns the stored record exactly when the product is present; it may not modify the node |

## Left out

- Flask routing, redirects, templates, the inline HTML page and `app.run`: UI and transport.
- `requests.get(..., timeout=3)` and `resp.json()`. Each peer's answer is a parameter, `Option<Products>`; `None` is any fetch that raised. HTTP, timeouts and JSON are not modelled.
- A response that parses but holds an entry that is not a dict raises part-way through the entry loop, leaving a partial merge. The model assumes every entry is well formed.
- `datetime.now()`: the record stamp and the log stamp are integer parameters. Only their order matters, and the source's float seconds and ISO strings are not modelled.
- Form parsing (`strip`, `int(...)`, `float(...)`) and the float `price`: the payload is an opaque map of attribute values.
- `print` output. Three printed values are returned as results instead: `merged_total` of `_sync_internal`, which returns nothing in the source; the per-peer `merged` of the earlier design; and the record a read prints.
- The `"active_user"` slot that login and logout keep inside `sessions`, with its `"anon"` default. The session id is a parameter of read and write. A user named `active_user` would clash with that slot; this is not modelled.
- The index, `/ops`, `/login`, `/logout` and `/sync` routes: `/sync` only calls `_sync_internal`, and `/ops` only returns `ops_log`.
- The order in which `token.items()` yields the dependencies in `write`: it is the parameter `deps`, required to list the token's keys once each.
- Python aliasing of payload dicts: the written payload is shared by `products` and `ops_log`, and `/api` mutates records in place. Records are values here. This is sound because every written payload already has a version, so `/api` never changes one.
- Concurrency between requests: each handler runs to completion.
- The peers themselves: other nodes are seen only through the snapshots they return.
- Legacy.SweepKeepsStamps: requires that no reachable peer sends an empty-dict record (a node's `/api` never does), or that no local stamp is negative (`datetime.now().timestamp()` never is). Either is sufficient, not necessary. Without both, an empty dict can replace a record whose stamp is below 0, and once an empty dict is stored, `not existing` holds for it and the next entry replaces it whatever its stamp.
