# BOINC host refresh: a Dafny model

This project models the host-refresh core of the BoincUI web application (kjreills/BoincUI). It has two parts.

- **The per-host state machine** (`Boinc.Blazor/Data/BoincRpcFactory.cs`, module `BoincRpcFactory`). `BoincHostViewModel.LoadDataAsync` connects to a BOINC client and authorizes. It stores the resulting `BoincHostStatus`: `Ready`, `Unauthorized`, or `Unreachable(message)`. On `Ready` it also queries the host info and the client state.
- **The host registry** (`BoincHostConnector` in `Boinc.Blazor/Data/BaseHostedService.cs`, module `BaseHostedService`). It is a dictionary from host id to view model. It supports add-or-replace of one host or a batch, removal, a values snapshot, and one tick of the refresh loop. Each operation that completes fires `Updated()`.

The RPC client library is replaced by an input, `RpcOutcomes`. It says how each call turned out on one attempt:

- connect: ok or failed(message)
- authorize: ok(bool) or failed(message)
- GetHostInfo: ok(info) or failed(message)
- GetState: ok(state) or failed(message)

A batch to load is a sequence of `Attempt`s, each a host configuration paired with its outcomes. A refresh tick takes a function from host id to outcomes. With outcomes as inputs, every operation is deterministic, apart from the order in which the dictionary is enumerated.

How the source is represented:

- The `BoincHost` datatype's default constructor values (`uri := "localhost"`, `port := DefaultPort`, `authKey := ""`) model the property initialisers at BoincRpcFactory.cs lines 9-11. The status factories `NoneStatus`, `ReadyStatus`, `UnauthorizedStatus` and `UnreachableStatus` are plain definitions of lines 78-81, and `InitialSnapshot` is the state lines 16-18 give a new view model.
- The view model is a class. `LoadData` updates its `status`, `hostInfo` and `clientState` fields in place, step by step, as lines 32, 39 and 40 do.
- `LoadData` is proved against the pure function `Refresh`. `Refresh` gives the new snapshot, the message of any exception that escapes, and whether the client was disposed. The ghost out-parameter `released` of `LoadData` records the disposal.
- The registry is a class with a `map` field and an `updated` counter of notifications. Its invariant `Valid()` states that every entry is stored under its own id.
- `InsertAll` is the pure specification of the batch insert loop. It comes with lemmas: each id maps to the last view model with that id, other keys are untouched, and the invariant is kept.

The model follows the code where a reader might expect otherwise:

- **Query failures.** A reader might expect a failed info or state query after `Ready` to yield `Unreachable`. In the code the exception escapes `LoadDataAsync` and the status stays `Ready` (lines 35-40). `Refresh` and `LoadData` model the exception as a `Faulted(message)` result.
- **Disposal.** A reader might expect the session to be released on every path. The code disposes the client only inside the `Ready` branch (line 37). `released` is therefore true exactly when the status is `Ready`.
- **One failure stops the tick.** A reader might expect one host's failure never to affect the other hosts. In the code an exception in the `foreach` at lines 75-78 escapes `ExecuteAsync`. The hosts not yet visited are not refreshed, and `Updated()` is not fired (`RefreshAll`, `Execute`).
- **Two notifications on bulk load.** In the bulk-load branch, `AddHostRange` is not awaited (line 71). Its own `Updated()` fires if its loads succeed, and line 81 fires regardless. A successful bulk load therefore counts two notifications, and a failed one counts one. The failure never reaches `ExecuteAsync`.
- **Failed adds.** When a load fails inside the `async void` methods `AddHost` and `AddHostRange`, nothing is stored and `Updated()` is not fired.

## Model

| member | source | states |
|---|---|---|
| BoincRpcFactory.GetRpcClient | Boinc.Blazor/Data/BoincRpcFactory.cs:50-81 | never None; Ready iff connect succeeds and authorize returns true; Unauthorized iff connect succeeds and authorize returns false; Unreachable iff connect or authorize throws, with that exception's message; the Ready and Unauthorized factories leave the message at its default "" |
| BoincRpcFactory.Refresh | Boinc.Blazor/Data/BoincRpcFactory.cs:30-48 | status depends only on connect and authorize; client disposed iff Ready; not Ready: caches kept exactly, no exception; Ready and both queries succeed: both caches overwritten; GetHostInfo throws: its message escapes, status stays Ready, caches kept; GetState throws: HostInfo new, ClientState old |
| BoincRpcFactory.BoincHostViewModel.constructor | Boinc.Blazor/Data/BoincRpcFactory.cs:16-26 | copies Id, Uri, Port and AuthKey from the host; starts with status None, null HostInfo and ClientState, and an empty status message (lines 76-78) |
| BoincRpcFactory.BoincHostViewModel.LoadData | Boinc.Blazor/Data/BoincRpcFactory.cs:30-48 | the fields after the call are Refresh's snapshot of the fields before; the view model itself is returned unless an exception escapes; `released` is Refresh's disposal flag; afterwards only an Unreachable status carries a message (lines 76-81); Id, Uri, Port and AuthKey are constant |
| BaseHostedService.LastIndexOf | Boinc.Blazor/Data/BaseHostedService.cs:100-103 | the position of the last occurrence of an id in a batch |
| BaseHostedService.InsertAllKeys | Boinc.Blazor/Data/BaseHostedService.cs:100-103 | after the inserts the keys are the old keys plus the batch's ids |
| BaseHostedService.InsertAllLast | Boinc.Blazor/Data/BaseHostedService.cs:100-103 | each batch id maps to the last view model in the batch with that id |
| BaseHostedService.InsertAllOthers | Boinc.Blazor/Data/BaseHostedService.cs:100-103 | an id not in the batch is present afterwards iff it was before, with the same view model |
| BaseHostedService.InsertAllKeepsIds | Boinc.Blazor/Data/BaseHostedService.cs:102 | inserting keyed by Id preserves "every key equals its value's Id" |
| BaseHostedService.BatchFault | Boinc.Blazor/Data/BaseHostedService.cs:98 | the batch load throws iff some host's load throws, and what escapes is the exception of the first such host in batch order |
| BaseHostedService.LoadBatch | Boinc.Blazor/Data/BaseHostedService.cs:98 | one fresh view model per host, in order, each loaded once from the initial snapshot; the fault is BatchFault's |
| BaseHostedService.InsertBatch | Boinc.Blazor/Data/BaseHostedService.cs:100-103 | inserting the loaded view models in order yields the batch's effect: each id holds the last host with that id, loaded from the initial state, and other entries are unchanged |
| BaseHostedService.BulkLoadNeverNone | Boinc.Blazor/Data/BaseHostedService.cs:68-72 | after a bulk load into an empty registry no host has status None |
| BaseHostedService.BoincHostConnector.constructor | Boinc.Blazor/Data/BaseHostedService.cs:53 | the registry starts empty, with no notifications fired |
| BaseHostedService.BoincHostConnector.Updated | Boinc.Blazor/Data/BaseHostedService.cs:86 | one notification is counted and nothing else changes, subscribers or not |
| BaseHostedService.BoincHostConnector.BoincHosts | Boinc.Blazor/Data/BaseHostedService.cs:55 | the snapshot holds exactly the dictionary's values, one per key, and no two with the same Id |
| BaseHostedService.BoincHostConnector.AddHost | Boinc.Blazor/Data/BaseHostedService.cs:88-94 | on success the host's id maps to a fresh view model with the host's configuration, loaded from the initial state, whether or not the id was present; other entries unchanged; one notification. On failure nothing changes |
| BaseHostedService.BoincHostConnector.AddHostRange | Boinc.Blazor/Data/BaseHostedService.cs:96-105 | on success the batch is applied: each id maps to a fresh view model for the last host with that id, and ids outside the batch are unchanged; one notification. If any load throws, nothing changes |
| BaseHostedService.BoincHostConnector.RemoveHost | Boinc.Blazor/Data/BaseHostedService.cs:107-111 | the id is removed and every other entry is unchanged; removing an absent id leaves the map unchanged; one notification |
| BaseHostedService.BoincHostConnector.RefreshAll | Boinc.Blazor/Data/BaseHostedService.cs:75-78 | keys unchanged; no exception iff no entry's refresh throws; without an exception every entry is refreshed by Refresh; an escaping exception is the one some entry k's refresh threw, k keeps that refresh's state, and every other entry was either refreshed without an exception or left untouched |
| BaseHostedService.BoincHostConnector.Execute | Boinc.Blazor/Data/BaseHostedService.cs:64-84 | empty registry: bulk load of the stored hosts, two notifications if it succeeds, one and an empty registry if it fails; otherwise keys unchanged, and either every entry refreshed and one notification, or no notification and an exception thrown by one entry's refresh, with every other entry refreshed cleanly or untouched |

## Left out

- `BaseHostedService<T>.ExecuteAsync` and `StopAsync` (BaseHostedService.cs:18-40) are not modelled: the timer, the dependency-injection scope, `Task.Delay` and cancellation are hosting plumbing. `Execute` models one tick.
- Concurrency is not modelled: the thread safety of `ConcurrentDictionary`, the races of the un-awaited `async void` methods, and the parallel loads of `Task.WhenAll`. The calls are modelled in sequence.
- Enumeration order of the dictionary is not modelled. The refresh loop picks the next key arbitrarily.
- The RPC client (`RpcClient`) is not modelled: no wire protocol and no timeouts. Its calls are outcome inputs. `HostInfo` and `CoreClientState` are placeholder values with a single field.
- What an escaping exception does to the process is not modelled. From `async void` methods it would crash the process. The model returns it as a `fault` value.
- `PropertyChanged` and `HostsUpdated` delivery to subscribers is not modelled, only the count of `Updated()` firings. Logging calls are left out.
- BoincHostViewModel.constructor: Id, Uri, Port and AuthKey are constants. The C# record has public setters, but nothing in the modelled code assigns them after construction.
- Boinc.Blazor/Data/HostService.cs, Boinc.Blazor/Program.cs and the database migration are not part of this model. The stored host list that `HostService.GetAll` returns is an input to `Execute`.
