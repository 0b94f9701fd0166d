/**
 * The host registry of Boinc.Blazor/Data/BaseHostedService.cs
 * (BoincHostConnector): a dictionary from host id to view model, the
 * operations that add, replace and remove entries, the values snapshot, and
 * one tick of the refresh loop. Every operation that completes fires the
 * Updated notification, counted here.
 *
 * The calls are modelled one after another: the concurrent dictionary, the
 * un-awaited `async void` methods and Task.WhenAll are sequential here.
 */
module BaseHostedService {
  import Wrappers
  import opened BoincRpcFactory

  /** One host to load, together with how its RPC calls turn out. */
  datatype Attempt = Attempt(host: BoincHost, rpc: RpcOutcomes)

  /** The ids of a sequence of view models, in order. */
  function ModelIds(vms: seq<BoincHostViewModel>): seq<int>
  {
    seq(|vms|, i requires 0 <= i < |vms| => vms[i].id)
  }

  /** The host ids of a batch, in order. */
  function AttemptIds(batch: seq<Attempt>): seq<int>
  {
    seq(|batch|, i requires 0 <= i < |batch| => batch[i].host.id)
  }

  /** Position i holds the last occurrence of its id. */
  predicate IsLastOf(ids: seq<int>, i: int)
  {
    0 <= i < |ids| && forall j :: i < j < |ids| ==> ids[j] != ids[i]
  }

  /** The position of the last occurrence of k. */
  function LastIndexOf(ids: seq<int>, k: int): (i: int)
    requires k in ids
    ensures IsLastOf(ids, i) && ids[i] == k
    decreases |ids|
  {
    if ids[|ids| - 1] == k then |ids| - 1 else LastIndexOf(ids[..|ids| - 1], k)
  }

  /** The registry invariant: every entry is stored under its own id. */
  predicate KeysMatchIds(m: map<int, BoincHostViewModel>)
  {
    forall k :: k in m ==> m[k].id == k
  }

  /** AddOrUpdate of each view model in turn, keyed by its id. */
  function InsertAll(m: map<int, BoincHostViewModel>, vms: seq<BoincHostViewModel>): map<int, BoincHostViewModel>
    decreases |vms|
  {
    if vms == [] then m
    else
      var last := vms[|vms| - 1];
      InsertAll(m, vms[..|vms| - 1])[last.id := last]
  }

  lemma {:induction false} InsertAllKeys(m: map<int, BoincHostViewModel>, vms: seq<BoincHostViewModel>)
    ensures InsertAll(m, vms).Keys == m.Keys + (set k | k in ModelIds(vms))
    decreases |vms|
  {
    if vms != [] {
      var init := vms[..|vms| - 1];
      InsertAllKeys(m, init);
      assert ModelIds(vms) == ModelIds(init) + [vms[|vms| - 1].id];
    }
  }

  lemma {:induction false} InsertAllLast(m: map<int, BoincHostViewModel>, vms: seq<BoincHostViewModel>, i: int)
    requires IsLastOf(ModelIds(vms), i)
    ensures vms[i].id in InsertAll(m, vms) && InsertAll(m, vms)[vms[i].id] == vms[i]
    decreases |vms|
  {
    var n := |vms| - 1;
    if i < n {
      var init := vms[..n];
      assert ModelIds(init) == ModelIds(vms)[..n];
      assert ModelIds(vms)[n] == vms[n].id && ModelIds(vms)[i] == vms[i].id;
      InsertAllLast(m, init, i);
    }
  }

  lemma {:induction false} InsertAllOthers(m: map<int, BoincHostViewModel>, vms: seq<BoincHostViewModel>, k: int)
    requires k !in ModelIds(vms)
    ensures k in InsertAll(m, vms) <==> k in m
    ensures k in m ==> InsertAll(m, vms)[k] == m[k]
    decreases |vms|
  {
    if vms != [] {
      var init := vms[..|vms| - 1];
      assert ModelIds(init) == ModelIds(vms)[..|vms| - 1];
      assert ModelIds(vms)[|vms| - 1] == vms[|vms| - 1].id;
      InsertAllOthers(m, init, k);
    }
  }

  lemma {:induction false} InsertAllKeepsIds(m: map<int, BoincHostViewModel>, vms: seq<BoincHostViewModel>)
    requires KeysMatchIds(m)
    ensures KeysMatchIds(InsertAll(m, vms))
    decreases |vms|
  {
    if vms != [] {
      InsertAllKeepsIds(m, vms[..|vms| - 1]);
    }
  }

  /**
   * The exception Task.WhenAll rethrows for a batch of freshly created view
   * models: that of the first load, in batch order, that faulted.
   */
  function BatchFault(batch: seq<Attempt>): (f: Wrappers.Option<string>)
    ensures f.None? <==> forall i :: 0 <= i < |batch| ==> Refresh(InitialSnapshot(), batch[i].rpc).fault.None?
    ensures f.Some? ==> exists i :: 0 <= i < |batch| && Refresh(InitialSnapshot(), batch[i].rpc).fault == f
                                    && forall j :: 0 <= j < i ==> Refresh(InitialSnapshot(), batch[j].rpc).fault.None?
    decreases |batch|
  {
    if batch == [] then Wrappers.None
    else
      var earlier := BatchFault(batch[..|batch| - 1]);
      if earlier.Some? then earlier else Refresh(InitialSnapshot(), batch[|batch| - 1].rpc).fault
  }

  /**
   * `after` is `before` with a batch of freshly loaded hosts added or
   * replaced: each id of the batch holds the last host with that id, loaded
   * from the initial state, and every other entry is unchanged.
   */
  ghost predicate BatchApplied(before: map<int, BoincHostViewModel>, after: map<int, BoincHostViewModel>, batch: seq<Attempt>)
    reads after.Values
  {
    var ids := AttemptIds(batch);
    && after.Keys == before.Keys + (set k | k in ids)
    && (forall k :: k in before && k !in ids ==> after[k] == before[k])
    && (forall k :: k in ids ==>
          var a := batch[LastIndexOf(ids, k)];
          after[k].Config() == a.host && after[k].Snap() == Refresh(InitialSnapshot(), a.rpc).after)
  }

  /** After a bulk load into an empty registry no host is left with status None. */
  lemma BulkLoadNeverNone(after: map<int, BoincHostViewModel>, batch: seq<Attempt>)
    requires BatchApplied(map[], after, batch)
    ensures forall k :: k in after ==> after[k].status.status != ConnectionStatus.None
  {
    forall k | k in after
      ensures after[k].status.status != ConnectionStatus.None
    {
      var ids := AttemptIds(batch);
      assert k in ids;
      var a := batch[LastIndexOf(ids, k)];
      assert after[k].Snap().status == GetRpcClient(a.rpc);
    }
  }

  lemma NonEmptyHasMember(s: set<int>)
    requires s != {}
    ensures exists k :: k in s
  {
    if !(exists k :: k in s) {
      assert false;
    }
  }

  lemma ValueHasKey(m: map<int, BoincHostViewModel>, v: BoincHostViewModel)
    requires v in m.Values
    ensures exists k :: k in m && m[k] == v
  {
    if !(exists k :: k in m && m[k] == v) {
      assert false;
    }
  }

  /**
   * The loading step of AddHostRange (line 98): a fresh view model per host
   * of the batch, each loaded once from its initial state; the loads are
   * independent, so they are run one after another here.
   */
  method LoadBatch(batch: seq<Attempt>) returns (loaded: seq<BoincHostViewModel>, fault: Wrappers.Option<string>)
    ensures |loaded| == |batch|
    ensures forall j :: 0 <= j < |batch| ==>
      && fresh(loaded[j])
      && loaded[j].Config() == batch[j].host
      && loaded[j].Snap() == Refresh(InitialSnapshot(), batch[j].rpc).after
    ensures fault == BatchFault(batch)
  {
    loaded := [];
    fault := Wrappers.None;
    for i := 0 to |batch|
      invariant |loaded| == i
      invariant forall j :: 0 <= j < i ==>
        && fresh(loaded[j])
        && loaded[j].Config() == batch[j].host
        && loaded[j].Snap() == Refresh(InitialSnapshot(), batch[j].rpc).after
      invariant fault == BatchFault(batch[..i])
    {
      var vm := new BoincHostViewModel(batch[i].host);
      var outcome;
      ghost var released;
      outcome, released := vm.LoadData(batch[i].rpc);
      if outcome.Faulted? && fault.None? {
        fault := Wrappers.Some(outcome.message);
      }
      assert batch[..i + 1][..i] == batch[..i];
      loaded := loaded + [vm];
    }
    assert batch[..|batch|] == batch;
  }

  /** Inserting the loaded view models of a batch, in order, applies the batch. */
  lemma InsertBatch(before: map<int, BoincHostViewModel>, loaded: seq<BoincHostViewModel>, batch: seq<Attempt>)
    requires |loaded| == |batch|
    requires forall j :: 0 <= j < |batch| ==>
      loaded[j].Config() == batch[j].host && loaded[j].Snap() == Refresh(InitialSnapshot(), batch[j].rpc).after
    ensures BatchApplied(before, InsertAll(before, loaded), batch)
  {
    var after := InsertAll(before, loaded);
    var ids := AttemptIds(batch);
    assert ModelIds(loaded) == ids;
    InsertAllKeys(before, loaded);
    forall k | k in before && k !in ids
      ensures after[k] == before[k]
    {
      InsertAllOthers(before, loaded, k);
    }
    forall k | k in ids
      ensures after[k] == loaded[LastIndexOf(ids, k)]
    {
      InsertAllLast(before, loaded, LastIndexOf(ids, k));
    }
  }

  class BoincHostConnector {
    /** The dictionary of view models, keyed by host id. */
    var hosts: map<int, BoincHostViewModel>
    /** How many times Updated() has fired. */
    var updated: nat

    predicate Valid()
      reads this
    {
      KeysMatchIds(hosts)
    }

    constructor ()
      ensures Valid() && hosts == map[] && updated == 0
    {
      hosts := map[];
      updated := 0;
    }

    /** Raise HostsUpdated; with no subscribers nothing but the count changes. */
    method Updated()
      modifies this`updated
      ensures updated == old(updated) + 1
    {
      updated := updated + 1;
    }

    /** The values snapshot (line 55): every stored view model once, so no id twice. */
    method BoincHosts() returns (r: seq<BoincHostViewModel>)
      requires Valid()
      ensures |r| == |hosts|
      ensures forall v :: v in r <==> v in hosts.Values
      ensures forall i, j :: 0 <= i < j < |r| ==> r[i].id != r[j].id
    {
      r := [];
      var rest := hosts.Keys;
      while rest != {}
        invariant rest <= hosts.Keys
        invariant |r| + |rest| == |hosts|
        invariant forall i :: 0 <= i < |r| ==> r[i].id in hosts && r[i].id !in rest && hosts[r[i].id] == r[i]
        invariant forall k :: k in hosts && k !in rest ==> hosts[k] in r
        invariant forall i, j :: 0 <= i < j < |r| ==> r[i].id != r[j].id
        decreases |rest|
      {
        NonEmptyHasMember(rest);
        var k :| k in rest;
        r := r + [hosts[k]];
        rest := rest - {k};
      }
      forall v | v in r
        ensures v in hosts.Values
      {
        var i :| 0 <= i < |r| && r[i] == v;
        assert hosts[r[i].id] == v;
      }
      forall v | v in hosts.Values
        ensures v in r
      {
        ValueHasKey(hosts, v);
        var k :| k in hosts && hosts[k] == v;
        assert k !in rest;
      }
    }

    /** Load a new view model for `host` and add or replace its entry. */
    method AddHost(host: BoincHost, rpc: RpcOutcomes) returns (fault: Wrappers.Option<string>)
      requires Valid()
      modifies this
      ensures Valid()
      ensures fault == Refresh(InitialSnapshot(), rpc).fault
      ensures fault.Some? ==> hosts == old(hosts) && updated == old(updated)
      ensures fault.None? ==>
        && host.id in hosts
        && fresh(hosts[host.id])
        && hosts == old(hosts)[host.id := hosts[host.id]]
        && hosts[host.id].Config() == host
        && hosts[host.id].Snap() == Refresh(InitialSnapshot(), rpc).after
        && updated == old(updated) + 1
    {
      var vm := new BoincHostViewModel(host);
      var outcome;
      ghost var released;
      outcome, released := vm.LoadData(rpc);
      if outcome.Faulted? {
        // the exception escapes the async void method: nothing is stored
        return Wrappers.Some(outcome.message);
      }
      hosts := hosts[vm.id := vm];
      Updated();
      fault := Wrappers.None;
    }

    /** Load every host of the batch, then add or replace them in batch order. */
    method AddHostRange(batch: seq<Attempt>) returns (fault: Wrappers.Option<string>)
      requires Valid()
      modifies this
      ensures Valid()
      ensures fault == BatchFault(batch)
      ensures fault.Some? ==> hosts == old(hosts) && updated == old(updated)
      ensures fault.None? ==>
        && BatchApplied(old(hosts), hosts, batch)
        && (forall k :: k in AttemptIds(batch) ==> k in hosts && fresh(hosts[k]))
        && updated == old(updated) + 1
    {
      var loaded;
      loaded, fault := LoadBatch(batch);
      if fault.Some? {
        // Task.WhenAll rethrows: nothing is stored
        return;
      }
      for i := 0 to |loaded|
        invariant hosts == InsertAll(old(hosts), loaded[..i])
        invariant updated == old(updated)
        modifies this
      {
        assert loaded[..i + 1][..i] == loaded[..i];
        hosts := hosts[loaded[i].id := loaded[i]];
      }
      assert loaded[..|loaded|] == loaded;
      InsertAllKeepsIds(old(hosts), loaded);
      InsertBatch(old(hosts), loaded, batch);
      Updated();
      assert ModelIds(loaded) == AttemptIds(batch);
      forall k | k in AttemptIds(batch)
        ensures k in hosts && fresh(hosts[k])
      {
        InsertAllLast(old(hosts), loaded, LastIndexOf(AttemptIds(batch), k));
      }
    }

    /** TryRemove by the view model's id. */
    method RemoveHost(host: BoincHostViewModel)
      requires Valid()
      modifies this
      ensures Valid()
      ensures hosts == old(hosts) - {host.id}
      ensures host.id !in old(hosts) ==> hosts == old(hosts)
      ensures updated == old(updated) + 1
    {
      hosts := hosts - {host.id};
      Updated();
    }

    /**
     * The refresh branch of ExecuteAsync (lines 75-78): each entry is loaded
     * in turn, in an order the dictionary chooses. The first exception stops
     * the loop: the entry it came from is left as its failed load made it,
     * the entries visited before it were refreshed without an exception, and
     * the entries not yet visited are untouched.
     */
    method RefreshAll(network: int -> RpcOutcomes) returns (fault: Wrappers.Option<string>)
      requires Valid()
      modifies hosts.Values
      ensures hosts == old(hosts) && updated == old(updated)
      ensures fault.None? <==> forall k :: k in hosts ==> Refresh(old(hosts[k].Snap()), network(k)).fault.None?
      ensures fault.Some? ==> exists k ::
        && k in hosts
        && Refresh(old(hosts[k].Snap()), network(k)).fault == fault
        && hosts[k].Snap() == Refresh(old(hosts[k].Snap()), network(k)).after
        && forall j :: j in hosts && j != k ==>
             || (hosts[j].Snap() == Refresh(old(hosts[j].Snap()), network(j)).after
                 && Refresh(old(hosts[j].Snap()), network(j)).fault.None?)
             || hosts[j].Snap() == old(hosts[j].Snap())
      ensures forall k :: k in hosts ==>
        || hosts[k].Snap() == Refresh(old(hosts[k].Snap()), network(k)).after
        || (fault.Some? && hosts[k].Snap() == old(hosts[k].Snap()))
    {
      var rest := hosts.Keys;
      while rest != {}
        invariant rest <= hosts.Keys
        invariant forall k :: k in hosts && k !in rest ==>
          && hosts[k].Snap() == Refresh(old(hosts[k].Snap()), network(k)).after
          && Refresh(old(hosts[k].Snap()), network(k)).fault.None?
        invariant forall k :: k in rest ==> hosts[k].Snap() == old(hosts[k].Snap())
        decreases |rest|
      {
        NonEmptyHasMember(rest);
        var k :| k in rest;
        var vm := hosts[k];
        // entries are stored under their own ids, so no other key holds vm
        assert forall j :: j in hosts && j != k ==> hosts[j] != vm;
        assert vm in hosts.Values;
        var outcome;
        ghost var released;
        outcome, released := vm.LoadData(network(k));
        if outcome.Faulted? {
          assert Refresh(old(hosts[k].Snap()), network(k)).fault == Wrappers.Some(outcome.message);
          return Wrappers.Some(outcome.message);
        }
        rest := rest - {k};
      }
      fault := Wrappers.None;
    }

    /**
     * One tick of the refresh loop. With an empty registry the stored host
     * configurations are bulk-loaded (AddHostRange is not awaited, so its
     * exception never reaches this method); otherwise every entry is
     * refreshed in turn and the first exception escapes before Updated.
     */
    method Execute(stored: seq<Attempt>, network: int -> RpcOutcomes) returns (fault: Wrappers.Option<string>)
      requires Valid()
      modifies this, hosts.Values
      ensures Valid()
      ensures old(hosts) == map[] ==>
        && fault.None?
        && (BatchFault(stored).None? ==> BatchApplied(map[], hosts, stored) && updated == old(updated) + 2)
        && (BatchFault(stored).Some? ==> hosts == map[] && updated == old(updated) + 1)
      ensures old(hosts) != map[] ==>
        && hosts == old(hosts)
        && (fault.None? <==> forall k :: k in old(hosts) ==> Refresh(old(hosts[k].Snap()), network(k)).fault.None?)
        && updated == old(updated) + (if fault.None? then 1 else 0)
        && (fault.Some? ==> exists k ::
              && k in old(hosts)
              && Refresh(old(hosts[k].Snap()), network(k)).fault == fault
              && hosts[k].Snap() == Refresh(old(hosts[k].Snap()), network(k)).after
              && forall j :: j in old(hosts) && j != k ==>
                   || (hosts[j].Snap() == Refresh(old(hosts[j].Snap()), network(j)).after
                       && Refresh(old(hosts[j].Snap()), network(j)).fault.None?)
                   || hosts[j].Snap() == old(hosts[j].Snap()))
        && forall k :: k in old(hosts) ==>
             || hosts[k].Snap() == Refresh(old(hosts[k].Snap()), network(k)).after
             || (fault.Some? && hosts[k].Snap() == old(hosts[k].Snap()))
    {
      var current := BoincHosts();
      if |current| == 0 {
        var ignored := AddHostRange(stored);
        fault := Wrappers.None;
      } else {
        fault := RefreshAll(network);
        if fault.Some? {
          return;
        }
      }
      Updated();
    }
  }
}
