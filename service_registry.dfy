/** The registry centre's lease table (`com.alan.rpc.v4.registry.ServiceRegistry`).
    Every public method of the source is `synchronized`; here each is one
    sequential step, and the clock reading `now` is a parameter. */
module Registry {
  import opened Instance
  import opened RegistryTable
  import opened RegistryProperties

  /** The states of the instance objects in `s`, in list order. */
  function Views(s: seq<ServiceInstance>): (r: seq<Entry>)
    reads s
    ensures |r| == |s| && forall k :: 0 <= k < |s| ==> r[k] == s[k].View()
  {
    seq(|s|, k requires 0 <= k < |s| reads s => s[k].View())
  }

  /** `removeIf(instance -> instance.getInstanceId().equals(id))`: the
      objects whose id differs, in list order. */
  function RemoveIf(s: seq<ServiceInstance>, id: string): (r: seq<ServiceInstance>)
    ensures |r| <= |s|
    ensures forall x :: x in r ==> x in s && x.instanceId != id
  {
    if s == [] then []
    else RemoveIf(s[..|s| - 1], id) + (if s[|s| - 1].instanceId != id then [s[|s| - 1]] else [])
  }

  lemma {:induction false} RemoveIfViews(s: seq<ServiceInstance>, id: string)
    ensures Views(RemoveIf(s, id)) == WithoutId(Views(s), id)
  {
    if s != [] {
      RemoveIfViews(s[..|s| - 1], id);
      assert Views(s)[..|s| - 1] == Views(s[..|s| - 1]);
    }
  }

  lemma ViewsAppend(s: seq<ServiceInstance>, x: ServiceInstance)
    ensures Views(s + [x]) == Views(s) + [x.View()]
  {
  }

  /** Every object listed in `lists`. */
  ghost function Objects(lists: map<string, seq<ServiceInstance>>): (r: set<ServiceInstance>)
    ensures forall m :: m in lists ==> forall x :: x in lists[m] ==> x in r
  {
    set m, x | m in lists && x in lists[m] :: x
  }

  /** Objects whose states are all live are not expired. */
  lemma NoneExpired(s: seq<ServiceInstance>, now: int)
    requires forall e :: e in Views(s) ==> !Expired(e, now)
    ensures forall x :: x in s ==> !x.IsExpired(now)
  {
  }

  class ServiceRegistry {
    /** Service name to the instances registered under it, in registration order. */
    var registry: map<string, seq<ServiceInstance>>

    /** Every instance object the table refers to. The same set as
        `Objects(registry)`, written out because `Register` does not verify
        within its resource limit through that function. */
    ghost function Instances(): set<ServiceInstance>
      reads this
    {
      set name, x | name in registry && x in registry[name] :: x
    }

    /** The table as a value: what a reader of the registry observes. */
    ghost function Table(): Table
      reads this, Instances()
    {
      map name | name in registry :: (InstancesHold(name); Views(registry[name]))
    }

    lemma InstancesHold(name: string)
      requires name in registry
      ensures forall x :: x in registry[name] ==> x in Instances()
    {
    }

    /** Each list holds only instances of its own service, with distinct ids. */
    ghost predicate Valid()
      reads this, Instances()
    {
      WellFormed(Table())
    }

    constructor ()
      ensures Valid() && Table() == map[]
    {
      registry := map[];
    }

    /** `prior` and `before` describe an earlier state: the map then held
        and what its objects held. */
    ghost predicate Snapshot(prior: map<string, seq<ServiceInstance>>, before: Table)
      reads Objects(prior)
    {
      && prior.Keys == before.Keys
      && forall m :: m in prior ==> Views(prior[m]) == before[m]
    }

    /** When only the object at `registry[name][i]` has a new heartbeat, the
        table changes at that one place. */
    lemma RefreshTable(before: Table, name: string, i: nat, x: ServiceInstance)
      requires WellFormed(before) && registry.Keys == before.Keys && name in registry
      requires i < |registry[name]| && registry[name][i] == x
      requires forall m :: m in registry ==> |registry[m]| == |before[m]|
      requires forall m, k :: m in registry && 0 <= k < |registry[m]| ==>
        registry[m][k].View() == if registry[m][k] == x then before[m][k].(lastHeartbeat := x.lastHeartbeat) else before[m][k]
      ensures Table() == before[name := before[name][i := before[name][i].(lastHeartbeat := x.lastHeartbeat)]]
    {
      var after := Table();
      forall m | m in registry
        ensures after[m] == before[name := before[name][i := before[name][i].(lastHeartbeat := x.lastHeartbeat)]][m]
      {
      }
    }

    /** Appending `x` to the list under `name` adds its state to the table
        there and nowhere else. */
    lemma AppendTable(prior: map<string, seq<ServiceInstance>>, before: Table, name: string, x: ServiceInstance)
      requires Snapshot(prior, before)
      requires registry == prior[name := (if name in prior then prior[name] else []) + [x]]
      ensures Table() == before[name := ListOf(before, name) + [x.View()]]
    {
      var s := if name in prior then prior[name] else [];
      assert Views(s + [x]) == Views(s) + [x.View()];
    }

    method Register(serviceName: string, host: string, port: int, instanceId: string, now: int)
      requires Valid()
      modifies this, Instances()
      ensures Valid()
      ensures Table() == Registered(old(Table()), serviceName, host, port, instanceId, now)
    {
      ghost var prior, before := registry, Table();
      RegisterKeepsWellFormed(before, serviceName, host, port, instanceId, now);
      // `computeIfAbsent`: an unknown service starts from an empty list
      var instances := if serviceName in registry then registry[serviceName] else [];
      if serviceName in registry {
        InstancesHold(serviceName);
      }
      var i := 0;
      while i < |instances|
        invariant 0 <= i <= |instances|
        invariant registry == old(registry)
        invariant forall y :: y in old(Instances()) ==> y.lastHeartbeat == old(y.lastHeartbeat)
        invariant forall j :: 0 <= j < i ==> instances[j].instanceId != instanceId
      {
        if instances[i].instanceId == instanceId {
          instances[i].UpdateHeartbeat(now);
          RefreshTable(before, serviceName, i, instances[i]);
          assert FindId(before[serviceName], instanceId) == i;
          return;
        }
        i := i + 1;
      }
      assert FindId(ListOf(old(Table()), serviceName), instanceId) < 0;
      var instance := new ServiceInstance(serviceName, host, port, instanceId, now);
      registry := registry[serviceName := instances + [instance]];
      AppendTable(prior, before, serviceName, instance);
    }

    /** Putting `kept` under `name` shows in the table there and nowhere else. */
    lemma ReplaceTable(prior: map<string, seq<ServiceInstance>>, before: Table, name: string, kept: seq<ServiceInstance>)
      requires Snapshot(prior, before)
      requires registry == prior[name := kept]
      ensures Table() == before[name := Views(kept)]
    {
    }

    /** Returns the instances of `serviceName` that passed the freshness test;
        when some did not, the table keeps only those that did. */
    method Discover(serviceName: string, now: int) returns (validInstances: seq<ServiceInstance>)
      requires Valid()
      modifies this
      ensures Valid()
      ensures Table() == Discovered(old(Table()), serviceName, now).table
      ensures Views(validInstances) == Discovered(old(Table()), serviceName, now).found
      ensures forall x :: x in validInstances ==> !x.IsExpired(now)
    {
      ghost var prior, before := registry, Table();
      if serviceName !in registry || registry[serviceName] == [] {
        return [];
      }
      var instances := registry[serviceName];
      validInstances := [];
      var i := 0;
      while i < |instances|
        invariant 0 <= i <= |instances|
        invariant registry == prior
        invariant Views(validInstances) == LiveOnly(Views(instances[..i]), now)
      {
        ViewsAppend(instances[..i], instances[i]);
        assert instances[..i + 1] == instances[..i] + [instances[i]];
        LiveOnlyAppend(Views(instances[..i]), instances[i].View(), now);
        if now - instances[i].lastHeartbeat < LeaseMillis {
          ViewsAppend(validInstances, instances[i]);
          validInstances := validInstances + [instances[i]];
        }
        i := i + 1;
      }
      assert instances[..i] == instances;
      if |validInstances| != |instances| {
        registry := registry[serviceName := validInstances];
      }
      DiscoverSettles(prior, before, serviceName, now, validInstances);
    }

    /** Once the live objects are collected and, when some were dropped, put
        back under `name`, the table and the answer are what `Discovered` says. */
    lemma DiscoverSettles(prior: map<string, seq<ServiceInstance>>, before: Table, name: string, now: int,
                          valid: seq<ServiceInstance>)
      requires Snapshot(prior, before) && WellFormed(before)
      requires name in prior && prior[name] != []
      requires Views(valid) == LiveOnly(before[name], now)
      requires registry == if |valid| != |prior[name]| then prior[name := valid] else prior
      ensures Valid()
      ensures Table() == Discovered(before, name, now).table
      ensures Views(valid) == Discovered(before, name, now).found
      ensures forall x :: x in valid ==> !x.IsExpired(now)
    {
      DiscoverKeepsWellFormed(before, name, now);
      LiveOnlyMembers(before[name], now);
      if |valid| != |prior[name]| {
        ReplaceTable(prior, before, name, valid);
      } else {
        ReplaceTable(prior, before, name, prior[name]);
      }
      NoneExpired(valid, now);
    }

    /** Removes every instance of `serviceName` whose id is `instanceId`. */
    method Deregister(serviceName: string, instanceId: string)
      requires Valid()
      modifies this
      ensures Valid()
      ensures Table() == Deregistered(old(Table()), serviceName, instanceId)
    {
      ghost var prior, before := registry, Table();
      if serviceName in registry {
        var kept := RemoveIf(registry[serviceName], instanceId);
        registry := registry[serviceName := kept];
        DeregisterSettles(prior, before, serviceName, instanceId);
      }
    }

    /** Putting back the objects `removeIf` kept gives the table `Deregistered` describes. */
    lemma DeregisterSettles(prior: map<string, seq<ServiceInstance>>, before: Table, name: string, id: string)
      requires Snapshot(prior, before) && WellFormed(before) && name in prior
      requires registry == prior[name := RemoveIf(prior[name], id)]
      ensures Valid()
      ensures Table() == Deregistered(before, name, id)
    {
      DeregisterResult(before, name, id);
      RemoveIfViews(prior[name], id);
      ReplaceTable(prior, before, name, RemoveIf(prior[name], id));
    }

    /** Refreshes the heartbeat of the listed instance `instanceId` of
        `serviceName`; an unknown service or id changes nothing. */
    method Heartbeat(serviceName: string, instanceId: string, now: int)
      requires Valid()
      modifies Instances()
      ensures Valid()
      ensures Table() == Heartbeated(old(Table()), serviceName, instanceId, now)
    {
      ghost var before := Table();
      HeartbeatResult(Table(), serviceName, instanceId, now);
      if serviceName in registry {
        var instances := registry[serviceName];
        InstancesHold(serviceName);
        var i := 0;
        while i < |instances|
          invariant 0 <= i <= |instances|
          invariant forall y :: y in old(Instances()) ==> y.lastHeartbeat == old(y.lastHeartbeat)
          invariant forall j :: 0 <= j < i ==> instances[j].instanceId != instanceId
        {
          if instances[i].instanceId == instanceId {
            instances[i].UpdateHeartbeat(now);
            RefreshTable(before, serviceName, i, instances[i]);
            assert FindId(before[serviceName], instanceId) == i;
            return;
          }
          i := i + 1;
        }
        assert FindId(old(Table())[serviceName], instanceId) < 0;
      }
    }

    /** A copy of the whole table. */
    method GetAllServices() returns (all: map<string, seq<ServiceInstance>>)
      requires Valid()
      ensures all.Keys == Table().Keys
      ensures forall name :: name in all ==> Views(all[name]) == Table()[name]
    {
      all := registry;
    }
  }
}
