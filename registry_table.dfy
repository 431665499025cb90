/** The registry table as a value (`serviceName -> [instance]`) and the effect
    of each registry operation on it. The class `Registry.ServiceRegistry` is
    proved to change its table exactly as these functions say. */
module RegistryTable {
  import opened Instance

  type Table = map<string, seq<Entry>>

  /** The registry's own freshness test in `discover`: strictly less than the lease. */
  predicate Alive(e: Entry, now: int)
    ensures Alive(e, now) ==> !Expired(e, now)
    ensures !Alive(e, now) && !Expired(e, now) <==> now - e.lastHeartbeat == LeaseMillis
  {
    now - e.lastHeartbeat < LeaseMillis
  }

  predicate DistinctIds(s: seq<Entry>)
  {
    forall i, j :: 0 <= i < j < |s| ==> s[i].instanceId != s[j].instanceId
  }

  /** The list stored under `name`: every entry belongs to `name`, and no id occurs twice. */
  predicate ListOk(name: string, s: seq<Entry>)
  {
    (forall k :: 0 <= k < |s| ==> s[k].serviceName == name) && DistinctIds(s)
  }

  predicate WellFormed(t: Table)
  {
    forall name :: name in t ==> ListOk(name, t[name])
  }

  predicate HasId(s: seq<Entry>, id: string)
  {
    exists k :: 0 <= k < |s| && s[k].instanceId == id
  }

  function ListOf(t: Table, name: string): seq<Entry>
  {
    if name in t then t[name] else []
  }

  /** The position of the first entry with `id`, as the loops in `register`
      and `heartbeat` find it, or -1. */
  function FindId(s: seq<Entry>, id: string): (k: int)
    ensures -1 <= k < |s|
    ensures 0 <= k ==> s[k].instanceId == id
    ensures forall j :: 0 <= j < |s| && (k < 0 || j < k) ==> s[j].instanceId != id
  {
    if s == [] then -1
    else if s[0].instanceId == id then 0
    else
      var k := FindId(s[1..], id);
      if k < 0 then -1 else k + 1
  }

  /** `updateHeartbeat` on the first entry with `id`, if there is one. */
  function Touched(s: seq<Entry>, id: string, now: int): (r: seq<Entry>)
    ensures |r| == |s|
    ensures forall k :: 0 <= k < |s| ==> r[k].(lastHeartbeat := s[k].lastHeartbeat) == s[k]
    ensures !HasId(s, id) ==> r == s
  {
    var k := FindId(s, id);
    if k < 0 then s else s[k := s[k].(lastHeartbeat := now)]
  }

  /** Entries that pass the freshness test, in stored order. */
  function LiveOnly(s: seq<Entry>, now: int): (r: seq<Entry>)
    ensures |r| <= |s|
    ensures forall e :: e in r ==> e in s && Alive(e, now)
  {
    if s == [] then []
    else LiveOnly(s[..|s| - 1], now) + (if Alive(s[|s| - 1], now) then [s[|s| - 1]] else [])
  }

  /** Entries whose id differs from `id`, in stored order (`removeIf`). */
  function WithoutId(s: seq<Entry>, id: string): (r: seq<Entry>)
    ensures |r| <= |s|
    ensures forall e :: e in r ==> e in s && e.instanceId != id
  {
    if s == [] then []
    else WithoutId(s[..|s| - 1], id) + (if s[|s| - 1].instanceId != id then [s[|s| - 1]] else [])
  }

  /** The table after `register`: only the list under `name` changes, and
      it exists afterwards. */
  function Registered(t: Table, name: string, host: string, port: int, id: string, now: int): (r: Table)
    ensures r.Keys == t.Keys + {name}
    ensures forall m :: m in t && m != name ==> r[m] == t[m]
    ensures |r[name]| >= |ListOf(t, name)|
  {
    var s := ListOf(t, name);
    if FindId(s, id) >= 0 then t[name := Touched(s, id, now)]
    else t[name := s + [Entry(name, host, port, id, now)]]
  }

  /** What `discover` leaves in the table and what it returns. */
  datatype Discovery = Discovery(table: Table, found: seq<Entry>)

  /** `discover`: the live part of the list under `name`, which replaces the
      stored list when something was filtered out; other services are untouched. */
  function Discovered(t: Table, name: string, now: int): (r: Discovery)
    ensures |r.found| <= |ListOf(t, name)|
    ensures forall e :: e in r.found ==> e in ListOf(t, name) && Alive(e, now)
  {
    LiveOnlyMembers(ListOf(t, name), now);
    if name !in t || t[name] == [] then Discovery(t, [])
    else
      var valid := LiveOnly(t[name], now);
      Discovery(if |valid| != |t[name]| then t[name := valid] else t, valid)
  }

  /** `deregister`: the list under `name` loses the entries with `id`; the
      key stays even when the list becomes empty. */
  function Deregistered(t: Table, name: string, id: string): (r: Table)
    ensures r.Keys == t.Keys
    ensures forall m :: m in t && m != name ==> r[m] == t[m]
    ensures name in t ==> |r[name]| <= |t[name]| && forall e :: e in r[name] ==> e.instanceId != id
  {
    if name in t then t[name := WithoutId(t[name], id)] else t
  }

  /** `heartbeat`: at most one entry under `name` has its time set to `now`;
      no key is added and no entry is added or removed. */
  function Heartbeated(t: Table, name: string, id: string, now: int): (r: Table)
    ensures r.Keys == t.Keys
    ensures forall m :: m in t && m != name ==> r[m] == t[m]
    ensures name in t ==> |r[name]| == |t[name]|
  {
    if name in t then t[name := Touched(t[name], id, now)] else t
  }

  // ---------------------------------------------------------------------------
  // Facts about the list helpers

  lemma FindIdUnique(s: seq<Entry>, id: string, k: nat)
    requires DistinctIds(s) && k < |s| && s[k].instanceId == id
    ensures FindId(s, id) == k
  {
  }

  /** `LiveOnly` looks at one more entry at a time, as the loop in `discover` does. */
  lemma LiveOnlyAppend(s: seq<Entry>, e: Entry, now: int)
    ensures LiveOnly(s + [e], now) == LiveOnly(s, now) + (if Alive(e, now) then [e] else [])
  {
    assert (s + [e])[..|s|] == s;
  }

  lemma {:induction false} LiveOnlyMembers(s: seq<Entry>, now: int)
    ensures |LiveOnly(s, now)| <= |s|
    ensures forall e :: e in LiveOnly(s, now) <==> e in s && Alive(e, now)
  {
    if s != [] {
      LiveOnlyMembers(s[..|s| - 1], now);
      assert s == s[..|s| - 1] + [s[|s| - 1]];
    }
  }

  /** Nothing filtered out means the list is returned as it is. */
  lemma {:induction false} LiveOnlyAll(s: seq<Entry>, now: int)
    requires |LiveOnly(s, now)| == |s|
    ensures LiveOnly(s, now) == s
  {
    if s != [] {
      LiveOnlyMembers(s[..|s| - 1], now);
      assert Alive(s[|s| - 1], now);
      LiveOnlyAll(s[..|s| - 1], now);
      assert s == s[..|s| - 1] + [s[|s| - 1]];
    }
  }

  lemma {:induction false} LiveOnlyKeepsListOk(name: string, s: seq<Entry>, now: int)
    requires ListOk(name, s)
    ensures ListOk(name, LiveOnly(s, now))
  {
    if s != [] {
      var init := s[..|s| - 1];
      LiveOnlyKeepsListOk(name, init, now);
      LiveOnlyMembers(init, now);
      var r := LiveOnly(init, now);
      forall i | 0 <= i < |r| ensures r[i].instanceId != s[|s| - 1].instanceId {
        assert r[i] in init;
      }
    }
  }

  lemma {:induction false} WithoutIdMembers(s: seq<Entry>, id: string)
    ensures forall e :: e in WithoutId(s, id) <==> e in s && e.instanceId != id
  {
    if s != [] {
      WithoutIdMembers(s[..|s| - 1], id);
      assert s == s[..|s| - 1] + [s[|s| - 1]];
    }
  }

  lemma {:induction false} WithoutIdKeepsListOk(name: string, s: seq<Entry>, id: string)
    requires ListOk(name, s)
    ensures ListOk(name, WithoutId(s, id))
  {
    if s != [] {
      var init := s[..|s| - 1];
      WithoutIdKeepsListOk(name, init, id);
      WithoutIdMembers(init, id);
      var r := WithoutId(init, id);
      forall i | 0 <= i < |r| ensures r[i].instanceId != s[|s| - 1].instanceId {
        assert r[i] in init;
      }
    }
  }

  lemma TouchedShape(s: seq<Entry>, id: string, now: int)
    ensures |Touched(s, id, now)| == |s|
    ensures forall k :: 0 <= k < |s| ==>
      Touched(s, id, now)[k] == (if k == FindId(s, id) then s[k].(lastHeartbeat := now) else s[k])
  {
  }

  lemma TouchedKeepsListOk(name: string, s: seq<Entry>, id: string, now: int)
    requires ListOk(name, s)
    ensures ListOk(name, Touched(s, id, now))
  {
  }
}

/** What the four registry operations promise, stated on the table value. */
module RegistryProperties {
  import opened Instance
  import opened RegistryTable

  /** Only the service `name` can change; every other service keeps its list. */
  ghost predicate OthersUnchanged(t: Table, t': Table, name: string)
  {
    forall m :: m != name ==> (m in t' <==> m in t) && (m in t ==> t'[m] == t[m])
  }

  /** Registering an id that is already listed only sets that entry's
      heartbeat to `now`: host and port given now are ignored, and the list
      keeps its length. */
  lemma RegisterRefreshesExisting(t: Table, name: string, host: string, port: int, id: string, now: int, k: nat)
    requires WellFormed(t) && name in t
    requires k < |t[name]| && t[name][k].instanceId == id
    ensures Registered(t, name, host, port, id, now) == t[name := t[name][k := t[name][k].(lastHeartbeat := now)]]
  {
  }

  /** Registering an id not yet listed appends one fresh entry at the end;
      an unknown service starts from an empty list. */
  lemma RegisterAppendsNew(t: Table, name: string, host: string, port: int, id: string, now: int)
    requires !HasId(ListOf(t, name), id)
    ensures Registered(t, name, host, port, id, now) == t[name := ListOf(t, name) + [Entry(name, host, port, id, now)]]
  {
  }

  /** After `register` the id is listed exactly once under `name`, with the new
      heartbeat, and the table stays well formed. */
  lemma RegisterKeepsWellFormed(t: Table, name: string, host: string, port: int, id: string, now: int)
    requires WellFormed(t)
    ensures WellFormed(Registered(t, name, host, port, id, now))
    ensures OthersUnchanged(t, Registered(t, name, host, port, id, now), name)
    ensures name in Registered(t, name, host, port, id, now)
    ensures 0 <= FindId(Registered(t, name, host, port, id, now)[name], id)
    ensures Registered(t, name, host, port, id, now)[name][FindId(Registered(t, name, host, port, id, now)[name], id)].lastHeartbeat == now
  {
    var s := ListOf(t, name);
    var t' := Registered(t, name, host, port, id, now);
    if FindId(s, id) >= 0 {
      TouchedShape(s, id, now);
      TouchedKeepsListOk(name, s, id, now);
      FindIdUnique(t'[name], id, FindId(s, id));
    } else {
      var s' := s + [Entry(name, host, port, id, now)];
      assert ListOk(name, s');
      FindIdUnique(s', id, |s|);
    }
  }

  /** Registering the same instance twice leaves the table as one
      registration at the later time would. */
  lemma RegisterTwice(t: Table, name: string, host: string, port: int, host2: string, port2: int, id: string, now: int, later: int)
    requires WellFormed(t)
    ensures Registered(Registered(t, name, host, port, id, now), name, host2, port2, id, later)
         == Registered(t, name, host, port, id, later)
  {
    var s := ListOf(t, name);
    var t1 := Registered(t, name, host, port, id, now);
    RegisterKeepsWellFormed(t, name, host, port, id, now);
    var k := FindId(t1[name], id);
    RegisterRefreshesExisting(t1, name, host2, port2, id, later, k);
    if FindId(s, id) >= 0 {
      var i := FindId(s, id);
      RegisterRefreshesExisting(t, name, host, port, id, now, i);
      RegisterRefreshesExisting(t, name, host, port, id, later, i);
      assert s[i := s[i].(lastHeartbeat := now)][i := s[i].(lastHeartbeat := later)] == s[i := s[i].(lastHeartbeat := later)];
    } else {
      RegisterAppendsNew(t, name, host, port, id, now);
      RegisterAppendsNew(t, name, host, port, id, later);
      FindIdUnique(t1[name], id, |s|);
      var e := Entry(name, host, port, id, now);
      assert (s + [e])[|s| := e.(lastHeartbeat := later)] == s + [Entry(name, host, port, id, later)];
    }
  }

  /** `discover` returns exactly the stored entries that pass the freshness
      test, in stored order; none of them is expired. It writes the table
      back only when it dropped something, and then only under `name`. An
      unknown or empty service gives an empty list and an unchanged table. */
  lemma DiscoverResult(t: Table, name: string, now: int)
    ensures var d := Discovered(t, name, now);
      && d.found == LiveOnly(ListOf(t, name), now)
      && (forall e :: e in d.found <==> e in ListOf(t, name) && Alive(e, now))
      && (forall e :: e in d.found ==> !Expired(e, now))
      && (d.table == t <==> d.found == ListOf(t, name))
      && (d.table != t ==> d.table == t[name := d.found])
      && OthersUnchanged(t, d.table, name)
  {
    var s := ListOf(t, name);
    LiveOnlyMembers(s, now);
    if |LiveOnly(s, now)| == |s| {
      LiveOnlyAll(s, now);
    } else if name in t {
      assert t[name := LiveOnly(s, now)][name] != t[name];
    }
  }

  lemma DiscoverKeepsWellFormed(t: Table, name: string, now: int)
    requires WellFormed(t)
    ensures WellFormed(Discovered(t, name, now).table)
  {
    if name in t {
      LiveOnlyKeepsListOk(name, t[name], now);
    }
  }

  lemma {:induction false} LiveOnlyOfAlive(s: seq<Entry>, now: int)
    requires forall e :: e in s ==> Alive(e, now)
    ensures LiveOnly(s, now) == s
  {
    if s != [] {
      LiveOnlyOfAlive(s[..|s| - 1], now);
      assert s[|s| - 1] in s;
      assert s == s[..|s| - 1] + [s[|s| - 1]];
    }
  }

  /** A second `discover` at the same time returns the same list and changes nothing. */
  lemma DiscoverIdempotent(t: Table, name: string, now: int)
    ensures var d := Discovered(t, name, now);
      Discovered(d.table, name, now) == Discovery(d.table, d.found)
  {
    var d := Discovered(t, name, now);
    DiscoverResult(t, name, now);
    DiscoverResult(d.table, name, now);
    if name in t && t[name] != [] {
      LiveOnlyOfAlive(d.found, now);
    }
  }

  /** The boundary between the two freshness tests: `discover` drops an
      entry aged exactly `LeaseMillis`, which `isExpired` does not call
      expired. Every entry `discover` keeps is unexpired, and the converse
      fails exactly at that age. */
  lemma DiscoverBoundary(t: Table, name: string, e: Entry, now: int)
    requires e in ListOf(t, name)
    ensures e in Discovered(t, name, now).found ==> !Expired(e, now)
    ensures e !in Discovered(t, name, now).found && !Expired(e, now) <==> now - e.lastHeartbeat == LeaseMillis
  {
    DiscoverResult(t, name, now);
  }

  /** `deregister` removes every entry with `id` from `name` only, keeping the
      order of the others; for an unknown service it does nothing. */
  lemma DeregisterResult(t: Table, name: string, id: string)
    requires WellFormed(t)
    ensures var t' := Deregistered(t, name, id);
      && WellFormed(t')
      && OthersUnchanged(t, t', name)
      && (name !in t ==> t' == t)
      && (name in t ==> t'[name] == WithoutId(t[name], id))
      && !HasId(ListOf(t', name), id)
      && forall e :: e in ListOf(t', name) <==> e in ListOf(t, name) && e.instanceId != id
  {
    if name in t {
      WithoutIdMembers(t[name], id);
      WithoutIdKeepsListOk(name, t[name], id);
    }
  }

  /** A deregistered instance is never returned by a later `discover`. */
  lemma DeregisterThenDiscover(t: Table, name: string, id: string, now: int)
    requires WellFormed(t)
    ensures !HasId(Discovered(Deregistered(t, name, id), name, now).found, id)
  {
    var t' := Deregistered(t, name, id);
    DeregisterResult(t, name, id);
    DiscoverResult(t', name, now);
  }

  /** `heartbeat` refreshes the listed entry with `id` and nothing else; for an
      unknown service or id it does nothing, so it never adds an entry. */
  lemma HeartbeatResult(t: Table, name: string, id: string, now: int)
    requires WellFormed(t)
    ensures var t' := Heartbeated(t, name, id, now);
      && WellFormed(t')
      && OthersUnchanged(t, t', name)
      && (!HasId(ListOf(t, name), id) ==> t' == t)
      && (forall k :: 0 <= k < |ListOf(t, name)| && ListOf(t, name)[k].instanceId == id ==>
            t' == t[name := t[name][k := t[name][k].(lastHeartbeat := now)]])
  {
    if name in t {
      TouchedKeepsListOk(name, t[name], id, now);
      forall k | 0 <= k < |t[name]| && t[name][k].instanceId == id
        ensures Heartbeated(t, name, id, now) == t[name := t[name][k := t[name][k].(lastHeartbeat := now)]]
      {
        FindIdUnique(t[name], id, k);
      }
      if FindId(t[name], id) >= 0 {
        assert HasId(t[name], id);
      }
    }
  }

  /** No entry of a list that lacks `id` carries `id`; stated per element. */
  lemma NoIdIn(s: seq<Entry>, id: string, s': seq<Entry>)
    requires !HasId(s, id)
    requires forall e :: e in s' ==> e in s
    ensures !HasId(s', id)
  {
    forall j | 0 <= j < |s'| ensures s'[j].instanceId != id {
      assert s'[j] in s';
    }
  }

  /** An instance that `discover` dropped for missing its lease is not
      brought back by a later heartbeat: the heartbeat changes nothing and
      the next `discover` still does not return it. */
  lemma HeartbeatAfterExpiry(t: Table, name: string, id: string, now: int, later: int, k: nat)
    requires WellFormed(t) && name in t
    requires k < |t[name]| && t[name][k].instanceId == id && !Alive(t[name][k], now)
    ensures Heartbeated(Discovered(t, name, now).table, name, id, later) == Discovered(t, name, now).table
    ensures !HasId(Discovered(Discovered(t, name, now).table, name, later).found, id)
  {
    var t1 := Discovered(t, name, now).table;
    DiscoverResult(t, name, now);
    DiscoverKeepsWellFormed(t, name, now);
    var s1 := ListOf(t1, name);
    forall j | 0 <= j < |s1| ensures s1[j].instanceId != id {
      assert s1[j] in s1;
      var i :| 0 <= i < |t[name]| && t[name][i] == s1[j];
      if i != k {
        assert t[name][i].instanceId != t[name][k].instanceId;
      }
    }
    assert !HasId(s1, id);
    HeartbeatResult(t1, name, id, later);
    DiscoverResult(t1, name, later);
    NoIdIn(s1, id, Discovered(t1, name, later).found);
  }
}
