/** One running provider process as the registry records it
    (`com.alan.rpc.v4.registry.ServiceInstance`). */
module Instance {
  import opened Common
  import Decimal

  /** The lease length, in milliseconds, used both by `isExpired` and by the
      registry's freshness test. */
  const LeaseMillis: int := 30000

  /** The state of one instance at one moment, as a value. */
  datatype Entry = Entry(serviceName: string, host: string, port: int, instanceId: string, lastHeartbeat: int)

  /** `isExpired` on a snapshot: strictly more than the lease has passed. */
  predicate Expired(e: Entry, now: int)
    ensures e.lastHeartbeat >= now - LeaseMillis ==> !Expired(e, now)
  {
    now - e.lastHeartbeat > LeaseMillis
  }

  class ServiceInstance {
    const serviceName: string
    const host: string
    const port: int
    const instanceId: string
    /** Milliseconds of the last registration or heartbeat; the only field the code changes. */
    var lastHeartbeat: int

    /** The current state of this object as a value. */
    function View(): Entry
      reads this
    {
      Entry(serviceName, host, port, instanceId, lastHeartbeat)
    }

    /** The four-argument constructor; the clock reading `now` is a parameter. */
    constructor (serviceName: string, host: string, port: int, instanceId: string, now: int)
      ensures View() == Entry(serviceName, host, port, instanceId, now)
      ensures !IsExpired(now)
    {
      this.serviceName := serviceName;
      this.host := host;
      this.port := port;
      this.instanceId := instanceId;
      this.lastHeartbeat := now;
    }

    /** Records a heartbeat at time `now`; every other field stays as it was. */
    method UpdateHeartbeat(now: int)
      modifies this
      ensures View() == old(View()).(lastHeartbeat := now)
      ensures !IsExpired(now)
    {
      lastHeartbeat := now;
    }

    /** `host + ":" + port`: the host, a colon, then the port written as
        `Integer.toString` writes it (see `Decimal.CanonicalIntUnique`); the
        host and the port can be read back from it. */
    function Address(): (a: string)
      ensures |a| > |host| && a[..|host|] == host && a[|host|] == ':'
      ensures Decimal.CanonicalInt(a[|host| + 1..]) && Decimal.ParseInt(a[|host| + 1..]) == Some(port)
      ensures ParseAddress(a) == Some((host, port))
    {
      var digits := Decimal.IntToString(port);
      var a := host + ":" + digits;
      AddressSplits(host, digits);
      Decimal.IntToStringRoundTrip(port);
      a
    }

    predicate IsExpired(now: int)
      reads this
      ensures IsExpired(now) <==> now > lastHeartbeat + 30000
      ensures lastHeartbeat == now ==> !IsExpired(now)
    {
      Expired(View(), now)
    }
  }

  /** Index of the last ':' in `s`, or -1 when there is none. */
  function LastColon(s: string): (k: int)
    ensures -1 <= k < |s|
    ensures 0 <= k ==> s[k] == ':'
    ensures forall j :: k < j < |s| ==> s[j] != ':'
  {
    if s == [] then -1
    else if s[|s| - 1] == ':' then |s| - 1
    else LastColon(s[..|s| - 1])
  }

  /** Splits an address at its last ':' into a host and a decimal port. */
  function ParseAddress(a: string): Option<(string, int)>
  {
    var k := LastColon(a);
    if k < 0 then None
    else match Decimal.ParseInt(a[k + 1..])
      case None => None
      case Some(p) => Some((a[..k], p))
  }

  lemma AddressSplits(host: string, digits: string)
    requires forall i :: 0 <= i < |digits| ==> digits[i] != ':'
    ensures LastColon(host + ":" + digits) == |host|
    ensures (host + ":" + digits)[..|host|] == host
    ensures (host + ":" + digits)[|host| + 1..] == digits
  {
    var a := host + ":" + digits;
    assert a[|host|] == ':';
    assert a[..|host|] == host;
    assert a[|host| + 1..] == digits;
  }
}
