/** The guard object: the connection map, the counter and the limits, refining the steps of module Admission. */
module AdmissionGuard {
  import opened Admission

  class DDoSGuard {
    const maxTotal: int
    var maxPerIp: int
    var connections: Connections
    var total: int

    constructor (maxTotal: int, maxPerIp: int)
      ensures this.maxTotal == maxTotal && this.maxPerIp == maxPerIp && connections == map[] && total == 0
    {
      this.maxTotal := maxTotal;
      this.maxPerIp := maxPerIp;
      connections, total := map[], 0;
    }

    /** The part of allow_connection before the lock. */
    method CheckTotal() returns (ok: bool)
      ensures ok == (total < maxTotal)
    {
      ok := !(total >= maxTotal);
    }

    /** The part of allow_connection under the lock. */
    method Admit(ip: Ip, now: int) returns (ok: bool)
      modifies this
      ensures ok == !Refused(old(connections), maxPerIp, ip)
      ensures connections == AfterAdmit(old(connections), maxPerIp, ip, now)
      ensures total == old(total) + (if ok then 1 else 0) && maxPerIp == old(maxPerIp)
    {
      if ip !in connections {
        connections := connections[ip := Entry(0, 0)];
      }
      var entry := connections[ip].(lastSeen := now);
      connections := connections[ip := entry];
      if entry.active >= maxPerIp {
        return false;
      }
      connections := connections[ip := entry.(active := entry.active + 1)];
      total := total + 1;
      return true;
    }

    /** allow_connection when nothing else runs in between: refused over either limit, else both counters grow. */
    method AllowConnection(ip: Ip, now: int) returns (ok: bool)
      modifies this
      ensures ok <==> old(total) < maxTotal && EntryFor(old(connections), ip).active < maxPerIp
      ensures total == old(total) + (if ok then 1 else 0) && maxPerIp == old(maxPerIp)
      ensures EntryFor(connections, ip).active == EntryFor(old(connections), ip).active + (if ok then 1 else 0)
      ensures forall other | other != ip :: EntryFor(connections, other) == EntryFor(old(connections), other)
    {
      ok := CheckTotal();
      if ok {
        ok := Admit(ip, now);
      }
    }

    method ReleaseConnection(ip: Ip)
      modifies this
      ensures connections == AfterRelease(old(connections), ip) && maxPerIp == old(maxPerIp)
      ensures total == old(total) - (if ip in old(connections) then 1 else 0)
    {
      if ip in connections {
        var entry := connections[ip];
        entry := entry.(active := entry.active - 1);
        connections := connections[ip := entry];
        total := total - 1;
        if entry.active <= 0 {
          connections := connections - {ip};
        }
      }
    }

    method SetMaxPerIp(limit: int)
      modifies this
      ensures maxPerIp == limit && connections == old(connections) && total == old(total)
    {
      maxPerIp := limit;
    }

    /** Erases while walking the map; every entry is visited once, in any order. */
    method Cleanup(now: int)
      modifies this
      ensures connections == AfterCleanup(old(connections), now)
      ensures total == old(total) && maxPerIp == old(maxPerIp)
    {
      var todo := connections.Keys;
      while todo != {}
        invariant todo <= connections.Keys <= old(connections).Keys
        invariant total == old(total) && maxPerIp == old(maxPerIp)
        invariant forall ip | ip in connections :: connections[ip] == old(connections)[ip]
        invariant forall ip | ip in old(connections) && ip !in todo ::
                    ip in connections <==> !Stale(old(connections)[ip], now)
        decreases |todo|
      {
        var ip :| ip in todo;
        if Stale(connections[ip], now) {
          connections := connections - {ip};
        }
        todo := todo - {ip};
      }
    }
  }
}
