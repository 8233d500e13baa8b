/** The communicator instances that remote call objects create, hold and destroy. */
module Communicators {
  import opened Common
  import opened Numbers

  /** An instance, 0 for the null pointer.  A new instance is never an old one. */
  type Instance = nat

  /** Responders and subscribers have a thread, which may be running. */
  datatype Kind = Requester | Publisher | Responder(running: bool) | Subscriber(running: bool)

  /** `Communicator`: the instances that exist. */
  class Communicator {
    var live: map<Instance, Kind>
    /** Instances from here on have never existed. */
    var next: Instance

    constructor ()
      ensures Valid() && live == map[]
    {
      live, next := map[], 1;
    }

    ghost predicate Valid()
      reads this
    {
      0 < next && forall i :: i in live ==> 0 < i < next
    }

    /** `CreateInstance`: null if the socket cannot be set up. */
    method Create(kind: Kind, works: bool) returns (inst: Instance)
      requires Valid()
      modifies this
      ensures Valid()
      ensures if works then inst == old(next) != 0 && inst !in old(live) && live == old(live)[inst := kind]
              else inst == 0 && live == old(live)
    {
      inst := 0;
      if works {
        inst := next;
        live, next := live[inst := kind], next + 1;
      }
    }

    /** `StartResponse` and `StartReceive`: refused if the thread exists already. */
    method StartThread(inst: Instance) returns (ok: bool)
      requires Valid() && inst in live && (live[inst].Responder? || live[inst].Subscriber?)
      modifies this`live
      ensures Valid() && ok == !old(live[inst].running)
      ensures live == old(live)[inst := old(live[inst]).(running := true)]
    {
      ok := !live[inst].running;
      live := live[inst := live[inst].(running := true)];
    }

    /** The stop, wait and reset calls, each of which needs the thread to exist. */
    method EndThread(inst: Instance) returns (ok: bool)
      requires Valid() && inst in live && (live[inst].Responder? || live[inst].Subscriber?)
      modifies this`live
      ensures Valid() && ok == old(live[inst].running)
      ensures live == old(live)[inst := old(live[inst]).(running := false)]
    {
      ok := live[inst].running;
      live := live[inst := live[inst].(running := false)];
    }

    method DestroyInstance(inst: Instance) returns (ok: bool)
      requires Valid()
      modifies this`live
      ensures Valid() && ok == (inst in old(live)) && live == old(live) - {inst}
    {
      ok := inst in live;
      live := live - {inst};
    }
  }

  /** A handle is null or an instance of its kind. */
  ghost predicate Holds(live: map<Instance, Kind>, inst: Instance, kind: Kind) {
    inst != 0 ==> inst in live && live[inst] == kind
  }

  /** Instances not held by a node are left alone by it, and only instances it then holds are created. */
  ghost predicate OthersKept(before: map<Instance, Kind>, held: set<Instance>, after: map<Instance, Kind>,
                             holds: set<Instance>)
  {
    && (forall i :: i in before && i !in held ==> i in after && after[i] == before[i])
    && (forall i :: i in after ==> i in holds || (i in before && i !in held))
    && (forall i :: i in holds ==> i in held || i !in before)
  }

  function Address(ip: Bytes, port: int): (a: Bytes)
    ensures a != []
  {
    ip + [0x3A] + Decimal(port)
  }

  /** An address is the host, a colon and the port. */
  lemma AddressReadsBack(ip: Bytes, port: int)
    ensures var a := Address(ip, port);
            |ip| < |a| && a[..|ip|] == ip && a[|ip|] == ':' as int && ReadNumber(a[|ip| + 1..]) == Some(port)
  {
    DecimalReadsBack(port);
    assert Address(ip, port)[|ip| + 1..] == Decimal(port);
  }

  /** The last colon is the one in front of the port. */
  lemma LastColon(ip: Bytes, port: int)
    ensures var a := Address(ip, port);
            |ip| < |a| && a[|ip|] == 0x3A && forall i :: |ip| < i < |a| ==> a[i] != 0x3A
  {
    DecimalReadsBack(port);
    hide Decimal;
    var a := Address(ip, port);
    assert forall i :: |ip| < i < |a| ==> a[i] == Decimal(port)[i - |ip| - 1];
  }

  /** Different hosts or ports have different addresses. */
  lemma AddressesDiffer(ip: Bytes, port: int, ip': Bytes, port': int)
    requires Address(ip, port) == Address(ip', port')
    ensures ip == ip' && port == port'
  {
    hide Address;
    LastColon(ip, port);
    LastColon(ip', port');
    AddressReadsBack(ip, port);
    AddressReadsBack(ip', port');
  }
}
