/** What a node knows, as values: the effect of every step of the failure detector on it. */
module DetectorView {
  import opened AdaptiveTimeout
  import opened Bytes
  import opened HashBuckets
  import opened GroupMessage
  import opened PaxosReplica

  const W1_WINDOW_SIZE: nat := 10
  const W2_WINDOW_SIZE: nat := 10000

  /** The estimated time as whole milliseconds; what the original's cast of a negative one gives is not defined. */
  function Interval(timeout: real): (r: nat)
    ensures timeout >= 0.0 ==> r as real <= timeout < r as real + 1.0
    ensures timeout < 0.0 ==> r == 0
  {
    if timeout < 0.0 then 0 else timeout.Floor
  }

  /** A running timer: its descriptor, and for how long it waits. */
  datatype Clock = Clock(fd: int, interval: nat)

  /** The timer started after these heartbeats waits for as long as the model estimates from all of them. */
  ghost function ClockAfter(heard: seq<real>, fd: int): Clock
    requires heard != []
  {
    Clock(fd, Interval(Timeout(heard, heard[0], W1_WINDOW_SIZE, W2_WINDOW_SIZE)))
  }

  /** No timer has this descriptor, except for the one of this address. */
  ghost predicate IsFree(fd: int, ip: Key, running: map<Key, Clock>, strays: set<int>) {
    fd != -1 && fd !in strays && forall jp | jp in running && jp != ip :: running[jp].fd != fd
  }

  datatype View = View(
    /** The node's own address. */
    local: Key,
    /** The heartbeats of each remote member since it joined. */
    heard: map<Key, seq<real>>,
    /** The timer of each remote member. */
    running: map<Key, Clock>,
    /** Descriptors of the timers that members dropped so far have left in the list. */
    strays: set<int>,
    /** Every address for which a timer was ever started. */
    timed: set<Key>,
    /** The member set at the start, and then at each submission. */
    groups: seq<set<Key>>,
    /** Submissions not yet seen in the log: when each was made, by UUID. */
    pending: map<Key, real>,
    /** The group learned from the log, the instance it is from, and when it came. */
    learned: seq<bytes>,
    instance: nat,
    logged: real)
  {
    ghost function Members(): set<Key> {
      heard.Keys + {local}
    }

    /** The heartbeats of this address since it became a member; none if it is not one. */
    ghost function Heard(ip: Key): seq<real> {
      if ip in heard then heard[ip] else []
    }

    /** What every step keeps. */
    ghost predicate Ok() {
      RemotesOk() && ClocksOk() && History(groups, local, Members())
    }

    ghost predicate RemotesOk() {
      && local !in timed && heard.Keys <= timed && running.Keys == heard.Keys
      && forall ip | ip in heard :: heard[ip] != [] && running[ip] == ClockAfter(heard[ip], running[ip].fd)
    }

    ghost predicate ClocksOk() {
      forall ip | ip in running :: IsFree(running[ip].fd, ip, running, strays)
    }
  }

  /** The local node alone at first, always in the group, and one address joins or leaves at a time. */
  ghost predicate History(groups: seq<set<Key>>, local: Key, members: set<Key>) {
    && groups != [] && groups[0] == {local} && groups[|groups| - 1] == members
    && (forall i | 0 <= i < |groups| :: local in groups[i])
    && forall i | 0 < i < |groups| :: OneApart(groups[i - 1], groups[i])
  }

  lemma HistoryGrows(groups: seq<set<Key>>, local: Key, members: set<Key>, members': set<Key>)
    requires History(groups, local, members) && OneApart(members, members') && local in members'
    ensures History(groups + [members'], local, members')
  {
    hide OneApart;
  }

  /** One address joined or left. */
  ghost predicate OneApart(a: set<Key>, b: set<Key>) {
    exists ip :: (ip !in a && b == a + {ip}) || (ip in a && b == a - {ip})
  }

  ghost function Initial(local: Key): View {
    View(local, map[], map[], {}, {}, [{local}], map[], [], 0, 0.0)
  }

  /** A heartbeat is counted, and a timer waits for the next one. */
  ghost function Counted(v: View, ip: Key, fd: int, now: real): View {
    var all := v.Heard(ip) + [now];
    v.(heard := v.heard[ip := all], running := v.running[ip := ClockAfter(all, fd)], timed := v.timed + {ip})
  }

  /** A member is forgotten, but not its timer. */
  ghost function Dropped(v: View, ip: Key): View
    requires ip in v.running
  {
    v.(heard := v.heard - {ip}, running := v.running - {ip}, strays := v.strays + {v.running[ip].fd})
  }

  /** The member set is submitted. */
  ghost function Submitted(v: View, uuid: Key, now: real): View {
    v.(groups := v.groups + [v.Members()], pending := v.pending[uuid := now])
  }

  /** A heartbeat arrives. */
  ghost function AfterHeartbeat(v: View, ip: Key, fd: int, uuid: Key, now: real): View {
    if ip == v.local then v
    else if ip in v.heard then Counted(v, ip, fd, now)
    else Submitted(Counted(v, ip, fd, now), uuid, now)
  }

  /** A timer calls back. */
  ghost function AfterTimeout(v: View, ip: Key, uuid: Key, now: real): View {
    if ip in v.heard && ip in v.running then Submitted(Dropped(v, ip), uuid, now) else v
  }

  /** The log goes on by one entry; the group is copied unless it is the same and not empty. */
  ghost function AfterDelivery(v: View, iid: nat, value: bytes, now: real, ip: bytes, big: bool): View {
    if Foreign(value, ip, big) then
      var group := Learn(v.learned, value, ip, big);
      if group == [] || group != v.learned then v.(learned := group, instance := iid, logged := now) else v
    else if Decodable(value, big) then v.(pending := v.pending - {UuidStr(UuidOf(value, big))})
    else v
  }

  lemma StartIsOk(local: Key)
    ensures Initial(local).Ok() && Initial(local).Members() == {local} && Initial(local).local == local
  {
  }

  lemma Apart(a: set<Key>, b: set<Key>, ip: Key)
    requires (ip !in a && b == a + {ip}) || (ip in a && b == a - {ip})
    ensures OneApart(a, b)
  {
  }

  lemma CountedIsOk(v: View, ip: Key, fd: int, now: real)
    requires v.RemotesOk() && ip != v.local
    ensures Counted(v, ip, fd, now).Members() == v.Members() + {ip} && Counted(v, ip, fd, now).RemotesOk()
    ensures v.ClocksOk() && IsFree(fd, ip, v.running, v.strays) ==> Counted(v, ip, fd, now).ClocksOk()
  {
    hide View.ClocksOk, IsFree, ClockAfter;
    ClockHasFd(v.Heard(ip) + [now], fd);
    if v.ClocksOk() && IsFree(fd, ip, v.running, v.strays) {
      ClocksStayOk(v, ip, v.Heard(ip) + [now], fd, Counted(v, ip, fd, now));
    }
  }

  lemma ClocksStayOk(v: View, ip: Key, all: seq<real>, fd: int, w: View)
    requires v.ClocksOk() && IsFree(fd, ip, v.running, v.strays) && all != []
    requires w.running == v.running[ip := ClockAfter(all, fd)] && w.strays == v.strays
    ensures w.ClocksOk()
  {
    ClockHasFd(all, fd);
    hide ClockAfter;
    forall jp | jp in w.running
      ensures IsFree(w.running[jp].fd, jp, w.running, w.strays)
    {
      assert jp != ip ==> IsFree(v.running[jp].fd, jp, v.running, v.strays);
    }
  }

  lemma ClockHasFd(heard: seq<real>, fd: int)
    requires heard != []
    ensures ClockAfter(heard, fd).fd == fd
  {
  }

  lemma DroppedIsOk(v: View, ip: Key)
    requires v.RemotesOk() && v.ClocksOk() && ip in v.heard
    ensures Dropped(v, ip).Members() == v.Members() - {ip}
    ensures Dropped(v, ip).RemotesOk() && Dropped(v, ip).ClocksOk()
  {
    hide ClockAfter;
  }

  lemma SubmittedIsOk(v: View, before: set<Key>, uuid: Key, now: real)
    requires v.RemotesOk() && v.ClocksOk() && History(v.groups, v.local, before) && OneApart(before, v.Members())
    ensures Submitted(v, uuid, now).Ok() && Submitted(v, uuid, now).Members() == v.Members()
  {
    hide OneApart, History, ClockAfter;
    HistoryGrows(v.groups, v.local, before, v.Members());
  }

  lemma HeartbeatIsOk(v: View, ip: Key, fd: int, uuid: Key, now: real)
    requires v.Ok() && (ip != v.local ==> IsFree(fd, ip, v.running, v.strays))
    ensures AfterHeartbeat(v, ip, fd, uuid, now).Ok()
    ensures AfterHeartbeat(v, ip, fd, uuid, now).Members() == v.Members() + {ip}
  {
    hide OneApart, History, IsFree, ClockAfter;
    if ip != v.local {
      CountedIsOk(v, ip, fd, now);
      if ip !in v.heard {
        Apart(v.Members(), v.Members() + {ip}, ip);
        SubmittedIsOk(Counted(v, ip, fd, now), v.Members(), uuid, now);
      } else {
        assert v.Members() + {ip} == v.Members();
      }
    }
  }

  lemma TimeoutIsOk(v: View, ip: Key, uuid: Key, now: real)
    requires v.Ok()
    ensures AfterTimeout(v, ip, uuid, now).Ok()
    ensures ip != v.local ==> AfterTimeout(v, ip, uuid, now).Members() == v.Members() - {ip}
  {
    hide OneApart, History, IsFree, ClockAfter;
    if ip in v.heard {
      DroppedIsOk(v, ip);
      Apart(v.Members(), v.Members() - {ip}, ip);
      SubmittedIsOk(Dropped(v, ip), v.Members(), uuid, now);
    }
  }

  lemma DeliveryIsOk(v: View, iid: nat, value: bytes, now: real, ip: bytes, big: bool)
    requires v.Ok()
    ensures AfterDelivery(v, iid, value, now, ip, big).Ok()
    ensures AfterDelivery(v, iid, value, now, ip, big).Members() == v.Members()
  {
    hide Decodable, UuidOf, Foreign, Learn, History, ClockAfter;
  }
}
