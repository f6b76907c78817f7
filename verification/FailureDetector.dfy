/** One node's view of who is alive: heartbeats and timeouts change the member table, and each change is submitted. */
module FailureDetector {
  import opened AdaptiveTimeout
  import opened Sequences
  import opened Bytes
  import opened HashBuckets
  import opened StableSort
  import opened HashTable
  import opened TimerList
  import opened CStrings
  import opened GroupMessage
  import opened Membership
  import opened PaxosReplica
  import opened DetectorView

  const MAX_MEMBERS: nat := 0x800_0000

  // ------------------------------------------------------------------ how the objects carry the view

  /** The objects made for members so far. */
  datatype Owned = Owned(infos: set<NodeInfo>, models: set<TimeoutModel>, rings: set<array<real>>)

  ghost function Rings(info: NodeInfo): set<array<real>> {
    {info.model.normalizedW1, info.model.normalizedW2, info.model.deltas}
  }

  ghost predicate Known(info: NodeInfo, own: Owned) {
    info in own.infos && info.model in own.models && Rings(info) <= own.rings
  }

  ghost function AlsoOwned(own: Owned, info: NodeInfo): Owned {
    Owned(own.infos + {info}, own.models + {info.model}, own.rings + Rings(info))
  }

  /** The entries have no objects in common. */
  ghost predicate Separate(a: NodeInfo, b: NodeInfo) {
    a != b && a.model != b.model && Rings(a) !! Rings(b)
  }

  ghost function KeysOf<V>(members: set<Handle<V>>): set<Key> {
    set h | h in members :: h.key
  }

  /** These entries have these addresses, one each, and share nothing. */
  ghost predicate EntriesOk(members: set<Handle<NodeInfo>>, keys: set<Key>, own: Owned) {
    && KeysOf(members) == keys
    && (forall h | h in members :: IsAddress(h.key) && Known(h.value, own))
    && forall h, k | h in members && k in members && h != k :: h.key != k.key && Separate(h.value, k.value)
  }

  /** The entry's timer is in the list, as it should be, and calls back with the member's address. */
  ghost predicate TimerOf(h: Handle<NodeInfo>, clock: Clock, list: seq<TimerNode>)
    reads h.value`timer
  {
    var t := h.value.timer;
    t != null && t in list && t.ip == h.key && t.fd == clock.fd && t.interval == clock.interval
  }

  /** The timer calls back once, after its interval in milliseconds. */
  ghost predicate FiresOnce(t: TimerNode) {
    && !t.periodic && t.intervalSec == 0 && t.intervalNsec == 0
    && t.valueSec * 1_000_000_000 + t.valueNsec == t.interval * 1_000_000 && t.valueNsec < 1_000_000_000
  }

  /** The running timers are those of the remote members, and the strays. */
  ghost predicate TimersOk(members: set<Handle<NodeInfo>>, running: map<Key, Clock>, strays: set<int>,
                           infos: set<NodeInfo>, timers: Timers)
    reads timers, timers.list, infos`timer
  {
    && timers.Valid() && |timers.list| == |running| + |strays| && (forall t | t in timers.list :: FiresOnce(t))
    && (forall h | h in members && h.key in running && h.value in infos :: TimerOf(h, running[h.key], timers.list))
    && forall t | t in timers.list :: t.fd in strays || (t.ip in running && running[t.ip].fd == t.fd)
  }

  /** The entry's model has taken in these heartbeats. */
  ghost predicate HasHeard(info: NodeInfo, heard: seq<real>)
    reads info`lastHeartbeat, info.model, info.model.normalizedW1, info.model.normalizedW2, info.model.deltas
  {
    var m := info.model;
    && m.Valid() && m.w1Size == W1_WINDOW_SIZE && m.w2Size == W2_WINDOW_SIZE && m.arrivals == heard
    && heard != [] && heard[0] == m.firstHeartbeat && heard[|heard| - 1] == info.lastHeartbeat
    && m.nextTimeout == Timeout(heard, heard[0], W1_WINDOW_SIZE, W2_WINDOW_SIZE)
  }

  ghost predicate ModelsOk(members: set<Handle<NodeInfo>>, heard: map<Key, seq<real>>, own: Owned)
    reads own.infos`lastHeartbeat, own.models, own.rings
  {
    forall h | h in members && h.key in heard && Known(h.value, own) :: HasHeard(h.value, heard[h.key])
  }

  /** A message from this sender that names exactly these members, in ascending order. */
  ghost predicate Names(msg: bytes, members: set<Key>, ip: bytes, big: bool) {
    && Decodable(msg, big) && SenderOf(msg, big) == ip
    && Ascending(GroupOf(msg, big)) && Elems(GroupOf(msg, big)) == members
  }

  /** Each group behind the first one was submitted. */
  ghost predicate Recorded(groups: seq<set<Key>>, submitted: seq<bytes>, ip: bytes, big: bool) {
    |groups| == |submitted| + 1 && forall i | 0 <= i < |submitted| :: Names(submitted[i], groups[i + 1], ip, big)
  }

  /** Table entries, timers and models are as the view says. */
  ghost predicate MembersOk(members: set<Handle<NodeInfo>>, v: View, own: Owned, timers: Timers)
    reads timers, timers.list, own.infos, own.models, own.rings
  {
    && EntriesOk(members, v.Members(), own)
    && TimersOk(members, v.running, v.strays, own.infos, timers)
    && ModelsOk(members, v.heard, own)
  }

  /** So is the replica. */
  ghost predicate ReplicaOk(r: Replica, v: View)
    reads r, r.state, r.detected, r.detected.buckets, r.detected.order
  {
    && r.Valid() && CStr(r.ip) == v.local && r.Pending() == v.pending && r.state.items == v.learned
    && r.instanceId == v.instance && r.lastLogged == v.logged
    && Recorded(v.groups, r.submitted, r.ip, r.big)
  }

  lemma SameMembersOk(members: set<Handle<NodeInfo>>, v: View, w: View, own: Owned, timers: Timers)
    requires MembersOk(members, v, own, timers)
    requires w.local == v.local && w.heard == v.heard && w.running == v.running && w.strays == v.strays
    ensures MembersOk(members, w, own, timers)
  {
    hide EntriesOk, TimersOk, ModelsOk;
  }

  lemma SameReplicaOk(r: Replica, v: View, w: View)
    requires ReplicaOk(r, v)
    requires w.local == v.local && w.pending == v.pending && w.learned == v.learned && w.groups == v.groups
    requires w.instance == v.instance && w.logged == v.logged
    ensures ReplicaOk(r, w)
  {
    hide Replica.Valid, Recorded;
  }

  /** The messages say the same on a machine of the other byte order. */
  lemma RecordedAcross(groups: seq<set<Key>>, submitted: seq<bytes>, ip: bytes, big: bool)
    requires Recorded(groups, submitted, ip, big)
    ensures Recorded(groups, submitted, ip, !big)
  {
    hide Decodable, UuidOf, SenderOf, GroupOf;
    forall i | 0 <= i < |submitted|
      ensures Names(submitted[i], groups[i + 1], ip, !big)
    {
      assert Names(submitted[i], groups[i + 1], ip, big);
      SameForAll(submitted[i], big);
    }
  }

  lemma RecordedMore(groups: seq<set<Key>>, submitted: seq<bytes>, ip: bytes, big: bool, members: set<Key>,
                     submitted': seq<bytes>)
    requires Recorded(groups, submitted, ip, big)
    requires |submitted'| == |submitted| + 1 && submitted'[..|submitted|] == submitted
    requires Names(submitted'[|submitted|], members, ip, big)
    ensures Recorded(groups + [members], submitted', ip, big)
  {
    hide Names;
    forall i | 0 <= i < |submitted'|
      ensures Names(submitted'[i], (groups + [members])[i + 1], ip, big)
    {
      if i < |submitted| {
        assert submitted'[i] == submitted'[..|submitted|][i];
      }
    }
  }

  /**
   When the last decodable entry of a log is a node's i-th submission, every other replica that has
   replayed the log holds the member set of that submission, in descending order.
   */
  lemma OthersHoldSubmission(groups: seq<set<Key>>, submitted: seq<bytes>, sender: bytes, big: bool,
                             i: nat, log: seq<bytes>, j: nat, group: seq<bytes>, ip: bytes)
    requires Recorded(groups, submitted, sender, big) && i < |submitted|
    requires LastDecodable(log, j, big) && log[j] == submitted[i] && CStr(ip) != CStr(sender)
    ensures var learned := Replay(group, log, ip, big);
            Ascending(Reversed(learned)) && Elems(learned) == groups[i + 1]
  {
    hide Decodable, Replay, Reversed;
    assert Names(submitted[i], groups[i + 1], sender, big);
    var named := GroupOf(log[j], big);
    ReplayIsLastForeign(group, log, j, ip, big);
    ReversedTwice(named);
    ReversedElems(named);
  }

  class Detector {
    const hostname: Key
    const nodes: Table<NodeInfo>
    const timers: Timers
    const replica: Replica
    /** What the node knows. */
    ghost var view: View
    ghost var own: Owned
    ghost var repr: set<object>

    ghost function Entries(): set<Handle<NodeInfo>>
      reads nodes`order
    {
      Elems(nodes.order)
    }

    /** All objects that steps change are in `repr`. */
    ghost predicate Owns()
      reads this, nodes, timers, replica, replica.detected
    {
      && this in repr && nodes in repr && nodes.buckets in repr && timers in repr
      && (forall i | 0 <= i < |nodes.order| :: nodes.order[i] in repr)
      && (forall i | 0 <= i < |timers.list| :: timers.list[i] in repr)
      && own.infos <= repr && own.models <= repr && own.rings <= repr
      && replica in repr && replica.received in repr && replica.state in repr && replica.detectedGroup in repr
      && replica.detected in repr && replica.detected.buckets in repr
      && (forall i | 0 <= i < |replica.detected.order| :: replica.detected.order[i] in repr)
    }

    /** Table, timers, models and replica are as the view says. */
    ghost predicate Ties()
      reads this`view, this`own, nodes, nodes.buckets, nodes.order, timers, timers.list
      reads own.infos, own.models, own.rings
      reads replica, replica.state, replica.detected, replica.detected.buckets, replica.detected.order
    {
      nodes.Valid() && MembersOk(Entries(), view, own, timers) && ReplicaOk(replica, view)
    }

    ghost predicate Valid()
      reads this, nodes, nodes.buckets, nodes.order, timers, timers.list, own.infos, own.models, own.rings
      reads replica, replica.state, replica.detected, replica.detected.buckets, replica.detected.order
    {
      Ties() && Owns() && view.Ok() && view.local == hostname
    }

    /** main up to its loop: init_nodes_struct puts the local node in the table. */
    constructor (hostname: Key, hostBuffer: bytes, big: bool, hash: Key -> nat, uuidHash: Key -> nat)
      requires IsAddress(hostname) && |hostBuffer| == MAX_SIZE_IP_ADDRESS_STRING && CStr(hostBuffer) == hostname
      ensures Valid() && view == Initial(hostname) && fresh(repr)
      ensures this.hostname == hostname && replica.ip == hostBuffer && replica.big == big
      ensures timers.list == []
    {
      hide Table.Valid, MembersOk, ReplicaOk, View.Ok, View.Members, Initial;
      var table, list, start;
      ghost var objects, info;
      table, list, start, info, objects := Setup(hostname, hostBuffer, big, hash, uuidHash);
      this.hostname, nodes, timers, replica := hostname, table, list, start;
      view, own, repr := Initial(hostname), Owned({info}, {info.model}, Rings(info)), objects;
      new;
      repr := repr + {this};
    }

    /** The member set goes into a message after a change. */
    method SubmitChange(uuid: bytes, now: real, stack: bytes)
      requires Ties() && Owns() && |view.Members()| < MAX_MEMBERS && UuidStr(uuid) !in view.pending
      requires |uuid| == ZUUID_LEN && |stack| == MAX_SIZE_IP_ADDRESS_STRING
      modifies this`view, this`repr, nodes`head, nodes`tail, nodes`order, nodes.order`next, nodes.order`prev
      modifies replica`submitted, replica.detectedGroup, replica.detected, replica.detected.buckets
      modifies replica.detected.order`next, replica.detected.order`hhNext, replica.detected.order`hhPrev
      ensures Ties() && Owns() && view == Submitted(old(view), UuidStr(uuid), now) && fresh(repr - old(repr))
    {
      hide Ties, View.Members, Submitted;
      Announce(uuid, now, stack);
      repr := repr + {replica.detected.buckets} + Elems(replica.detected.order);
    }

    method Announce(uuid: bytes, now: real, stack: bytes)
      requires Ties() && |view.Members()| < MAX_MEMBERS && UuidStr(uuid) !in view.pending
      requires |uuid| == ZUUID_LEN && |stack| == MAX_SIZE_IP_ADDRESS_STRING
      modifies this`view, nodes`head, nodes`tail, nodes`order, nodes.order`next, nodes.order`prev
      modifies replica`submitted, replica.detectedGroup, replica.detected, replica.detected.buckets
      modifies replica.detected.order`next, replica.detected.order`hhNext, replica.detected.order`hhPrev
      ensures Ties() && view == Submitted(old(view), UuidStr(uuid), now)
      ensures forall i | 0 <= i < |nodes.order| :: nodes.order[i] in old(nodes.order)
      ensures fresh(replica.detected.buckets) || replica.detected.buckets == old(replica.detected.buckets)
      ensures forall i | 0 <= i < |replica.detected.order| ::
                replica.detected.order[i] in old(replica.detected.order) || fresh(replica.detected.order[i])
    {
      hide Table.Valid, EntriesOk, TimersOk, ModelsOk, ReplicaOk;
      ghost var v, order := view, nodes.order;
      view := Submitted(view, UuidStr(uuid), now);
      SendGroup(v, uuid, now, stack);
      SameMembersOk(Elems(order), v, view, own, timers);
      SameElems(order, nodes.order);
    }

    /** paxos_serialize_and_submit, for the view that the replica has so far. */
    method SendGroup(ghost v: View, uuid: bytes, now: real, stack: bytes)
      requires nodes.Valid() && EntriesOk(Entries(), v.Members(), own) && ReplicaOk(replica, v)
      requires |v.Members()| < MAX_MEMBERS && |uuid| == ZUUID_LEN && |stack| == MAX_SIZE_IP_ADDRESS_STRING
      requires UuidStr(uuid) !in v.pending
      modifies nodes`head, nodes`tail, nodes`order, nodes.order`next, nodes.order`prev
      modifies replica`submitted, replica.detectedGroup, replica.detected, replica.detected.buckets
      modifies replica.detected.order`next, replica.detected.order`hhNext, replica.detected.order`hhPrev
      ensures nodes.Valid() && ReplicaOk(replica, Submitted(v, UuidStr(uuid), now)) && Entries() == old(Entries())
      ensures fresh(replica.detected.buckets) || replica.detected.buckets == old(replica.detected.buckets)
      ensures forall i | 0 <= i < |replica.detected.order| ::
                replica.detected.order[i] in old(replica.detected.order) || fresh(replica.detected.order[i])
    {
      hide Table.Valid, Names, Replica.Valid, Replica.Pending, Replica.Carries, Replica.Noted, GroupKeys, SortOf,
           UniqueKeys, EntriesOk, Recorded, Reversed, ContentsOf;
      ghost var order, sent, members := nodes.order, replica.submitted, v.Members();
      EntriesFacts(nodes, members, own);
      NotPending(replica, UuidStr(uuid));
      replica.Submit(nodes, uuid, now, stack);
      CarriedIsNamed(replica, replica.submitted[|sent|], order, uuid);
      RecordedMore(v.groups, sent, replica.ip, replica.big, members, replica.submitted);
    }

    /** HASH_FIND_STR in the table of members. */
    method Lookup(ip: Key) returns (node: Handle?<NodeInfo>)
      requires Ties()
      ensures Ties()
      ensures node == null <==> ip !in view.Members()
      ensures node != null ==> node in nodes.order && node.key == ip && node.value in own.infos
      ensures node != null ==> node.value.model in own.models && Rings(node.value) <= own.rings
    {
      hide Table.Valid, EntriesOk, TimersOk, ModelsOk, ReplicaOk, UniqueKeys, ContentsOf;
      UniqueIn(nodes);
      MembersKeys(Entries(), view, own, timers);
      node := nodes.Find(ip);
      FindMeans(nodes, ip, node);
      if node != null {
        EntryKnown(Entries(), view, own, timers, node);
      }
    }

    /**
     handle_timeout, for any address that ever had a timer: a callback may still come when the member's
     timer was restarted, or the member dropped, after it fired.
     */
    method HandleTimeout(ip: Key, uuid: bytes, now: real, stack: bytes)
      requires Valid() && ip in view.timed && |view.Members()| <= MAX_MEMBERS && UuidStr(uuid) !in view.pending
      requires |uuid| == ZUUID_LEN && |stack| == MAX_SIZE_IP_ADDRESS_STRING
      modifies this`view, this`repr, nodes, nodes.buckets, nodes.order
      modifies replica`submitted, replica.detectedGroup, replica.detected, replica.detected.buckets,
               replica.detected.order
      ensures Valid() && view == AfterTimeout(old(view), ip, UuidStr(uuid), now) && fresh(repr - old(repr))
      ensures ip !in old(view.heard) ==> unchanged(nodes) && unchanged(replica)
    {
      hide Ties, Owns, View.Ok, View.RemotesOk, View.ClocksOk, View.Members, AfterTimeout, Dropped, Submitted;
      TimeoutCases(view, ip, UuidStr(uuid), now);
      var node := Lookup(ip);
      if node != null {
        Evict(node, uuid, now, stack);
      }
    }

    /** The branch for a member. */
    method Evict(node: Handle<NodeInfo>, uuid: bytes, now: real, stack: bytes)
      requires Ties() && Owns() && node in nodes.order && node.key in view.running && node.key in view.heard
      requires view.RemotesOk() && view.ClocksOk() && |view.Members()| <= MAX_MEMBERS
      requires |uuid| == ZUUID_LEN && |stack| == MAX_SIZE_IP_ADDRESS_STRING && UuidStr(uuid) !in view.pending
      modifies this`view, this`repr, nodes, nodes.buckets, nodes.order
      modifies replica`submitted, replica.detectedGroup, replica.detected, replica.detected.buckets,
               replica.detected.order
      ensures Ties() && Owns() && view == Submitted(Dropped(old(view), node.key), UuidStr(uuid), now)
      ensures fresh(repr - old(repr))
    {
      hide Ties, Owns, View.RemotesOk, View.ClocksOk, Submitted;
      DropMember(node);
      SubmitChange(uuid, now, stack);
    }

    /** HASH_DEL in handle_timeout; the member's timer is left alone. */
    method DropMember(node: Handle<NodeInfo>)
      requires Ties() && Owns() && node in nodes.order && node.key in view.running && node.key in view.heard
      requires view.RemotesOk() && view.ClocksOk()
      modifies this`view, nodes, nodes.buckets, nodes.order
      ensures Ties() && Owns() && view == Dropped(old(view), node.key) && |view.Members()| < |old(view.Members())|
      ensures nodes.buckets == old(nodes.buckets)
      ensures forall i | 0 <= i < |nodes.order| :: nodes.order[i] in old(nodes.order)
    {
      hide Ties, View.RemotesOk, View.ClocksOk;
      Unlink(node);
    }

    method Unlink(node: Handle<NodeInfo>)
      requires Ties() && node in nodes.order && node.key in view.running && node.key in view.heard
      requires view.RemotesOk() && view.ClocksOk()
      modifies this`view, nodes, nodes.buckets, nodes.order
      ensures Ties() && view == Dropped(old(view), node.key) && |view.Members()| < |old(view.Members())|
      ensures nodes.buckets == old(nodes.buckets)
      ensures forall i | 0 <= i < |nodes.order| :: nodes.order[i] in old(nodes.order)
    {
      hide Table.Valid, Table.Current, EntriesOk, TimersOk, ModelsOk, ReplicaOk, View.RemotesOk, View.ClocksOk;
      hide UniqueKeys, ContentsOf, Dropped, View.Members;
      ghost var v, order, members := view, nodes.order, Entries();
      MemberLeft(members, v, own, timers, node);
      DroppedKeeps(v, node.key);
      SameReplicaOk(replica, v, Dropped(v, node.key));
      UniqueIn(nodes);
      view := Dropped(v, node.key);
      ghost var k := nodes.Delete(node);
      ElemsCut(order, k);
      assert forall h | h in nodes.order :: h in Entries();
    }

    /** A heartbeat from an address not in the table: a new member with a model and a running timer. */
    method AddMember(ip: Key, fd: int, now: real, unset: real)
      requires Ties() && Owns() && view.RemotesOk()
      requires IsAddress(ip) && ip !in view.Members() && IsFree(fd, ip, view.running, view.strays)
      modifies this, nodes, nodes.buckets, nodes.order, timers
      ensures Ties() && Owns() && view == Counted(old(view), ip, fd, now) && fresh(repr - old(repr))
      ensures forall i | 0 <= i < |nodes.order| :: nodes.order[i] in old(nodes.order) || fresh(nodes.order[i])
      ensures fresh(nodes.buckets) || nodes.buckets == old(nodes.buckets)
      ensures exists timer: TimerNode | fresh(timer) :: timer.ip == ip && timers.list == [timer] + old(timers.list)
    {
      hide Ties, View.Members, View.RemotesOk, IsFree, Counted;
      var h := Enter(ip, fd, now, unset);
      repr := repr + {nodes.buckets, h, h.value, h.value.model, h.value.timer} + Rings(h.value);
    }

    method Enter(ip: Key, fd: int, now: real, unset: real) returns (h: Handle<NodeInfo>)
      requires Ties() && view.RemotesOk()
      requires IsAddress(ip) && ip !in view.Members() && IsFree(fd, ip, view.running, view.strays)
      modifies this`view, this`own, nodes, nodes.buckets, nodes.order, timers
      ensures Ties() && view == Counted(old(view), ip, fd, now)
      ensures nodes.order == old(nodes.order) + [h] && own == AlsoOwned(old(own), h.value)
      ensures fresh(h) && fresh(h.value) && fresh(h.value.model) && fresh(Rings(h.value))
      ensures fresh(nodes.buckets) || nodes.buckets == old(nodes.buckets)
      ensures h.value.timer != null && fresh(h.value.timer) && h.value.timer.ip == ip
      ensures timers.list == [h.value.timer] + old(timers.list)
    {
      hide EntriesOk, TimersOk, ModelsOk, Table.Valid, ReplicaOk, HasHeard, View.Members, View.RemotesOk, IsFree,
           Counted;
      ghost var v := view;
      SameReplicaOk(replica, v, Counted(v, ip, fd, now)) by { CountedSame(v, ip, fd, now); }
      h := Admit(ip, v, own, fd, now, unset);
      view, own := Counted(v, ip, fd, now), AlsoOwned(own, h.value);
    }

    /** The new entry goes into the table, and its timer is started. */
    method Admit(ip: Key, ghost v: View, ghost own: Owned, fd: int, now: real, unset: real)
      returns (h: Handle<NodeInfo>)
      requires nodes.Valid() && MembersOk(Entries(), v, own, timers) && v.RemotesOk()
      requires IsAddress(ip) && ip !in v.Members() && IsFree(fd, ip, v.running, v.strays)
      modifies nodes, nodes.buckets, nodes.order, timers
      ensures nodes.Valid() && nodes.order == old(nodes.order) + [h]
      ensures MembersOk(Entries(), Counted(v, ip, fd, now), AlsoOwned(own, h.value), timers)
      ensures fresh(h) && fresh(h.value) && fresh(h.value.model) && fresh(Rings(h.value))
      ensures fresh(nodes.buckets) || nodes.buckets == old(nodes.buckets)
      ensures h.value.timer != null && fresh(h.value.timer) && h.value.timer.ip == ip
      ensures timers.list == [h.value.timer] + old(timers.list)
    {
      hide Table.Valid, TimersOk, ModelsOk, HasHeard, EntriesOk, View.RemotesOk, View.Members, Counted, IsFree;
      h := NewEntry(ip, now, unset);
      Settle(h, v, own, fd, now);
    }

    method Settle(h: Handle<NodeInfo>, ghost v: View, ghost own: Owned, fd: int, ghost now: real)
      requires nodes.Valid() && MembersOk(Entries(), v, own, timers) && v.RemotesOk()
      requires IsAddress(h.key) && h.key !in v.Members() && IsFree(fd, h.key, v.running, v.strays)
      requires HasHeard(h.value, [now]) && h !in nodes.order
      requires h.value !in own.infos && h.value.model !in own.models && Rings(h.value) !! own.rings
      modifies nodes, nodes.buckets, nodes.order, h, h.value`timer, timers
      ensures nodes.Valid() && nodes.order == old(nodes.order) + [h]
      ensures MembersOk(Entries(), Counted(v, h.key, fd, now), AlsoOwned(own, h.value), timers)
      ensures fresh(nodes.buckets) || nodes.buckets == old(nodes.buckets)
      ensures h.value.timer != null && fresh(h.value.timer) && h.value.timer.ip == h.key
      ensures timers.list == [h.value.timer] + old(timers.list)
    {
      hide Table.Valid, UniqueKeys, ContentsOf, TimersOk, ModelsOk, HasHeard, EntriesOk, View.RemotesOk, View.Members,
           Counted, IsFree;
      ghost var members, own' := Entries(), AlsoOwned(own, h.value);
      NotYetHeard(v, h.key);
      EntriesMore(members, v.Members(), own, h);
      ModelsMore(members, v.Members(), v.heard, own, h, [now]);
      OwnsInfo(own, h.value);
      Enroll(h, v.Members(), own);
      StartFor(members, v, own.infos, h, fd);
      NewMemberOk(members + {h}, v, own', timers, h, fd, now);
    }

    /** HASH_ADD_STR for a new member. */
    method Enroll(h: Handle<NodeInfo>, ghost keys: set<Key>, ghost own: Owned)
      requires nodes.Valid() && EntriesOk(Entries(), keys, own) && h !in Entries() && h.key !in keys
      modifies nodes, nodes.buckets, nodes.order, h
      ensures nodes.Valid() && nodes.order == old(nodes.order) + [h] && Entries() == old(Entries()) + {h}
      ensures forall k | k in old(Entries()) :: k.key != h.key && k.value in own.infos
      ensures fresh(nodes.buckets) || nodes.buckets == old(nodes.buckets)
    {
      hide Table.Valid, UniqueKeys, ContentsOf, EntriesOk;
      ghost var order := nodes.order;
      NotKey(nodes, h.key, keys, own);
      nodes.Add(h);
      ElemsSnoc(order, h);
    }

    /** The entry of a new member, whose model has taken in the first heartbeat. */
    method NewEntry(ip: Key, now: real, unset: real) returns (h: Handle<NodeInfo>)
      ensures fresh(h) && fresh(h.value) && h.key == ip && HasHeard(h.value, [now])
      ensures fresh(h.value.model) && fresh(Rings(h.value))
    {
      hide TimeoutModel.Valid, Timeout;
      var model := new TimeoutModel(W1_WINDOW_SIZE, W2_WINDOW_SIZE, now, unset);
      var info := new NodeInfo(model, now, null);
      model.EstimateNextDelay(now);
      h := new Handle<NodeInfo>(ip, info);
    }

    /** start_timer for a member just added. */
    method StartFor(ghost members: set<Handle<NodeInfo>>, ghost v: View, ghost infos: set<NodeInfo>,
                    h: Handle<NodeInfo>, fd: int)
      requires h.value !in infos && h.key !in v.running && IsFree(fd, h.key, v.running, v.strays)
      requires TimersOk(members, v.running, v.strays, infos, timers)
      requires forall k | k in members :: k.key != h.key && k.value in infos
      modifies timers, h.value`timer
      ensures TimersOk(members + {h}, v.running[h.key := Clock(fd, Interval(h.value.model.nextTimeout))], v.strays,
                       infos + {h.value}, timers)
      ensures h.value.timer != null && fresh(h.value.timer) && h.value.timer.ip == h.key
      ensures timers.list == [h.value.timer] + old(timers.list)
    {
      hide Timers.Valid;
      ghost var list := timers.list;
      var timer := timers.StartTimer(Interval(h.value.model.nextTimeout), false, h.key, fd);
      h.value.timer := timer;
      InsertedSize(v.running, h.key, Clock(fd, Interval(h.value.model.nextTimeout)));
      assert forall t | t in timers.list :: t == timer || t in list;
    }

    /** A heartbeat from a member: its model takes it in, its timer is stopped and a new one started. */
    method Refresh(node: Handle<NodeInfo>, fd: int, now: real)
      requires Ties() && Owns() && view.Ok() && node in nodes.order && node.key in view.heard
      requires IsFree(fd, node.key, view.running, view.strays)
      modifies this`view, this`repr, timers, timers.list, node.value`timer, node.value`lastHeartbeat, node.value.model
      modifies node.value.model.normalizedW1, node.value.model.normalizedW2, node.value.model.deltas
      ensures Ties() && Owns() && view == Counted(old(view), node.key, fd, now) && fresh(repr - old(repr))
      ensures exists k: nat | k < |old(timers.list)| ::
                old(timers.list)[k] == old(node.value.timer) &&
                timers.list == [node.value.timer] + Cut(old(timers.list), k)
    {
      hide Ties, View.Ok, IsFree, ClockAfter;
      Again(node, fd, now);
      repr := repr + Elems(timers.list);
    }

    method Again(node: Handle<NodeInfo>, fd: int, now: real)
      requires Ties() && view.Ok() && node in nodes.order && node.key in view.heard
      requires IsFree(fd, node.key, view.running, view.strays)
      modifies this`view, timers, timers.list, node.value`timer, node.value`lastHeartbeat, node.value.model
      modifies node.value.model.normalizedW1, node.value.model.normalizedW2, node.value.model.deltas
      ensures Ties() && view == Counted(old(view), node.key, fd, now)
      ensures forall i | 0 <= i < |timers.list| :: timers.list[i] in old(timers.list) || fresh(timers.list[i])
      ensures exists k: nat | k < |old(timers.list)| ::
                old(timers.list)[k] == old(node.value.timer) &&
                timers.list == [node.value.timer] + Cut(old(timers.list), k)
    {
      hide Table.Valid, EntriesOk, TimersOk, ModelsOk, ReplicaOk, View.Ok, IsFree, ClockAfter;
      ghost var v := view;
      SameReplicaOk(replica, v, Counted(v, node.key, fd, now));
      Renew(Entries(), v, own, node, fd, now);
      view := Counted(v, node.key, fd, now);
    }

    method Renew(ghost members: set<Handle<NodeInfo>>, ghost v: View, ghost own: Owned, node: Handle<NodeInfo>, fd: int,
                 now: real)
      requires MembersOk(members, v, own, timers) && v.Ok() && node in members && node.key in v.heard
      requires IsFree(fd, node.key, v.running, v.strays)
      modifies timers, timers.list, node.value`timer, node.value`lastHeartbeat, node.value.model
      modifies node.value.model.normalizedW1, node.value.model.normalizedW2, node.value.model.deltas
      ensures MembersOk(members, Counted(v, node.key, fd, now), own, timers)
      ensures forall i | 0 <= i < |timers.list| :: timers.list[i] in old(timers.list) || fresh(timers.list[i])
      ensures exists k: nat | k < |old(timers.list)| ::
                old(timers.list)[k] == old(node.value.timer) &&
                timers.list == [node.value.timer] + Cut(old(timers.list), k)
    {
      hide EntriesOk, TimersOk, ModelsOk, HasHeard, View.Ok, IsFree, ClockAfter;
      ghost var all := v.heard[node.key] + [now];
      AlreadyMember(v, node.key, fd, now);
      Reestimate(members, v.Members(), v.heard, own, node, now);
      RestartTimer(members, v.Members(), v.running, v.strays, own, node, fd);
      EstimatedIs(node.value, all, fd);
    }

    /** The member's model takes in one more heartbeat. */
    method Reestimate(ghost members: set<Handle<NodeInfo>>, ghost keys: set<Key>, ghost heard: map<Key, seq<real>>,
                      ghost own: Owned, node: Handle<NodeInfo>, now: real)
      requires EntriesOk(members, keys, own) && ModelsOk(members, heard, own) && node in members && node.key in heard
      modifies node.value`lastHeartbeat, node.value.model
      modifies node.value.model.normalizedW1, node.value.model.normalizedW2, node.value.model.deltas
      ensures ModelsOk(members, heard[node.key := heard[node.key] + [now]], own)
      ensures HasHeard(node.value, heard[node.key] + [now])
    {
      hide TimeoutModel.Valid, Timeout, Separate;
      TakeIn(node, now, heard[node.key]);
      forall h | h in members && h.key in heard && h != node
        ensures HasHeard(h.value, heard[h.key])
      {
        assert old(HasHeard(h.value, heard[h.key])) && Separate(h.value, node.value);
        SeparateMeans(h.value, node.value);
      }
    }

    /** The estimator's step. */
    method TakeIn(node: Handle<NodeInfo>, now: real, ghost heard: seq<real>)
      requires HasHeard(node.value, heard)
      modifies node.value`lastHeartbeat, node.value.model
      modifies node.value.model.normalizedW1, node.value.model.normalizedW2, node.value.model.deltas
      ensures HasHeard(node.value, heard + [now])
    {
      hide TimeoutModel.Valid, Timeout;
      node.value.model.EstimateNextDelay(now);
      node.value.lastHeartbeat := now;
    }

    /** stop_timer on the member's timer, and start_timer with the estimated interval. */
    method RestartTimer(ghost members: set<Handle<NodeInfo>>, ghost keys: set<Key>, ghost running: map<Key, Clock>,
                        ghost strays: set<int>, ghost own: Owned, node: Handle<NodeInfo>, fd: int)
      requires EntriesOk(members, keys, own) && TimersOk(members, running, strays, own.infos, timers)
      requires node in members && node.key in running && IsFree(fd, node.key, running, strays)
      modifies timers, timers.list, node.value`timer
      ensures TimersOk(members, running[node.key := Clock(fd, Interval(node.value.model.nextTimeout))], strays,
                       own.infos, timers)
      ensures forall i | 0 <= i < |timers.list| :: timers.list[i] in old(timers.list) || fresh(timers.list[i])
      ensures exists k: nat | k < |old(timers.list)| ::
                old(timers.list)[k] == old(node.value.timer) &&
                timers.list == [node.value.timer] + Cut(old(timers.list), k)
    {
      hide EntriesOk, IsFree;
      ghost var list := timers.list;
      EntriesDiffer(members, keys, own, node);
      ghost var k := timers.StopTimer(node.value.timer);
      InCut(list, k);
      OthersDiffer(list, k, running, strays, node.key, fd);
      var timer := timers.StartTimer(Interval(node.value.model.nextTimeout), false, node.key, fd);
      node.value.timer := timer;
      InsertedSize(running, node.key, Clock(fd, Interval(node.value.model.nextTimeout)));
    }

    /**
     One turn of main's loop. Timer creation succeeds: fd is a descriptor that no other timer has. `unset`
     is what a new model's memory holds.
     */
    method Heartbeat(ip: Key, fd: int, uuid: bytes, now: real, unset: real, stack: bytes)
      requires Valid() && IsAddress(ip) && (ip != hostname ==> IsFree(fd, ip, view.running, view.strays))
      requires |view.Members()| + 1 < MAX_MEMBERS && UuidStr(uuid) !in view.pending
      requires |uuid| == ZUUID_LEN && |stack| == MAX_SIZE_IP_ADDRESS_STRING
      modifies this, nodes, nodes.buckets, nodes.order, timers, timers.list, own.infos, own.models, own.rings
      modifies replica`submitted, replica.detectedGroup, replica.detected, replica.detected.buckets,
               replica.detected.order
      ensures Valid() && view == AfterHeartbeat(old(view), ip, fd, UuidStr(uuid), now) && fresh(repr - old(repr))
    {
      hide Ties, Owns, View.Ok, View.RemotesOk, View.Members, IsFree, AfterHeartbeat, Counted, Submitted;
      HeartbeatCases(view, ip, fd, UuidStr(uuid), now);
      if ip == hostname {
        return;
      }
      var node := Lookup(ip);
      if node == null {
        Join(ip, fd, uuid, now, unset, stack);
      } else {
        Refresh(node, fd, now);
      }
    }

    /** The branch for a new address: member, timer, submission. */
    method Join(ip: Key, fd: int, uuid: bytes, now: real, unset: real, stack: bytes)
      requires Ties() && Owns() && view.RemotesOk() && IsFree(fd, ip, view.running, view.strays)
      requires IsAddress(ip) && ip !in view.Members() && |view.Members()| + 1 < MAX_MEMBERS
      requires |uuid| == ZUUID_LEN && |stack| == MAX_SIZE_IP_ADDRESS_STRING && UuidStr(uuid) !in view.pending
      modifies this, nodes, nodes.buckets, nodes.order, timers
      modifies replica`submitted, replica.detectedGroup, replica.detected, replica.detected.buckets,
               replica.detected.order
      ensures Ties() && Owns() && view == Submitted(Counted(old(view), ip, fd, now), UuidStr(uuid), now)
      ensures fresh(repr - old(repr))
    {
      hide Ties, Owns, View.RemotesOk, IsFree, ClockAfter;
      CountedIsOk(view, ip, fd, now);
      AddMember(ip, fd, now, unset);
      SubmitChange(uuid, now, stack);
    }

    /** on_deliver, called for each entry of the log. */
    method Deliver(iid: nat, value: bytes, now: real, stack: bytes)
      requires Valid() && Sound(value, replica.big) && |stack| == MAX_SIZE_IP_ADDRESS_STRING
      modifies this`view, replica`instanceId, replica`lastLogged, replica.received, replica.state
      modifies replica.detected, replica.detected.buckets, replica.detected.order
      ensures Valid() && view == AfterDelivery(old(view), iid, value, now, replica.ip, replica.big) && repr == old(repr)
    {
      hide Ties, View.Ok, Learn, Foreign, Decodable, UuidOf, Sound;
      DeliveryIsOk(view, iid, value, now, replica.ip, replica.big);
      Learnt(iid, value, now, stack);
    }

    method Learnt(iid: nat, value: bytes, now: real, stack: bytes)
      requires Ties() && Sound(value, replica.big) && |stack| == MAX_SIZE_IP_ADDRESS_STRING
      modifies this`view, replica`instanceId, replica`lastLogged, replica.received, replica.state
      modifies replica.detected, replica.detected.buckets, replica.detected.order
      ensures Ties() && view == AfterDelivery(old(view), iid, value, now, replica.ip, replica.big)
      ensures replica.detected.buckets == old(replica.detected.buckets)
      ensures forall i | 0 <= i < |replica.detected.order| :: replica.detected.order[i] in old(replica.detected.order)
    {
      hide Table.Valid, EntriesOk, TimersOk, ModelsOk, ReplicaOk, View.Ok, Learn, Foreign, Decodable, UuidOf, Sound;
      ghost var v := view;
      view := AfterDelivery(v, iid, value, now, replica.ip, replica.big);
      SameMembersOk(Entries(), v, view, own, timers);
      HandOver(v, iid, value, now, stack);
    }

    method HandOver(ghost v: View, iid: nat, value: bytes, now: real, stack: bytes)
      requires ReplicaOk(replica, v) && Sound(value, replica.big) && |stack| == MAX_SIZE_IP_ADDRESS_STRING
      modifies replica`instanceId, replica`lastLogged, replica.received, replica.state
      modifies replica.detected, replica.detected.buckets, replica.detected.order
      ensures ReplicaOk(replica, AfterDelivery(v, iid, value, now, replica.ip, replica.big))
      ensures replica.detected.buckets == old(replica.detected.buckets)
      ensures forall i | 0 <= i < |replica.detected.order| :: replica.detected.order[i] in old(replica.detected.order)
    {
      hide Table.Valid, Replica.Valid, Replica.Pending, Recorded, Learn, Decodable, UuidOf, SenderOf, GroupOf, Sound;
      hide Reversed, CStr;
      LearnCases(v.learned, value, replica.ip, replica.big);
      replica.OnDeliver(iid, value, now, stack);
    }

    /**
     Every timer in the list, those of dropped members included, calls back once and has no period; a remote
     member's first expiry is its interval, which is the estimate from all its heartbeats in milliseconds.
     */
    lemma TimersFireOnce()
      requires Valid()
      ensures forall t | t in timers.list ::
                !t.periodic && t.intervalSec == 0 && t.intervalNsec == 0 && t.valueNsec < 1_000_000_000
      ensures forall h | h in Entries() && h.key != hostname ::
                && h.key in view.running && h.value.timer != null && h.value.timer in timers.list
                && h.value.timer.valueSec * 1_000_000_000 + h.value.timer.valueNsec ==
                   view.running[h.key].interval * 1_000_000
    {
      hide Table.Valid, EntriesOk, ModelsOk, ReplicaOk, History, ClockAfter, IsFree;
      forall h | h in Entries() && h.key != hostname
        ensures && h.key in view.running && h.value.timer != null && h.value.timer in timers.list
                && h.value.timer.valueSec * 1_000_000_000 + h.value.timer.valueNsec ==
                   view.running[h.key].interval * 1_000_000
      {
        EntryKeyed(Entries(), view.Members(), own, h);
        assert FiresOnce(h.value.timer);
      }
      assert forall t | t in timers.list :: FiresOnce(t);
    }

    /**
     A remote member's timer waits as estimated, with windows of 10 and 10000, from all its heartbeats since it
     joined.
     */
    lemma TimerWaitsAsEstimated(h: Handle<NodeInfo>)
      requires Valid() && h in Entries() && h.key != hostname
      ensures h.value.timer != null && h.key in view.heard && view.heard[h.key] != []
      ensures var heard, interval := view.heard[h.key], h.value.timer.interval;
              && h.value.lastHeartbeat == heard[|heard| - 1] && h.value.model.arrivals == heard
              && h.value.model.firstHeartbeat == heard[0]
              && var timeout := Timeout(heard, heard[0], 10, 10000);
                 if timeout < 0.0 then interval == 0 else interval as real <= timeout < interval as real + 1.0
    {
      hide Table.Valid, EntriesOk, ReplicaOk, History, Timeout, IsFree, TimeoutModel.Valid;
      EntryKeyed(Entries(), view.Members(), own, h);
      EntryKnown(Entries(), view, own, timers, h);
      assert Known(h.value, own);
    }

    /** Different members wait on different timers. */
    lemma TimersDiffer(h: Handle<NodeInfo>, k: Handle<NodeInfo>)
      requires Valid() && h in Entries() && k in Entries() && h != k && h.key != hostname && k.key != hostname
      ensures h.value.timer != null && h.value.timer in timers.list && h.value.timer.ip == h.key
      ensures h.value.timer != k.value.timer
    {
      hide Table.Valid, EntriesOk, ModelsOk, ReplicaOk, History, ClockAfter, IsFree;
      EntryKeyed(Entries(), view.Members(), own, h);
      EntryKeyed(Entries(), view.Members(), own, k);
      EntriesDiffer(Entries(), view.Members(), own, k);
    }

    /**
     A member whose heartbeats come strictly periodically is waited for longer than a period from its
     second heartbeat on, up to the cut to whole milliseconds: 100 for a period of 50, and the period
     and 50 once more heartbeats than the large window holds have come.
     */
    lemma PeriodicMemberWaits(h: Handle<NodeInfo>, p: real)
      requires Valid() && h in Entries() && h.key != hostname && p > 0.0
      requires view.Heard(h.key) != [] ==> Periodic(view.Heard(h.key), view.Heard(h.key)[0], p)
      ensures h.key in view.heard && view.heard[h.key] != [] && h.value.timer != null
      ensures var k, interval := |view.heard[h.key]| - 1, h.value.timer.interval;
              && (k >= 1 ==> interval >= p.Floor)
              && (p == HEARTBEAT_INTERVAL ==> interval == 100)
              && (k > W2_WINDOW_SIZE ==> interval == (p + HEARTBEAT_INTERVAL).Floor)
    {
      hide Table.Valid, EntriesOk, ModelsOk, ReplicaOk, History, Timeout, IsFree;
      EntryKeyed(Entries(), view.Members(), own, h);
      PeriodicTimeoutIsSafe(view.heard[h.key], view.heard[h.key][0], W1_WINDOW_SIZE, W2_WINDOW_SIZE, p);
    }
  }

  // ------------------------------------------------------------------ entries as a set

  lemma SeparateMeans(a: NodeInfo, b: NodeInfo)
    requires Separate(a, b)
    ensures a != b && a.model != b.model && Rings(a) !! Rings(b)
  {
  }

  lemma UniqueIn(nodes: Table<NodeInfo>)
    requires nodes.Valid()
    ensures UniqueKeys(nodes.order)
  {
  }

  lemma KeysAreKeys<V>(s: seq<Handle<V>>)
    ensures KeySet(s) == KeysOf(Elems(s))
  {
    forall h | h in s
      ensures h.key in KeySet(s)
    {
      var i :| 0 <= i < |s| && s[i] == h;
      assert Keys(s)[i] == h.key;
    }
    forall k | k in KeySet(s)
      ensures k in KeysOf(Elems(s))
    {
      var i :| 0 <= i < |s| && Keys(s)[i] == k;
      assert s[i] in Elems(s);
    }
  }

  /** What the table's list is like if its elements are the entries for these addresses. */
  lemma EntriesFacts(nodes: Table<NodeInfo>, keys: set<Key>, own: Owned)
    requires nodes.Valid() && EntriesOk(Elems(nodes.order), keys, own)
    ensures AllAddresses(nodes.order) && |nodes.order| == |keys| && KeySet(nodes.order) == keys
    ensures UniqueKeys(nodes.order) && (keys != {} ==> nodes.order != [])
  {
    hide Table.BucketsOk, Separate, Known;
    KeysAreKeys(nodes.order);
    assert forall h | h in nodes.order :: h in Elems(nodes.order);
    assert Distinct(Keys(nodes.order));
    CountDistinct(Keys(nodes.order));
  }

  lemma MembersKeys(members: set<Handle<NodeInfo>>, v: View, own: Owned, timers: Timers)
    requires MembersOk(members, v, own, timers)
    ensures KeysOf(members) == v.Members()
  {
    hide TimersOk, ModelsOk;
  }

  /** The lookup finds the entry with this address. */
  lemma FindMeans(nodes: Table<NodeInfo>, key: Key, node: Handle?<NodeInfo>)
    requires UniqueKeys(nodes.order)
    requires node == if key in nodes.Contents() then nodes.Contents()[key] else null
    ensures node == null <==> key !in KeysOf(Elems(nodes.order))
    ensures node != null ==> node in Elems(nodes.order) && node.key == key
  {
  }

  lemma EntryKeyed(members: set<Handle<NodeInfo>>, keys: set<Key>, own: Owned, h: Handle<NodeInfo>)
    requires EntriesOk(members, keys, own) && h in members
    ensures h.key in keys && h.value in own.infos
  {
  }

  lemma EntriesDiffer(members: set<Handle<NodeInfo>>, keys: set<Key>, own: Owned, k: Handle<NodeInfo>)
    requires EntriesOk(members, keys, own) && k in members
    ensures forall h | h in members && h != k :: h.key != k.key && h.value != k.value
    ensures forall h | h in members :: h.value in own.infos
  {
    forall h | h in members && h != k
      ensures h.key != k.key && h.value != k.value
    {
      assert Separate(h.value, k.value);
    }
    assert forall h | h in members :: Known(h.value, own);
  }

  lemma EntryKnown(members: set<Handle<NodeInfo>>, v: View, own: Owned, timers: Timers, h: Handle<NodeInfo>)
    requires MembersOk(members, v, own, timers) && h in members
    ensures h.key in v.Members() && h.value in own.infos && h.value.model in own.models
    ensures h.value.model.normalizedW1 in own.rings && h.value.model.normalizedW2 in own.rings
    ensures h.value.model.deltas in own.rings
  {
    hide TimersOk, ModelsOk;
    assert Known(h.value, own);
  }

  lemma SameElems(s: seq<Handle<NodeInfo>>, t: seq<Handle<NodeInfo>>)
    requires Elems(s) == Elems(t)
    ensures forall h | h in t :: h in s
  {
    assert forall h | h in t :: h in Elems(t);
  }

  lemma NotKey(nodes: Table<NodeInfo>, key: Key, keys: set<Key>, own: Owned)
    requires EntriesOk(Elems(nodes.order), keys, own) && key !in keys
    ensures !nodes.HasKey(key)
    ensures forall h | h in Elems(nodes.order) :: h.key != key && h.value in own.infos
  {
    hide Separate;
    assert forall h | h in nodes.order :: h in Elems(nodes.order) && h.key in keys;
  }

  lemma EntriesMore(members: set<Handle<NodeInfo>>, keys: set<Key>, own: Owned, h: Handle<NodeInfo>)
    requires EntriesOk(members, keys, own) && IsAddress(h.key) && h.key !in keys
    requires h.value !in own.infos && h.value.model !in own.models && Rings(h.value) !! own.rings
    ensures EntriesOk(members + {h}, keys + {h.key}, AlsoOwned(own, h.value)) && h !in members
  {
    hide IsAddress;
    assert forall k | k in members :: k.key in keys && Known(k.value, own);
    forall k | k in members
      ensures Separate(k.value, h.value) && Separate(h.value, k.value) && Known(k.value, AlsoOwned(own, h.value))
    {
      assert Known(k.value, own);
    }
  }

  /** When an entry goes, its timer becomes a stray. */
  lemma MemberLeft(members: set<Handle<NodeInfo>>, v: View, own: Owned, timers: Timers, node: Handle<NodeInfo>)
    requires MembersOk(members, v, own, timers) && v.RemotesOk() && v.ClocksOk()
    requires node in members && node.key in v.heard && node.key in v.running
    ensures MembersOk(members - {node}, Dropped(v, node.key), own, timers)
    ensures |Dropped(v, node.key).Members()| < |v.Members()|
  {
    hide TimersOk, ModelsOk, EntriesOk, View.RemotesOk, View.ClocksOk;
    DroppedIsOk(v, node.key);
    EntriesCut(members, v.Members(), own, node);
    TimersLeft(members, v, own, timers, node);
    ModelsLeft(members, v.heard, own, node);
  }

  lemma DroppedKeeps(v: View, ip: Key)
    requires ip in v.running
    ensures var w := Dropped(v, ip);
            && w.local == v.local && w.pending == v.pending && w.learned == v.learned && w.groups == v.groups
            && w.instance == v.instance && w.logged == v.logged
  {
  }

  lemma EntriesCut(members: set<Handle<NodeInfo>>, keys: set<Key>, own: Owned, node: Handle<NodeInfo>)
    requires EntriesOk(members, keys, own) && node in members
    ensures EntriesOk(members - {node}, keys - {node.key}, own) && |keys - {node.key}| < |keys|
  {
    hide IsAddress, Known, Separate;
    assert node.key in keys;
    forall k | k in keys - {node.key}
      ensures k in KeysOf(members - {node})
    {
      var h :| h in members && h.key == k;
      assert h in members - {node};
    }
    assert keys == (keys - {node.key}) + {node.key};
  }

  // ------------------------------------------------------------------ timers and models of entries

  lemma InsertedSize<A, B>(m: map<A, B>, k: A, x: B)
    ensures |m[k := x]| == |m| + if k in m then 0 else 1
  {
    assert m[k := x].Keys == m.Keys + {k};
    if k in m {
      assert m.Keys + {k} == m.Keys;
    }
  }

  lemma RemovedSize<A, B>(m: map<A, B>, k: A)
    requires k in m
    ensures |m - {k}| == |m| - 1
  {
    assert (m - {k}).Keys == m.Keys - {k};
  }

  lemma TimersLeft(members: set<Handle<NodeInfo>>, v: View, own: Owned, timers: Timers, node: Handle<NodeInfo>)
    requires TimersOk(members, v.running, v.strays, own.infos, timers) && v.ClocksOk()
    requires node in members && node.key in v.running
    ensures TimersOk(members - {node}, v.running - {node.key}, v.strays + {v.running[node.key].fd}, own.infos, timers)
  {
    hide Timers.Valid, TimerOf;
    RemovedSize(v.running, node.key);
    assert IsFree(v.running[node.key].fd, node.key, v.running, v.strays);
  }

  lemma ModelsLeft(members: set<Handle<NodeInfo>>, heard: map<Key, seq<real>>, own: Owned, node: Handle<NodeInfo>)
    requires ModelsOk(members, heard, own)
    ensures ModelsOk(members - {node}, heard - {node.key}, own)
  {
    hide HasHeard;
  }

  lemma ModelsMore(members: set<Handle<NodeInfo>>, keys: set<Key>, heard: map<Key, seq<real>>, own: Owned,
                   h: Handle<NodeInfo>, all: seq<real>)
    requires EntriesOk(members, keys, own) && ModelsOk(members, heard, own) && h.key !in keys
    requires HasHeard(h.value, all)
    ensures ModelsOk(members + {h}, heard[h.key := all], AlsoOwned(own, h.value))
  {
    hide HasHeard, Separate, IsAddress;
    assert forall k | k in members :: k.key in keys && Known(k.value, own);
  }

  lemma OwnsInfo(own: Owned, info: NodeInfo)
    ensures AlsoOwned(own, info).infos == own.infos + {info}
  {
  }

  lemma CountedSame(v: View, ip: Key, fd: int, now: real)
    ensures var w := Counted(v, ip, fd, now);
            w.local == v.local && w.pending == v.pending && w.learned == v.learned && w.groups == v.groups &&
            w.instance == v.instance && w.logged == v.logged
  {
    hide ClockAfter;
  }

  lemma NewMemberOk(members: set<Handle<NodeInfo>>, v: View, own: Owned, timers: Timers, h: Handle<NodeInfo>, fd: int,
                    now: real)
    requires v.RemotesOk() && h.key !in v.Members() && HasHeard(h.value, [now])
    requires EntriesOk(members, v.Members() + {h.key}, own) && ModelsOk(members, v.heard[h.key := [now]], own)
    requires TimersOk(members, v.running[h.key := Clock(fd, Interval(h.value.model.nextTimeout))], v.strays, own.infos,
                      timers)
    ensures MembersOk(members, Counted(v, h.key, fd, now), own, timers)
  {
    hide TimersOk, ModelsOk, HasHeard, EntriesOk, ClockAfter;
    EstimatedIs(h.value, [now], fd);
    NotYetHeard(v, h.key);
    CountedIsOk(v, h.key, fd, now);
    assert v.Heard(h.key) + [now] == [now];
  }

  lemma EstimatedIs(info: NodeInfo, heard: seq<real>, fd: int)
    requires HasHeard(info, heard)
    ensures heard != [] && ClockAfter(heard, fd) == Clock(fd, Interval(info.model.nextTimeout))
  {
    hide Timeout;
  }

  lemma NotYetHeard(v: View, ip: Key)
    requires v.RemotesOk() && ip !in v.Members()
    ensures ip !in v.heard && ip !in v.running && ip != v.local && v.Heard(ip) == []
  {
  }

  lemma AlreadyMember(v: View, ip: Key, fd: int, now: real)
    requires v.Ok() && ip in v.heard
    ensures ip in v.running && ip != v.local && v.Heard(ip) == v.heard[ip]
    ensures Counted(v, ip, fd, now).Members() == v.Members()
  {
    hide History, ClockAfter;
  }

  lemma HeartbeatCases(v: View, ip: Key, fd: int, uuid: Key, now: real)
    requires v.Ok() && (ip != v.local ==> IsFree(fd, ip, v.running, v.strays))
    ensures AfterHeartbeat(v, ip, fd, uuid, now).Ok() && AfterHeartbeat(v, ip, fd, uuid, now).local == v.local
    ensures v.RemotesOk()
    ensures AfterHeartbeat(v, ip, fd, uuid, now) ==
            if ip == v.local then v
            else if ip in v.Members() then Counted(v, ip, fd, now) else Submitted(Counted(v, ip, fd, now), uuid, now)
    ensures ip in v.Members() && ip != v.local ==> ip in v.heard
  {
    hide History, ClockAfter, IsFree;
    HeartbeatIsOk(v, ip, fd, uuid, now);
  }

  lemma TimeoutCases(v: View, ip: Key, uuid: Key, now: real)
    requires v.Ok() && ip in v.timed
    ensures AfterTimeout(v, ip, uuid, now).Ok() && AfterTimeout(v, ip, uuid, now).local == v.local
    ensures v.RemotesOk() && v.ClocksOk() && ip != v.local
    ensures ip in v.Members() <==> ip in v.heard
    ensures var w := AfterTimeout(v, ip, uuid, now);
            if ip in v.Members() then ip in v.running && w == Submitted(Dropped(v, ip), uuid, now) else w == v
  {
    hide History, ClockAfter, IsFree;
    TimeoutIsOk(v, ip, uuid, now);
  }

  /** The timers behind in the list have other descriptors than the one for the member's next timer. */
  lemma OthersDiffer(list: seq<TimerNode>, k: nat, running: map<Key, Clock>, strays: set<int>, ip: Key, fd: int)
    requires k < |list| && UniqueFds(list) && ip in running && IsFree(fd, ip, running, strays)
    requires list[k].fd == running[ip].fd
    requires forall t | t in list :: t.fd in strays || (t.ip in running && running[t.ip].fd == t.fd)
    ensures fd != -1 && forall t | t in list && t != list[k] :: t.fd != fd && (t.fd in strays || t.ip != ip)
  {
    forall t | t in list && t != list[k]
      ensures t.fd != list[k].fd
    {
      var i :| 0 <= i < |list| && list[i] == t;
    }
  }

  lemma InCut(s: seq<TimerNode>, k: nat)
    requires k < |s| && UniqueFds(s)
    ensures forall t :: t in Cut(s, k) <==> t in s && t != s[k]
  {
    var c := Cut(s, k);
    forall t
      ensures t in c <==> t in s && t != s[k]
    {
      if t in s && t != s[k] {
        var i :| 0 <= i < |s| && s[i] == t;
        assert c[if i < k then i else i - 1] == t;
      }
      if t in c {
        var i :| 0 <= i < |c| && c[i] == t;
        assert s[if i < k then i else i + 1] == t;
      }
    }
  }

  // ------------------------------------------------------------------ submissions

  lemma NotPending(r: Replica, uuid: Key)
    requires r.Valid() && uuid !in r.Pending()
    ensures !r.detected.HasKey(uuid) && r.detectedGroup != r.state
  {
    hide Table.Valid;
    TimesKeys(r.detected.order);
  }

  /** A message that carries the group of a table names the table's keys. */
  lemma CarriedIsNamed(r: Replica, msg: bytes, s: seq<Handle<NodeInfo>>, uuid: bytes)
    requires UniqueKeys(s) && r.Carries(msg, GroupKeys(s), uuid)
    ensures Names(msg, KeySet(s), r.ip, r.big)
  {
    hide Decodable, SortOf;
    GroupKeysAscend(s);
  }

  lemma SoleEntry(nodes: Table<NodeInfo>, hostname: Key, own: Owned)
    requires |nodes.order| == 1 && nodes.order[0].key == hostname && IsAddress(hostname)
    requires Known(nodes.order[0].value, own)
    ensures EntriesOk(Elems(nodes.order), {hostname}, own)
  {
    assert Elems(nodes.order) == {nodes.order[0]};
  }

  /** The objects of a node that has just started. */
  method Setup(hostname: Key, hostBuffer: bytes, big: bool, hash: Key -> nat, uuidHash: Key -> nat)
    returns (nodes: Table<NodeInfo>, timers: Timers, replica: Replica, ghost info: NodeInfo, ghost objects: set<object>)
    requires IsAddress(hostname) && |hostBuffer| == MAX_SIZE_IP_ADDRESS_STRING && CStr(hostBuffer) == hostname
    ensures nodes.Valid() && Initial(hostname).Ok() && Initial(hostname).local == hostname
    ensures MembersOk(Elems(nodes.order), Initial(hostname), Owned({info}, {info.model}, Rings(info)), timers)
    ensures ReplicaOk(replica, Initial(hostname)) && replica.ip == hostBuffer && replica.big == big
    ensures fresh(objects) && |nodes.order| == 1 && timers.list == [] && replica.detected.order == []
    ensures nodes in objects && nodes.buckets in objects && nodes.order[0] in objects && timers in objects
    ensures info in objects && info.model in objects && Rings(info) <= objects
    ensures replica in objects && replica.received in objects && replica.state in objects
    ensures replica.detectedGroup in objects && replica.detected in objects && replica.detected.buckets in objects
  {
    hide Table.Valid, MembersOk, ReplicaOk, ContentsOf, Timers.Valid, Replica.Valid, View.Ok, UniqueKeys, Initial,
         IsAddress;
    nodes := InitNodesStruct(hostname, hash);
    info := nodes.order[0].value;
    timers := new Timers();
    replica := new Replica(hostBuffer, big, uuidHash);
    ghost var own: set<object> := {nodes, nodes.buckets, nodes.order[0], info, info.model} + Rings(info);
    ghost var shared: set<object> := {timers, replica, replica.received, replica.state, replica.detectedGroup};
    assert fresh(own) && fresh(shared);
    objects := own + shared + {replica.detected, replica.detected.buckets};
    StartIsOk(hostname);
    StartTies(nodes, timers, replica, hostname, Owned({info}, {info.model}, Rings(info)));
  }

  lemma StartTies(nodes: Table<NodeInfo>, timers: Timers, replica: Replica, hostname: Key, own: Owned)
    requires |nodes.order| == 1 && nodes.order[0].key == hostname && IsAddress(hostname)
    requires var info := nodes.order[0].value; own == Owned({info}, {info.model}, Rings(info))
    requires timers.Valid() && timers.list == [] && CStr(replica.ip) == hostname
    requires replica.Valid() && replica.Pending() == map[] && replica.instanceId == 0 && replica.lastLogged == 0.0
    requires replica.state.items == [] && replica.submitted == []
    ensures MembersOk(Elems(nodes.order), Initial(hostname), own, timers) && ReplicaOk(replica, Initial(hostname))
  {
    hide Replica.Valid, Timers.Valid, EntriesOk, Names;
    SoleEntry(nodes, hostname, own);
    StartIsOk(hostname);
  }

  /** init_nodes_struct: a table with the local node. */
  method InitNodesStruct(hostname: Key, hash: Key -> nat) returns (nodes: Table<NodeInfo>)
    ensures fresh(nodes) && nodes.Valid() && fresh(nodes.buckets) && |nodes.order| == 1
    ensures fresh(nodes.order[0]) && fresh(nodes.order[0].value) && nodes.order[0].key == hostname
    ensures fresh(nodes.order[0].value.model) && fresh(Rings(nodes.order[0].value))
    ensures UniqueKeys(nodes.order) && nodes.Contents().Keys == {hostname}
  {
    hide Table.BucketsOk;
    nodes := new Table<NodeInfo>(hash);
    var model := new TimeoutModel(W1_WINDOW_SIZE, W2_WINDOW_SIZE, 0.0, 0.0);
    var info := new NodeInfo(model, 0.0, null);
    var node := new Handle<NodeInfo>(hostname, info);
    nodes.Add(node);
  }
}
