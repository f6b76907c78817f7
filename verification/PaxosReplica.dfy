/** A replica of the agreed group: what it submits, and what it learns from the common log. */
module PaxosReplica {
  import AdaptiveTimeout
  import opened Sequences
  import opened Bytes
  import opened TplCodec
  import opened HashBuckets
  import opened StableSort
  import opened HashTable
  import opened TimerList
  import opened CStrings
  import opened ZLists
  import opened GroupMessage
  import opened Membership

  /**
   A member of the table: the model of its heartbeats, when it was heard last, and the timer that waits
   for its next heartbeat. The local node's model is never used.
   */
  class NodeInfo {
    const model: AdaptiveTimeout.TimeoutModel
    var lastHeartbeat: real
    var timer: TimerNode?

    constructor (model: AdaptiveTimeout.TimeoutModel, lastHeartbeat: real, timer: TimerNode?)
      ensures this.model == model && this.lastHeartbeat == lastHeartbeat && this.timer == timer
    {
      this.model, this.lastHeartbeat, this.timer := model, lastHeartbeat, timer;
    }
  }

  function HexDigit(n: nat): byte
    requires n < 16
  {
    if n < 10 then 48 + n else 55 + n
  }

  /** The UUID as text, two digits a byte. */
  function UuidStr(uuid: bytes): Key {
    if uuid == [] then []
    else [HexDigit(uuid[0] as int / 16), HexDigit(uuid[0] as int % 16)] + UuidStr(uuid[1..])
  }

  /** Two digits for each byte, the higher one first, from 0123456789ABCDEF. */
  lemma {:induction false} UuidDigits(uuid: bytes, i: nat)
    requires i < |uuid|
    ensures var digits := "0123456789ABCDEF";
            && |UuidStr(uuid)| == 2 * |uuid|
            && UuidStr(uuid)[2 * i] as int as char == digits[uuid[i] as int / 16]
            && UuidStr(uuid)[2 * i + 1] as int as char == digits[uuid[i] as int % 16]
  {
    UuidStrLength(uuid);
    if i > 0 {
      UuidDigits(uuid[1..], i - 1);
    }
  }

  lemma {:induction false} UuidStrLength(uuid: bytes)
    ensures |UuidStr(uuid)| == 2 * |uuid|
  {
    if uuid != [] {
      UuidStrLength(uuid[1..]);
    }
  }

  /** Different UUIDs have different texts, without a NUL in them. */
  lemma {:induction false} UuidStrInjective(u: bytes, v: bytes)
    requires UuidStr(u) == UuidStr(v)
    ensures u == v && 0 !in UuidStr(u)
  {
    UuidStrLength(u);
    UuidStrLength(v);
    if u != [] {
      assert UuidStr(u)[2..] == UuidStr(u[1..]) && UuidStr(v)[2..] == UuidStr(v[1..]);
      assert UuidStr(u)[0] == UuidStr(v)[0] && UuidStr(u)[1] == UuidStr(v)[1];
      UuidStrInjective(u[1..], v[1..]);
      assert u == [u[0]] + u[1..] && v == [v[0]] + v[1..];
    }
  }

  // ------------------------------------------------------------------ what a log means

  /** The message was sent by another node than the one with this address field. */
  ghost predicate Foreign(value: bytes, ip: bytes, big: bool) {
    Decodable(value, big) && CStr(SenderOf(value, big)) != CStr(ip)
  }

  /** The group after one more log entry, given the group before it. */
  ghost function Learn(group: seq<bytes>, value: bytes, ip: bytes, big: bool): seq<bytes> {
    if Foreign(value, ip, big) then Reversed(GroupOf(value, big)) else group
  }

  ghost function Replay(group: seq<bytes>, log: seq<bytes>, ip: bytes, big: bool): seq<bytes> {
    if log == [] then group
    else Learn(Replay(group, log[..|log| - 1], ip, big), log[|log| - 1], ip, big)
  }

  /** Entry i is the last one that this node learns from. */
  ghost predicate LastForeign(log: seq<bytes>, i: nat, ip: bytes, big: bool) {
    i < |log| && Foreign(log[i], ip, big) && forall j | i < j < |log| :: !Foreign(log[j], ip, big)
  }

  /** Only the last decodable entry from another node counts. */
  lemma {:induction false} ReplayIsLastForeign(group: seq<bytes>, log: seq<bytes>, i: nat, ip: bytes, big: bool)
    requires LastForeign(log, i, ip, big)
    ensures Replay(group, log, ip, big) == Reversed(GroupOf(log[i], big))
  {
    hide Decodable, Foreign, Reversed, Learn, GroupOf;
    var n := |log| - 1;
    if i < n {
      ReplayIsLastForeign(group, log[..n], i, ip, big);
      LearnSkips(Replay(group, log[..n], ip, big), log[n], ip, big);
    } else {
      LearnTakes(Replay(group, log[..n], ip, big), log[n], ip, big);
    }
  }

  lemma LearnTakes(group: seq<bytes>, value: bytes, ip: bytes, big: bool)
    requires Foreign(value, ip, big)
    ensures Learn(group, value, ip, big) == Reversed(GroupOf(value, big))
  {
  }

  lemma LearnSkips(group: seq<bytes>, value: bytes, ip: bytes, big: bool)
    requires !Foreign(value, ip, big)
    ensures Learn(group, value, ip, big) == group
  {
  }

  /** Nothing is left of the old group, and the new one is empty exactly if the message names nobody. */
  lemma LearnCases(group: seq<bytes>, value: bytes, ip: bytes, big: bool)
    ensures if Foreign(value, ip, big) then Learn(group, value, ip, big) == [] <==> GroupOf(value, big) == []
            else Learn(group, value, ip, big) == group
  {
    hide Decodable, SenderOf, GroupOf, Foreign;
  }

  lemma {:induction false} ReplayOfNothing(group: seq<bytes>, log: seq<bytes>, ip: bytes, big: bool)
    requires forall j | 0 <= j < |log| :: !Foreign(log[j], ip, big)
    ensures Replay(group, log, ip, big) == group
  {
    if log != [] {
      ReplayOfNothing(group, log[..|log| - 1], ip, big);
    }
  }

  /** The last decodable entry of a log. */
  ghost predicate LastDecodable(log: seq<bytes>, i: nat, big: bool) {
    i < |log| && Decodable(log[i], big) && forall j | i < j < |log| :: !Decodable(log[j], big)
  }

  /**
   Two replicas that replay one log hold the same group, whatever they held before, if the last
   decodable entry came from neither; and that group is the one this entry names.
   */
  lemma {:induction false} ReplicasAgree(log: seq<bytes>, i: nat, g1: seq<bytes>, ip1: bytes, g2: seq<bytes>,
                                         ip2: bytes, big: bool)
    requires LastDecodable(log, i, big)
    requires CStr(SenderOf(log[i], big)) != CStr(ip1) && CStr(SenderOf(log[i], big)) != CStr(ip2)
    ensures Replay(g1, log, ip1, big) == Replay(g2, log, ip2, big) == Reversed(GroupOf(log[i], big))
  {
    hide Decodable, Replay, Reversed;
    ReplayIsLastForeign(g1, log, i, ip1, big);
    ReplayIsLastForeign(g2, log, i, ip2, big);
  }

  /** A log either has a last entry from another node, or none at all. */
  lemma {:induction false} SomeLastForeign(log: seq<bytes>, ip: bytes, big: bool)
    ensures (exists k: nat :: LastForeign(log, k, ip, big)) || (forall j | 0 <= j < |log| :: !Foreign(log[j], ip, big))
    ensures forall k: nat | LastForeign(log, k, ip, big) :: Foreign(log[k], ip, big)
  {
    hide Foreign;
    if log != [] {
      var n := |log| - 1;
      SomeLastForeign(log[..n], ip, big);
      if Foreign(log[n], ip, big) {
        assert LastForeign(log, n, ip, big);
      } else if k: nat :| LastForeign(log[..n], k, ip, big) {
        assert LastForeign(log, k, ip, big);
      } else {
        assert forall j | 0 <= j < n :: log[..n][j] == log[j];
      }
    }
  }

  /**
   When the last decodable entry is a node's own, that node stays with the last entry from others, or
   with what it held if there is none. It agrees with the other replicas exactly if that is the same.
   */
  lemma {:induction false} SenderAgreesIff(log: seq<bytes>, i: nat, g1: seq<bytes>, ip1: bytes, g2: seq<bytes>,
                                           ip2: bytes, big: bool)
    requires LastDecodable(log, i, big) && CStr(SenderOf(log[i], big)) == CStr(ip1) != CStr(ip2)
    ensures Replay(g1, log, ip1, big) == Replay(g2, log, ip2, big) <==>
              || (exists k: nat :: LastForeign(log, k, ip1, big) && GroupOf(log[k], big) == GroupOf(log[i], big))
              || ((forall j | 0 <= j < |log| :: !Foreign(log[j], ip1, big)) && g1 == Reversed(GroupOf(log[i], big)))
  {
    hide Decodable, Replay, Reversed, GroupOf;
    ReplayIsLastForeign(g2, log, i, ip2, big);
    SomeLastForeign(log, ip1, big);
    if k: nat :| LastForeign(log, k, ip1, big) {
      ReplayIsLastForeign(g1, log, k, ip1, big);
      ReversedInjective(GroupOf(log[k], big), GroupOf(log[i], big));
      assert forall m: nat | LastForeign(log, m, ip1, big) :: m == k;
    } else {
      ReplayOfNothing(g1, log, ip1, big);
    }
  }

  /** Two senders that submit different groups one after the other end up with different groups. */
  lemma CrossedSubmissionsDiffer(m0: bytes, m1: bytes, g: seq<bytes>, ip0: bytes, ip1: bytes, big: bool)
    requires Decodable(m0, big) && Decodable(m1, big) && GroupOf(m0, big) != GroupOf(m1, big)
    requires CStr(SenderOf(m0, big)) == CStr(ip0) != CStr(ip1) == CStr(SenderOf(m1, big))
    ensures Replay(g, [m0, m1], ip0, big) == Reversed(GroupOf(m1, big))
    ensures Replay(g, [m0, m1], ip1, big) == Reversed(GroupOf(m0, big))
    ensures Replay(g, [m0, m1], ip0, big) != Replay(g, [m0, m1], ip1, big)
  {
    hide Decodable, Replay, Reversed, GroupOf;
    var log := [m0, m1];
    assert LastForeign(log, 1, ip0, big) && LastForeign(log, 0, ip1, big);
    ReplayIsLastForeign(g, log, 1, ip0, big);
    ReplayIsLastForeign(g, log, 0, ip1, big);
    ReversedInjective(GroupOf(m0, big), GroupOf(m1, big));
  }

  /** Such messages exist: A names itself, then B names both, and A holds A and B while B holds A alone. */
  lemma ReplicasCanDiffer(big: bool) returns (m0: bytes, m1: bytes, ip0: bytes, ip1: bytes)
    ensures Decodable(m0, big) && Decodable(m1, big)
    ensures CStr(ip0) == [65] && CStr(ip1) == [66]
    ensures Replay([], [m0, m1], ip0, big) == [[66], [65]]
    ensures Replay([], [m0, m1], ip1, big) == [[65]]
  {
    hide Decodable, Replay, GroupOf, SenderOf, Reversed;
    ip0, ip1 := Address(65), Address(66);
    m0 := AnyMessage(ip0, [[Raw(ip0)]], big);
    m1 := AnyMessage(ip1, [[Raw(ip0)], [Raw(ip1)]], big);
    assert Strings([[Raw(ip0)]]) == [[65]] && Strings([[Raw(ip0)], [Raw(ip1)]]) == [[65], [66]];
    CrossedSubmissionsDiffer(m0, m1, [], ip0, ip1, big);
    assert Reversed([[65], [66]]) == [[66], [65]] && Reversed([[65]]) == [[65]] by { SmallReversals(); }
  }

  lemma SmallReversals()
    ensures Reversed<bytes>([[65]]) == [[65]] && Reversed<bytes>([[65], [66]]) == [[66], [65]]
  {
  }

  lemma ReversedInjective<T>(s: seq<T>, t: seq<T>)
    ensures Reversed(s) == Reversed(t) <==> s == t
  {
    if Reversed(s) == Reversed(t) {
      assert |s| == |t|;
      forall i | 0 <= i < |s|
        ensures s[i] == t[i]
      {
        assert s[i] == Reversed(s)[|s| - 1 - i] && t[i] == Reversed(t)[|s| - 1 - i];
      }
    }
  }

  // ------------------------------------------------------------------ the replica

  class Replica {
    /** current_node_ip, a buffer with a string in it. */
    const ip: bytes
    const big: bool
    /** The state changes this node has submitted and not yet seen agreed, by UUID. */
    const detected: Table<real>
    const received: ZList
    const state: ZList
    const detectedGroup: ZList
    var instanceId: nat
    var lastLogged: real
    /** Everything handed to Paxos. */
    var submitted: seq<bytes>

    ghost predicate Valid()
      reads detected, detected.buckets, detected.order`next, detected.order`prev
      reads detected.order`hhNext, detected.order`hhPrev, detected.order`hashv
    {
      |ip| == MAX_SIZE_IP_ADDRESS_STRING && received != state && detectedGroup != state && detected.Valid()
    }

    /** The submissions not yet seen in the log: when each was made, by UUID. */
    ghost function Pending(): map<Key, real>
      reads detected`order
    {
      TimesOf(detected.order)
    }

    constructor (ip: bytes, big: bool, hash: Key -> nat)
      requires |ip| == MAX_SIZE_IP_ADDRESS_STRING
      ensures Valid() && this.ip == ip && this.big == big
      ensures state.items == [] && submitted == [] && detected.order == [] && Pending() == map[]
      ensures instanceId == 0 && lastLogged == 0.0
      ensures fresh(detected) && fresh(detected.buckets) && fresh(received) && fresh(state) && fresh(detectedGroup)
    {
      this.ip, this.big := ip, big;
      detected := new Table<real>(hash);
      received := new ZList();
      state := new ZList();
      detectedGroup := new ZList();
      instanceId, lastLogged, submitted := 0, 0.0, [];
    }

    /** on_deliver: learn from one log entry. */
    method OnDeliver(iid: nat, value: bytes, now: real, stack: bytes)
      requires Valid() && Sound(value, big) && |stack| == MAX_SIZE_IP_ADDRESS_STRING
      modifies this`instanceId, this`lastLogged, received, state
      modifies detected, detected.buckets, detected.order`next, detected.order`prev, detected.order`hhNext,
               detected.order`hhPrev
      ensures detected.buckets == old(detected.buckets)
      ensures forall k | 0 <= k < |detected.order| :: detected.order[k] in old(detected.order)
      ensures Valid() && state.items == Learn(old(state.items), value, ip, big)
      ensures if !Decodable(value, big) then
                state.items == old(state.items) && Pending() == old(Pending())
              else if CStr(SenderOf(value, big)) == CStr(ip) then
                state.items == old(state.items) && Pending() == old(Pending()) - {UuidStr(UuidOf(value, big))}
              else
                state.items == Reversed(GroupOf(value, big)) && Pending() == old(Pending())
      ensures if Decodable(value, big) && CStr(SenderOf(value, big)) != CStr(ip) &&
                 (GroupOf(value, big) == [] || state.items != old(state.items))
              then instanceId == iid && lastLogged == now
              else instanceId == old(instanceId) && lastLogged == old(lastLogged)
    {
      hide Table.BucketsOk, Table.ListOk, Decodable, UuidOf, SenderOf, GroupOf, Sound, Reversed;
      received.Purge();
      var rc, senderIp, uuid := DeserializeHash(value, big, received, stack, stack, stack);
      if rc != 0 {
        return;
      }
      if CStr(senderIp) == CStr(ip) {
        Seen(UuidStr(uuid));
        return;
      }
      var same := IsEqualLists(received, state);
      if same {
        return;
      }
      CopyList(received, state);
      lastLogged := now;
      instanceId := iid;
    }

    /** The entry that this node submitted itself is dropped from the table of pending ones, and then freed. */
    method Seen(uuid: Key)
      requires Valid()
      modifies detected, detected.buckets, detected.order`next, detected.order`prev, detected.order`hhNext,
               detected.order`hhPrev
      ensures Valid() && detected.Contents() == old(detected.Contents()) - {uuid}
      ensures Pending() == old(Pending()) - {uuid}
      ensures detected.buckets == old(detected.buckets)
      ensures forall k | 0 <= k < |detected.order| :: detected.order[k] in old(detected.order)
    {
      hide Table.BucketsOk, ContentsOf;
      ghost var before := detected.order;
      var h := detected.Find(uuid);
      if h != null {
        InContents(before, uuid, h);
        ghost var k := detected.Delete(h);
        TimesCut(before, k);
      } else {
        TimesWithout(before, uuid);
      }
    }

    /** paxos_serialize_and_submit: note the new UUID as pending, and hand the table's group to Paxos. */
    method Submit(nodes: Table<NodeInfo>, uuid: bytes, now: real, stack: bytes)
      requires Valid() && nodes.Valid() && AllAddresses(nodes.order) && |nodes.order| < 0x800_0000
      requires |uuid| == ZUUID_LEN && |stack| == MAX_SIZE_IP_ADDRESS_STRING && !detected.HasKey(UuidStr(uuid))
      modifies this`submitted, detectedGroup, nodes`head, nodes`tail, nodes`order, nodes.order`next, nodes.order`prev
      modifies detected, detected.buckets, detected.order`next, detected.order`hhNext, detected.order`hhPrev
      ensures Valid() && nodes.Valid()
      ensures nodes.order == SortOf(old(nodes.order), StrCmp) && Elems(nodes.order) == Elems(old(nodes.order))
      ensures nodes.Contents() == old(nodes.Contents())
      ensures Noted(old(detected.Contents()), UuidStr(uuid), now) && Pending() == old(Pending())[UuidStr(uuid) := now]
      ensures forall i | 0 <= i < |detected.order| ::
                detected.order[i] in old(detected.order) || fresh(detected.order[i])
      ensures detectedGroup.items == Reversed(GroupKeys(old(nodes.order)))
      ensures fresh(detected.buckets) || detected.buckets == old(detected.buckets)
      ensures if old(nodes.order) == [] then submitted == old(submitted) else
                |submitted| == |old(submitted)| + 1 && submitted[..|old(submitted)|] == old(submitted) &&
                Carries(submitted[|old(submitted)|], GroupKeys(old(nodes.order)), uuid)
    {
      hide Table.Valid, Carries, Reversed, SortOf, UniqueKeys, GroupKeys, ContentsOf, Keys, Noted, Pending;
      NotePending(UuidStr(uuid), now);
      detectedGroup.Purge();
      var rc, buffer := ListAndSerialize(nodes, uuid, stack);
      if rc != 0 {
        return;
      }
      submitted := submitted + [buffer];
    }

    /** Both representations of the table's group: the list kept for the log, and the message. */
    method ListAndSerialize(nodes: Table<NodeInfo>, uuid: bytes, stack: bytes) returns (rc: int, buffer: bytes)
      requires |ip| == MAX_SIZE_IP_ADDRESS_STRING && detectedGroup.items == []
      requires nodes.Valid() && AllAddresses(nodes.order) && |nodes.order| < 0x800_0000
      requires |uuid| == ZUUID_LEN && |stack| == MAX_SIZE_IP_ADDRESS_STRING
      modifies detectedGroup, nodes`head, nodes`tail, nodes`order, nodes.order`next, nodes.order`prev
      ensures nodes.Valid()
      ensures nodes.order == SortOf(old(nodes.order), StrCmp) && Elems(nodes.order) == Elems(old(nodes.order))
      ensures nodes.Contents() == old(nodes.Contents())
      ensures detectedGroup.items == Reversed(GroupKeys(old(nodes.order)))
      ensures rc == (if old(nodes.order) == [] then -1 else 0)
      ensures rc == 0 ==> Carries(buffer, GroupKeys(old(nodes.order)), uuid)
    {
      hide Table.BucketsOk, Table.ListOk, Decodable, UuidOf, SenderOf, GroupOf, Reversed, SortOf, UniqueKeys;
      GetMembershipGroup(nodes, detectedGroup);
      SortTwice(old(nodes.order));
      SameAddresses(old(nodes.order), nodes.order);
      forall i | 0 <= i < |nodes.order|
        ensures nodes.order[i] in old(nodes.order)
      {
        assert nodes.order[i] in Elems(nodes.order);
      }
      rc, buffer := SerializeHash(nodes, big, ip, uuid, stack);
    }

    /** The message was sent by this replica and names this group. */
    ghost predicate Carries(msg: bytes, group: seq<Key>, uuid: bytes) {
      Decodable(msg, big) && SenderOf(msg, big) == ip && UuidOf(msg, big) == uuid && GroupOf(msg, big) == group
    }

    /** The pending submissions are those from before and this one, detected now. */
    ghost predicate Noted(before: map<Key, Handle<real>>, uuid: Key, now: real)
      reads detected, detected.order`next, detected.order`prev
    {
      && detected.ListOk() && uuid in detected.Contents() && detected.Contents()[uuid].value == now
      && detected.Contents() - {uuid} == before
    }

    method NotePending(uuid: Key, now: real)
      requires Valid() && !detected.HasKey(uuid)
      modifies detected, detected.buckets, detected.order`next, detected.order`hhNext, detected.order`hhPrev
      ensures Valid() && Noted(old(detected.Contents()), uuid, now) && Pending() == old(Pending())[uuid := now]
      ensures fresh(detected.buckets) || detected.buckets == old(detected.buckets)
      ensures forall i | 0 <= i < |detected.order| ::
                detected.order[i] in old(detected.order) || fresh(detected.order[i])
    {
      hide Table.BucketsOk, Table.Current, Table.WouldExpand, UniqueKeys, ContentsOf, TimesOf, Expanded;
      ghost var before, contents := detected.order, detected.Contents();
      NotInContents(before, uuid);
      var h := new Handle<real>(uuid, now);
      detected.Add(h);
      TimesAdded(before, h);
      OneMore(contents, detected.Contents(), uuid, h);
    }
  }

  lemma NotInContents<V>(s: seq<Handle<V>>, key: Key)
    requires UniqueKeys(s) && forall h | h in s :: h.key != key
    ensures key !in ContentsOf(s)
  {
  }

  lemma OneMore<V>(before: map<Key, V>, after: map<Key, V>, key: Key, v: V)
    requires key !in before && after == before[key := v]
    ensures after - {key} == before
  {
  }

  /** What the elements hold, by key; the first one counts. */
  ghost function TimesOf(s: seq<Handle<real>>): map<Key, real> {
    if s == [] then map[] else TimesOf(s[1..])[s[0].key := s[0].value]
  }

  lemma {:induction false} TimesKeys(s: seq<Handle<real>>)
    ensures forall k :: k in TimesOf(s) <==> exists h :: h in s && h.key == k
  {
    if s != [] {
      TimesKeys(s[1..]);
      assert s == [s[0]] + s[1..];
    }
  }

  lemma {:induction false} TimesAdded(s: seq<Handle<real>>, h: Handle<real>)
    requires forall x | x in s :: x.key != h.key
    ensures TimesOf(s + [h]) == TimesOf(s)[h.key := h.value]
  {
    if s == [] {
      assert (s + [h])[1..] == [];
    } else {
      assert (s + [h])[1..] == s[1..] + [h];
      TimesAdded(s[1..], h);
    }
  }

  lemma {:induction false} TimesCut(s: seq<Handle<real>>, k: nat)
    requires UniqueKeys(s) && k < |s|
    ensures TimesOf(Cut(s, k)) == TimesOf(s) - {s[k].key}
  {
    if k == 0 {
      assert Cut(s, 0) == s[1..];
      TimesKeys(s[1..]);
    } else {
      assert Cut(s, k)[1..] == Cut(s[1..], k - 1);
      TimesCut(s[1..], k - 1);
    }
  }

  lemma TimesWithout(s: seq<Handle<real>>, key: Key)
    requires UniqueKeys(s) && key !in ContentsOf(s)
    ensures TimesOf(s) - {key} == TimesOf(s)
  {
    TimesKeys(s);
    assert forall h | h in s :: h.key in ContentsOf(s);
  }

  lemma InContents<V>(s: seq<Handle<V>>, key: Key, h: Handle<V>)
    requires UniqueKeys(s) && key in ContentsOf(s) && ContentsOf(s)[key] == h
    ensures h in s && h.key == key
  {
  }

  /** A replica handed a whole log holds the group the log means, with or without skipped copies. */
  method DeliverLog(r: Replica, log: seq<bytes>, now: real, stack: bytes)
    requires r.Valid() && |stack| == MAX_SIZE_IP_ADDRESS_STRING
    requires forall i | 0 <= i < |log| :: Sound(log[i], r.big)
    modifies r`instanceId, r`lastLogged, r.received, r.state
    modifies r.detected, r.detected.buckets, r.detected.order
    ensures r.Valid() && r.state.items == Replay(old(r.state.items), log, r.ip, r.big)
  {
    hide Table.Valid, Learn, Sound, Decodable, Foreign, GroupOf, UuidOf;
    var i := 0;
    while i < |log|
      invariant 0 <= i <= |log| && r.Valid()
      invariant r.state.items == Replay(old(r.state.items), log[..i], r.ip, r.big)
      invariant r.detected.buckets == old(r.detected.buckets)
      invariant forall k | 0 <= k < |r.detected.order| :: r.detected.order[k] in old(r.detected.order)
    {
      r.OnDeliver(i, log[i], now, stack);
      assert log[..i + 1][..i] == log[..i];
      i := i + 1;
    }
    assert log[..i] == log;
  }
}
