/** Whole runs of a node: any heartbeats, timeouts and log entries, in any order the outside world can bring them. */
module DetectorRuns {
  import opened Sequences
  import opened Bytes
  import opened HashBuckets
  import opened CStrings
  import opened GroupMessage
  import opened Membership
  import opened PaxosReplica
  import opened DetectorView
  import opened FailureDetector

  /** What happens to a node, with what the outside world gives it: UUIDs, clock readings, descriptors. */
  datatype Event =
    | Beat(ip: Key, fd: int, uuid: bytes, now: real, unset: real)
    | Timeout(ip: Key, uuid: bytes, now: real)
    | Entry(iid: nat, value: bytes, now: real)

  ghost function After(v: View, e: Event, me: bytes, big: bool): View {
    match e
    case Beat(ip, fd, uuid, now, _) => AfterHeartbeat(v, ip, fd, UuidStr(uuid), now)
    case Timeout(ip, uuid, now) => AfterTimeout(v, ip, UuidStr(uuid), now)
    case Entry(iid, value, now) => AfterDelivery(v, iid, value, now, me, big)
  }

  ghost function AfterAll(v: View, events: seq<Event>, me: bytes, big: bool): View {
    if events == [] then v
    else After(AfterAll(v, events[..|events| - 1], me, big), events[|events| - 1], me, big)
  }

  /**
   Addresses fit their buffers, a new descriptor is not in use, a UUID is not in use, only timers that were
   started call back, and messages can be read.
   */
  ghost predicate Legal(v: View, e: Event, big: bool) {
    match e
    case Beat(ip, fd, uuid, _, _) =>
      && IsAddress(ip) && (ip != v.local ==> IsFree(fd, ip, v.running, v.strays))
      && |uuid| == ZUUID_LEN && UuidStr(uuid) !in v.pending && |v.Members()| + 1 < MAX_MEMBERS
    case Timeout(ip, uuid, _) =>
      && ip in v.timed && |uuid| == ZUUID_LEN && UuidStr(uuid) !in v.pending && |v.Members()| <= MAX_MEMBERS
    case Entry(_, value, _) => Sound(value, big)
  }

  ghost predicate LegalRun(v: View, events: seq<Event>, me: bytes, big: bool) {
    forall i | 0 <= i < |events| :: Legal(AfterAll(v, events[..i], me, big), events[i], big)
  }

  // ------------------------------------------------------------------ what a run means, without the node

  /** Some heartbeat of an address was not followed by a timeout for it. */
  ghost function Living(local: Key, events: seq<Event>): set<Key> {
    {local} + set i | 0 <= i < |events| && events[i].Beat? && Unanswered(events, i) :: events[i].ip
  }

  ghost predicate Unanswered(events: seq<Event>, i: nat)
    requires i < |events| && events[i].Beat?
  {
    forall j | i < j < |events| :: !(events[j].Timeout? && events[j].ip == events[i].ip)
  }

  /** The living at the start, and after each event. */
  ghost function Course(local: Key, events: seq<Event>): seq<set<Key>> {
    seq(|events| + 1, i requires 0 <= i <= |events| => Living(local, events[..i]))
  }

  ghost function WithoutRepeats<T>(s: seq<T>): seq<T> {
    if |s| <= 1 then s
    else if s[|s| - 1] == s[|s| - 2] then WithoutRepeats(s[..|s| - 1])
    else WithoutRepeats(s[..|s| - 1]) + [s[|s| - 1]]
  }

  /** The heartbeats of an address since the last timeout for it. */
  ghost function Since(events: seq<Event>, ip: Key): seq<real> {
    if events == [] then []
    else
      var before, e := Since(events[..|events| - 1], ip), events[|events| - 1];
      if e.Beat? && e.ip == ip then before + [e.now] else if e.Timeout? && e.ip == ip then [] else before
  }

  /** The log as far as the node has seen it. */
  ghost function Delivered(events: seq<Event>): seq<bytes> {
    if events == [] then []
    else
      var before, e := Delivered(events[..|events| - 1]), events[|events| - 1];
      if e.Entry? then before + [e.value] else before
  }

  /** The living change by this event, and a message with this UUID says so. */
  ghost predicate Submits(local: Key, events: seq<Event>, i: nat, uuid: Key)
    requires i < |events|
  {
    && !events[i].Entry? && UuidStr(events[i].uuid) == uuid
    && Living(local, events[..i]) != Living(local, events[..i + 1])
  }

  /** The log brings the node its own message with this UUID. */
  ghost predicate Returns(e: Event, uuid: Key, me: bytes, big: bool) {
    e.Entry? && Decodable(e.value, big) && !Foreign(e.value, me, big) && UuidStr(UuidOf(e.value, big)) == uuid
  }

  /** A message with this UUID was submitted, and has not come back since. */
  ghost predicate Awaited(local: Key, events: seq<Event>, uuid: Key, me: bytes, big: bool) {
    exists i | 0 <= i < |events| ::
      Submits(local, events, i, uuid) && forall j | i < j < |events| :: !Returns(events[j], uuid, me, big)
  }

  /** And it was submitted at this time. */
  ghost predicate MadeAt(local: Key, events: seq<Event>, uuid: Key, time: real, me: bytes, big: bool) {
    exists i | 0 <= i < |events| ::
      Submits(local, events, i, uuid) && events[i].now == time &&
      forall j | i < j < |events| :: !Returns(events[j], uuid, me, big)
  }

  // ------------------------------------------------------------------ the view says just that

  lemma PrefixLegal(v: View, events: seq<Event>, me: bytes, big: bool)
    requires LegalRun(v, events, me, big) && events != []
    ensures LegalRun(v, events[..|events| - 1], me, big)
    ensures Legal(AfterAll(v, events[..|events| - 1], me, big), events[|events| - 1], big)
  {
    hide Legal, AfterAll;
    var init := events[..|events| - 1];
    forall i | 0 <= i < |init|
      ensures Legal(AfterAll(v, init[..i], me, big), init[i], big)
    {
      assert init[..i] == events[..i];
    }
  }

  lemma {:induction false} RunIsOk(v: View, events: seq<Event>, me: bytes, big: bool)
    requires v.Ok() && LegalRun(v, events, me, big)
    ensures AfterAll(v, events, me, big).Ok() && AfterAll(v, events, me, big).local == v.local
  {
    hide View.Ok, LegalRun, IsFree, AfterHeartbeat, AfterTimeout, AfterDelivery;
    if events != [] {
      PrefixLegal(v, events, me, big);
      RunIsOk(v, events[..|events| - 1], me, big);
      StepIsOk(AfterAll(v, events[..|events| - 1], me, big), events[|events| - 1], me, big);
    }
  }

  lemma StepIsOk(v: View, e: Event, me: bytes, big: bool)
    requires v.Ok() && Legal(v, e, big)
    ensures After(v, e, me, big).Ok() && After(v, e, me, big).local == v.local
    ensures After(v, e, me, big).Members() ==
            match e
            case Beat(ip, _, _, _, _) => v.Members() + {ip}
            case Timeout(ip, _, _) => v.Members() - {ip}
            case Entry(_, _, _) => v.Members()
  {
    hide View.Ok, View.Members, IsFree, Sound, Learn, Foreign, Decodable, ClockAfter;
    match e
    case Beat(ip, fd, uuid, now, _) => HeartbeatIsOk(v, ip, fd, UuidStr(uuid), now);
    case Timeout(ip, uuid, now) =>
      TimeoutIsOk(v, ip, UuidStr(uuid), now);
      TimeoutCases(v, ip, UuidStr(uuid), now);
    case Entry(iid, value, now) => DeliveryIsOk(v, iid, value, now, me, big);
  }

  lemma LivingStep(local: Key, events: seq<Event>)
    requires events != []
    ensures var before, e := Living(local, events[..|events| - 1]), events[|events| - 1];
            Living(local, events) == match e
                                     case Beat(ip, _, _, _, _) => before + {ip}
                                     case Timeout(ip, _, _) => before - {ip} + {local}
                                     case Entry(_, _, _) => before
  {
    var n := |events| - 1;
    var init, e := events[..n], events[n];
    forall i | 0 <= i < n && events[i].Beat?
      ensures Unanswered(events, i) <==> Unanswered(init, i) && !(e.Timeout? && e.ip == events[i].ip)
    {
    }
  }

  /** The members are the living. */
  lemma {:induction false} MembersAreLiving(local: Key, events: seq<Event>, me: bytes, big: bool)
    requires LegalRun(Initial(local), events, me, big)
    ensures AfterAll(Initial(local), events, me, big).Members() == Living(local, events)
  {
    hide View.Ok, LegalRun, IsFree, After, Living, Legal;
    StartIsOk(local);
    if events == [] {
      assert Living(local, []) == {local} by { NobodyElse(local); }
    } else {
      var init, e := events[..|events| - 1], events[|events| - 1];
      PrefixLegal(Initial(local), events, me, big);
      MembersAreLiving(local, init, me, big);
      RunIsOk(Initial(local), init, me, big);
      StepIsOk(AfterAll(Initial(local), init, me, big), e, me, big);
      LivingStep(local, events);
      LocalStays(AfterAll(Initial(local), init, me, big), e, big);
    }
  }

  lemma NobodyElse(local: Key)
    ensures Living(local, []) == {local}
  {
  }

  lemma LocalStays(v: View, e: Event, big: bool)
    requires v.Ok() && Legal(v, e, big)
    ensures e.Timeout? ==> e.ip != v.local
  {
    hide History, ClockAfter, IsFree;
  }

  /** The groups submitted are the course of the living, without repeats. */
  lemma {:induction false} GroupsAreChanges(local: Key, events: seq<Event>, me: bytes, big: bool)
    requires LegalRun(Initial(local), events, me, big)
    ensures AfterAll(Initial(local), events, me, big).groups == WithoutRepeats(Course(local, events))
  {
    hide View.Ok, LegalRun, IsFree, After, Living, Legal, View.Members;
    StartIsOk(local);
    MembersAreLiving(local, events, me, big);
    var s := Course(local, events);
    var n := |events|;
    assert events[..n] == events && s[n] == Living(local, events);
    if events == [] {
      GroupsAtStart(local);
    } else {
      var init, e := events[..n - 1], events[n - 1];
      PrefixLegal(Initial(local), events, me, big);
      GroupsAreChanges(local, init, me, big);
      MembersAreLiving(local, init, me, big);
      RunIsOk(Initial(local), init, me, big);
      GroupsStep(AfterAll(Initial(local), init, me, big), e, me, big);
      CoursePrefix(local, events);
    }
  }

  lemma GroupsAtStart(local: Key)
    ensures Initial(local).groups == [{local}] && Initial(local).Members() == {local}
  {
  }

  lemma CoursePrefix(local: Key, events: seq<Event>)
    requires events != []
    ensures var n := |events|;
            Course(local, events)[..n] == Course(local, events[..n - 1]) && |Course(local, events)| == n + 1 &&
            Course(local, events)[n - 1] == Living(local, events[..n - 1])
  {
    hide Living;
    var n := |events|;
    forall i | 0 <= i < n
      ensures events[..n - 1][..i] == events[..i]
    {
    }
  }

  /** From one view to the next: nothing is submitted, or the new member set is, which is another one. */
  ghost predicate Change(v: View, w: View, uuid: Key, now: real) {
    if w.Members() == v.Members() then w.groups == v.groups && w.pending == v.pending
    else w.groups == v.groups + [w.Members()] && w.pending == v.pending[uuid := now]
  }

  lemma HeartbeatChange(v: View, ip: Key, fd: int, uuid: Key, now: real)
    requires v.Ok() && (ip != v.local ==> IsFree(fd, ip, v.running, v.strays))
    ensures Change(v, AfterHeartbeat(v, ip, fd, uuid, now), uuid, now)
  {
    HeartbeatIsOk(v, ip, fd, uuid, now);
    HeartbeatCases(v, ip, fd, uuid, now);
    hide History, IsFree, ClockAfter, View.RemotesOk, View.ClocksOk, AfterHeartbeat;
  }

  lemma TimeoutChange(v: View, ip: Key, uuid: Key, now: real)
    requires v.Ok() && ip in v.timed
    ensures Change(v, AfterTimeout(v, ip, uuid, now), uuid, now)
  {
    TimeoutIsOk(v, ip, uuid, now);
    TimeoutCases(v, ip, uuid, now);
    hide History, IsFree, ClockAfter, View.RemotesOk, View.ClocksOk, AfterTimeout;
  }

  /** An entry of the log changes no member, and takes back at most this node's own submission. */
  lemma DeliveryChange(v: View, iid: nat, value: bytes, now: real, me: bytes, big: bool)
    ensures var w := AfterDelivery(v, iid, value, now, me, big);
            && w.Members() == v.Members() && w.groups == v.groups
            && w.pending == if Decodable(value, big) && !Foreign(value, me, big)
                            then v.pending - {UuidStr(UuidOf(value, big))} else v.pending
  {
    hide Decodable, UuidOf, GroupOf, Foreign, Learn, ClockAfter;
  }

  /** A group is added exactly when the members change. */
  lemma GroupsStep(v: View, e: Event, me: bytes, big: bool)
    requires v.Ok() && Legal(v, e, big)
    ensures var w := After(v, e, me, big);
            w.groups == if w.Members() == v.Members() then v.groups else v.groups + [w.Members()]
  {
    hide View.Ok, View.Members, IsFree, Sound, Foreign, Decodable, AfterHeartbeat, AfterTimeout, AfterDelivery;
    match e
    case Beat(ip, fd, uuid, now, _) => HeartbeatChange(v, ip, fd, UuidStr(uuid), now);
    case Timeout(ip, uuid, now) => TimeoutChange(v, ip, UuidStr(uuid), now);
    case Entry(iid, value, now) => DeliveryChange(v, iid, value, now, me, big);
  }

  /** A remote member's history is that of its heartbeats since its last timeout. */
  lemma {:induction false} HeardIsSince(local: Key, events: seq<Event>, me: bytes, big: bool, ip: Key)
    requires LegalRun(Initial(local), events, me, big) && ip != local
    ensures AfterAll(Initial(local), events, me, big).Heard(ip) == Since(events, ip)
    ensures ip in AfterAll(Initial(local), events, me, big).heard <==> Since(events, ip) != []
  {
    hide View.Ok, LegalRun, IsFree, After, Legal, View.Heard;
    StartIsOk(local);
    if events == [] {
      NothingHeard(local, ip);
    } else {
      var init, e := events[..|events| - 1], events[|events| - 1];
      PrefixLegal(Initial(local), events, me, big);
      HeardIsSince(local, init, me, big, ip);
      RunIsOk(Initial(local), init, me, big);
      HeardStep(AfterAll(Initial(local), init, me, big), e, me, big, ip);
    }
  }

  lemma NothingHeard(local: Key, ip: Key)
    ensures Initial(local).Heard(ip) == [] && ip !in Initial(local).heard && Initial(local).local == local
  {
  }

  lemma HeardStep(v: View, e: Event, me: bytes, big: bool, ip: Key)
    requires v.Ok() && Legal(v, e, big) && ip != v.local
    ensures var w := After(v, e, me, big);
            && w.Heard(ip) == (if e.Beat? && e.ip == ip then v.Heard(ip) + [e.now]
                               else if e.Timeout? && e.ip == ip then [] else v.Heard(ip))
            && (ip in w.heard <==> w.Heard(ip) != [])
  {
    hide View.Ok, View.Heard, IsFree, Sound, AfterHeartbeat, AfterTimeout, AfterDelivery;
    match e
    case Beat(jp, fd, uuid, now, _) => HeardOnBeat(v, jp, fd, UuidStr(uuid), now, ip);
    case Timeout(jp, uuid, now) => HeardOnTimeout(v, jp, UuidStr(uuid), now, ip);
    case Entry(iid, value, now) => HeardOnDelivery(v, iid, value, now, me, big, ip);
  }

  lemma HeardOnBeat(v: View, jp: Key, fd: int, uuid: Key, now: real, ip: Key)
    requires v.Ok() && ip != v.local
    ensures var w := AfterHeartbeat(v, jp, fd, uuid, now);
            && w.Heard(ip) == (if jp == ip then v.Heard(ip) + [now] else v.Heard(ip))
            && (ip in w.heard <==> w.Heard(ip) != [])
  {
    hide History, IsFree, ClockAfter, View.ClocksOk, View.Members;
  }

  lemma HeardOnTimeout(v: View, jp: Key, uuid: Key, now: real, ip: Key)
    requires v.Ok() && ip != v.local
    ensures var w := AfterTimeout(v, jp, uuid, now);
            && w.Heard(ip) == (if jp == ip then [] else v.Heard(ip))
            && (ip in w.heard <==> w.Heard(ip) != [])
  {
    hide History, IsFree, ClockAfter, View.ClocksOk, View.Members;
  }

  lemma HeardOnDelivery(v: View, iid: nat, value: bytes, now: real, me: bytes, big: bool, ip: Key)
    requires v.Ok()
    ensures var w := AfterDelivery(v, iid, value, now, me, big);
            w.Heard(ip) == v.Heard(ip) && (ip in w.heard <==> w.Heard(ip) != [])
  {
    hide Learn, Foreign, Decodable, UuidOf, History, IsFree, ClockAfter, View.ClocksOk, View.Members;
  }

  /** A timer was started exactly for each remote address that was ever heard. */
  lemma {:induction false} TimedWereHeard(local: Key, events: seq<Event>, me: bytes, big: bool, ip: Key)
    ensures ip in AfterAll(Initial(local), events, me, big).timed <==>
            ip != local && exists i | 0 <= i < |events| :: events[i].Beat? && events[i].ip == ip
  {
    hide AfterDelivery, ClockAfter;
    if events != [] {
      var n := |events| - 1;
      var init, v := events[..n], AfterAll(Initial(local), events[..n], me, big);
      TimedWereHeard(local, init, me, big, ip);
      TimedStep(v, events[n], me, big);
      LocalOf(Initial(local), init, me, big);
      assert forall i | 0 <= i < n :: init[i] == events[i];
      SomeEvent(events, ip);
    }
  }

  lemma SomeEvent(events: seq<Event>, ip: Key)
    requires events != []
    ensures var n := |events| - 1;
            (exists i | 0 <= i < |events| :: events[i].Beat? && events[i].ip == ip) <==>
            ((exists i | 0 <= i < n :: events[..n][i].Beat? && events[..n][i].ip == ip) ||
             (events[n].Beat? && events[n].ip == ip))
  {
    var n := |events| - 1;
    if i :| 0 <= i < n && events[..n][i].Beat? && events[..n][i].ip == ip {
      assert events[i].Beat? && events[i].ip == ip;
    }
    if i :| 0 <= i < |events| && events[i].Beat? && events[i].ip == ip {
      assert i < n ==> events[..n][i].Beat? && events[..n][i].ip == ip;
    }
  }

  lemma TimedStep(v: View, e: Event, me: bytes, big: bool)
    ensures var w := After(v, e, me, big);
            w.local == v.local && w.timed == if e.Beat? && e.ip != v.local then v.timed + {e.ip} else v.timed
  {
    hide Learn, Foreign, Decodable, UuidOf, ClockAfter;
  }

  lemma {:induction false} LocalOf(v: View, events: seq<Event>, me: bytes, big: bool)
    ensures AfterAll(v, events, me, big).local == v.local
  {
    hide After;
    if events != [] {
      LocalOf(v, events[..|events| - 1], me, big);
      TimedStep(AfterAll(v, events[..|events| - 1], me, big), events[|events| - 1], me, big);
    }
  }

  /** The group learned is what the log means. */
  lemma {:induction false} LearnedIsReplay(v: View, events: seq<Event>, me: bytes, big: bool)
    ensures AfterAll(v, events, me, big).learned == Replay(v.learned, Delivered(events), me, big)
  {
    hide Learn;
    if events != [] {
      var init, e := events[..|events| - 1], events[|events| - 1];
      LearnedIsReplay(v, init, me, big);
      LearnedStep(AfterAll(v, init, me, big), e, me, big);
      if e.Entry? {
        assert (Delivered(init) + [e.value])[..|Delivered(init)|] == Delivered(init);
      }
    }
  }

  lemma LearnedStep(v: View, e: Event, me: bytes, big: bool)
    ensures After(v, e, me, big).learned == if e.Entry? then Learn(v.learned, e.value, me, big) else v.learned
  {
    hide Learn, Foreign, Decodable, GroupOf, UuidOf, ClockAfter;
    if e.Entry? {
      LearnCases(v.learned, e.value, me, big);
    }
  }

  /** Entry i of the run brings a group of another node that is empty or is not the one learned so far. */
  ghost predicate Relearns(events: seq<Event>, i: nat, me: bytes, big: bool)
    requires i < |events|
  {
    && events[i].Entry? && Foreign(events[i].value, me, big)
    && var group := GroupOf(events[i].value, big);
       group == [] || Reversed(group) != Replay([], Delivered(events[..i]), me, big)
  }

  /** Instance number and time are those of the last entry that changed the group, or zero if none did. */
  lemma {:induction false} LoggedAtLastChange(local: Key, events: seq<Event>, me: bytes, big: bool)
    ensures var v := AfterAll(Initial(local), events, me, big);
            || (v.instance == 0 && v.logged == 0.0 && forall i | 0 <= i < |events| :: !Relearns(events, i, me, big))
            || exists i | 0 <= i < |events| ::
                 Relearns(events, i, me, big) && (forall j | i < j < |events| :: !Relearns(events, j, me, big)) &&
                 events[i].Entry? && events[i].iid == v.instance && events[i].now == v.logged
  {
    hide After, Relearns;
    if events != [] {
      var n := |events| - 1;
      var init, v := events[..n], AfterAll(Initial(local), events[..n], me, big);
      LoggedAtLastChange(local, init, me, big);
      forall i | 0 <= i < n
        ensures Relearns(events, i, me, big) <==> Relearns(init, i, me, big)
      {
        RelearnsEarlier(events, i, me, big);
      }
      LearnedIsReplay(Initial(local), init, me, big);
      LoggedStep(v, events, me, big);
      if !Relearns(events, n, me, big) {
        if i :| 0 <= i < n && Relearns(init, i, me, big) && (forall j | i < j < n :: !Relearns(init, j, me, big)) &&
                init[i].Entry? && init[i].iid == v.instance && init[i].now == v.logged {
          assert Relearns(events, i, me, big) && events[i] == init[i];
        }
      }
    }
  }

  lemma RelearnsEarlier(events: seq<Event>, i: nat, me: bytes, big: bool)
    requires i < |events| - 1
    ensures Relearns(events, i, me, big) <==> Relearns(events[..|events| - 1], i, me, big)
  {
    hide Foreign, GroupOf, Replay, Delivered;
    assert events[..|events| - 1][..i] == events[..i];
  }

  lemma LoggedStep(v: View, events: seq<Event>, me: bytes, big: bool)
    requires events != [] && v.learned == Replay([], Delivered(events[..|events| - 1]), me, big)
    ensures var n := |events| - 1;
            var e, w := events[n], After(v, events[n], me, big);
            if Relearns(events, n, me, big) then e.Entry? && w.instance == e.iid && w.logged == e.now
            else w.instance == v.instance && w.logged == v.logged
  {
    hide Foreign, Decodable, GroupOf, UuidOf, SenderOf, Replay, Delivered, Reversed, ClockAfter;
    var e := events[|events| - 1];
    if e.Entry? {
      LearnCases(v.learned, e.value, me, big);
    }
  }

  /** The pending submissions are those awaited. */
  lemma {:induction false} PendingIsAwaited(local: Key, events: seq<Event>, me: bytes, big: bool, uuid: Key)
    requires LegalRun(Initial(local), events, me, big)
    ensures uuid in AfterAll(Initial(local), events, me, big).pending <==> Awaited(local, events, uuid, me, big)
    ensures var pending := AfterAll(Initial(local), events, me, big).pending;
            uuid in pending ==> MadeAt(local, events, uuid, pending[uuid], me, big)
  {
    hide View.Ok, LegalRun, After, Legal, Living, Awaited, MadeAt, Returns, View.Members;
    StartIsOk(local);
    if events == [] {
      NothingAwaited(local, uuid, me, big);
    } else {
      var init, e := events[..|events| - 1], events[|events| - 1];
      assert events[..|events|] == events;
      PrefixLegal(Initial(local), events, me, big);
      PendingIsAwaited(local, init, me, big, uuid);
      RunIsOk(Initial(local), init, me, big);
      MembersAreLiving(local, init, me, big);
      MembersAreLiving(local, events, me, big);
      PendingStep(AfterAll(Initial(local), init, me, big), e, me, big, uuid);
      AwaitedStep(local, events, uuid, me, big);
      if uuid in AfterAll(Initial(local), events, me, big).pending {
        TimeStep(local, events, uuid, me, big);
      }
    }
  }

  /** The time noted with a pending submission is that of the event that made it. */
  lemma TimeStep(local: Key, events: seq<Event>, uuid: Key, me: bytes, big: bool)
    requires events != [] && LegalRun(Initial(local), events, me, big)
    requires uuid in AfterAll(Initial(local), events, me, big).pending
    requires var init := events[..|events| - 1];
             var pending := AfterAll(Initial(local), init, me, big).pending;
             uuid in pending ==> MadeAt(local, init, uuid, pending[uuid], me, big)
    ensures MadeAt(local, events, uuid, AfterAll(Initial(local), events, me, big).pending[uuid], me, big)
  {
    hide View.Ok, LegalRun, After, Legal, Living, Returns, View.Members, MadeAt;
    var n := |events| - 1;
    var init, e := events[..n], events[n];
    var v, w := AfterAll(Initial(local), init, me, big), AfterAll(Initial(local), events, me, big);
    StartIsOk(local);
    PrefixLegal(Initial(local), events, me, big);
    RunIsOk(Initial(local), init, me, big);
    MembersAreLiving(local, init, me, big);
    MembersAreLiving(local, events, me, big);
    PendingStep(v, e, me, big, uuid);
    SubmitsLast(local, events, uuid);
    hide Submits, AfterAll;
    if !e.Entry? && UuidStr(e.uuid) == uuid && v.Members() != w.Members() {
      MadeNow(local, events, uuid, me, big);
    } else {
      MadeEarlier(local, events, uuid, v.pending[uuid], me, big);
    }
  }

  lemma MadeNow(local: Key, events: seq<Event>, uuid: Key, me: bytes, big: bool)
    requires events != [] && Submits(local, events, |events| - 1, uuid)
    ensures MadeAt(local, events, uuid, events[|events| - 1].now, me, big)
  {
    hide Submits, Returns;
  }

  lemma MadeEarlier(local: Key, events: seq<Event>, uuid: Key, time: real, me: bytes, big: bool)
    requires events != [] && MadeAt(local, events[..|events| - 1], uuid, time, me, big)
    requires !Returns(events[|events| - 1], uuid, me, big)
    ensures MadeAt(local, events, uuid, time, me, big)
  {
    hide Submits, Returns;
    var n := |events| - 1;
    var init := events[..n];
    var i :| 0 <= i < n && Submits(local, init, i, uuid) && init[i].now == time &&
             forall j | i < j < n :: !Returns(init[j], uuid, me, big);
    SubmitsEarlier(local, events, i, uuid);
    assert init[i] == events[i];
    assert forall j | i < j < |events| :: j < n ==> events[j] == init[j];
  }

  lemma NothingAwaited(local: Key, uuid: Key, me: bytes, big: bool)
    ensures !Awaited(local, [], uuid, me, big) && Initial(local).pending == map[]
  {
  }

  lemma AwaitedStep(local: Key, events: seq<Event>, uuid: Key, me: bytes, big: bool)
    requires events != []
    ensures var n := |events| - 1;
            Awaited(local, events, uuid, me, big) <==>
            (Submits(local, events, n, uuid) ||
             (Awaited(local, events[..n], uuid, me, big) && !Returns(events[n], uuid, me, big)))
  {
    hide Living, Returns;
    var n := |events| - 1;
    var init := events[..n];
    forall i | 0 <= i < n
      ensures Submits(local, events, i, uuid) <==> Submits(local, init, i, uuid)
    {
      SubmitsEarlier(local, events, i, uuid);
    }
  }

  lemma SubmitsEarlier(local: Key, events: seq<Event>, i: nat, uuid: Key)
    requires i < |events| - 1
    ensures Submits(local, events, i, uuid) <==> Submits(local, events[..|events| - 1], i, uuid)
  {
    hide Living;
    var init := events[..|events| - 1];
    assert init[..i] == events[..i] && init[..i + 1] == events[..i + 1];
  }

  lemma SubmitsLast(local: Key, events: seq<Event>, uuid: Key)
    requires events != []
    ensures var n := |events| - 1;
            Submits(local, events, n, uuid) <==>
            !events[n].Entry? && UuidStr(events[n].uuid) == uuid && Living(local, events[..n]) != Living(local, events)
  {
    hide Living;
    assert events[..|events|] == events;
  }

  lemma PendingStep(v: View, e: Event, me: bytes, big: bool, uuid: Key)
    requires v.Ok() && Legal(v, e, big)
    ensures var w := After(v, e, me, big);
            uuid in w.pending <==>
            (!e.Entry? && UuidStr(e.uuid) == uuid && v.Members() != w.Members()) ||
            (uuid in v.pending && !Returns(e, uuid, me, big))
    ensures var w := After(v, e, me, big);
            uuid in w.pending ==>
              if !e.Entry? && UuidStr(e.uuid) == uuid && v.Members() != w.Members() then w.pending[uuid] == e.now
              else uuid in v.pending && w.pending[uuid] == v.pending[uuid] && !Returns(e, uuid, me, big)
  {
    hide View.Ok, View.Members, IsFree, Sound, Foreign, Decodable, UuidOf;
    hide AfterHeartbeat, AfterTimeout, AfterDelivery;
    match e
    case Beat(ip, fd, u, now, _) => HeartbeatChange(v, ip, fd, UuidStr(u), now);
    case Timeout(ip, u, now) => TimeoutChange(v, ip, UuidStr(u), now);
    case Entry(iid, value, now) => DeliveryChange(v, iid, value, now, me, big);
  }

  // ------------------------------------------------------------------ runs of the node

  /** One event. */
  method Step(d: Detector, e: Event, stack: bytes)
    requires d.Valid() && Legal(d.view, e, d.replica.big) && |stack| == MAX_SIZE_IP_ADDRESS_STRING
    modifies d.repr
    ensures d.Valid() && d.view == After(old(d.view), e, d.replica.ip, d.replica.big)
    ensures fresh(d.repr - old(d.repr))
  {
    hide Detector.Ties, View.Ok, IsFree, Sound, AfterHeartbeat, AfterTimeout, AfterDelivery;
    match e
    case Beat(ip, fd, uuid, now, unset) => d.Heartbeat(ip, fd, uuid, now, unset, stack);
    case Timeout(ip, uuid, now) => d.HandleTimeout(ip, uuid, now, stack);
    case Entry(iid, value, now) => d.Deliver(iid, value, now, stack);
  }

  /**
   A whole run from the start: the node's members are the living, it has submitted exactly the changes of
   the living, in order, and it has learned what the log means.
   */
  method Run(hostname: Key, hostBuffer: bytes, big: bool, hash: Key -> nat, uuidHash: Key -> nat,
             events: seq<Event>, stacks: seq<bytes>) returns (d: Detector)
    requires IsAddress(hostname) && |hostBuffer| == MAX_SIZE_IP_ADDRESS_STRING && CStr(hostBuffer) == hostname
    requires LegalRun(Initial(hostname), events, hostBuffer, big)
    requires |stacks| == |events| && forall i | 0 <= i < |stacks| :: |stacks[i]| == MAX_SIZE_IP_ADDRESS_STRING
    ensures fresh(d.repr) && d.Valid() && d.replica.ip == hostBuffer && d.replica.big == big
    ensures d.view == AfterAll(Initial(hostname), events, hostBuffer, big)
    ensures KeysOf(d.Entries()) == Living(hostname, events)
    ensures Recorded(WithoutRepeats(Course(hostname, events)), d.replica.submitted, hostBuffer, big)
    ensures d.replica.state.items == Replay([], Delivered(events), hostBuffer, big)
    ensures forall t | t in d.timers.list :: !t.periodic && t.intervalSec == 0 && t.intervalNsec == 0
  {
    hide Detector.Valid, Legal, After, Replay, Living, WithoutRepeats, Recorded, Initial;
    d := new Detector(hostname, hostBuffer, big, hash, uuidHash);
    var i := 0;
    while i < |events|
      invariant 0 <= i <= |events| && d.Valid() && fresh(d.repr)
      invariant d.view == AfterAll(Initial(hostname), events[..i], hostBuffer, big)
    {
      Step(d, events[i], stacks[i]);
      assert events[..i + 1][..i] == events[..i];
      i := i + 1;
    }
    assert events[..i] == events;
    MembersAreLiving(hostname, events, hostBuffer, big);
    GroupsAreChanges(hostname, events, hostBuffer, big);
    LearnedIsReplay(Initial(hostname), events, hostBuffer, big);
    NothingLearned(hostname);
    ValidMeans(d);
    d.TimersFireOnce();
  }

  /**
   Two nodes, on machines of any byte order: when the last message in the log of one is the i-th submission
   of the other, it holds the members that the other had after the i-th change of them, in descending order.
   */
  method TwoNodes(hostname: Key, hostBuffer: bytes, big: bool, events: seq<Event>, stacks: seq<bytes>,
                  hostname': Key, hostBuffer': bytes, big': bool, events': seq<Event>, stacks': seq<bytes>,
                  hash: Key -> nat, uuidHash: Key -> nat) returns (d: Detector, d': Detector)
    requires IsAddress(hostname) && |hostBuffer| == MAX_SIZE_IP_ADDRESS_STRING && CStr(hostBuffer) == hostname
    requires IsAddress(hostname') && |hostBuffer'| == MAX_SIZE_IP_ADDRESS_STRING && CStr(hostBuffer') == hostname'
    requires hostname != hostname'
    requires LegalRun(Initial(hostname), events, hostBuffer, big)
    requires LegalRun(Initial(hostname'), events', hostBuffer', big')
    requires |stacks| == |events| && forall i | 0 <= i < |stacks| :: |stacks[i]| == MAX_SIZE_IP_ADDRESS_STRING
    requires |stacks'| == |events'| && forall i | 0 <= i < |stacks'| :: |stacks'[i]| == MAX_SIZE_IP_ADDRESS_STRING
    ensures |d.replica.submitted| + 1 == |WithoutRepeats(Course(hostname, events))|
    ensures forall i | 0 <= i < |d.replica.submitted| && EndsWith(Delivered(events'), d.replica.submitted[i], big') ::
              var group := d'.replica.state.items;
              && Elems(group) == WithoutRepeats(Course(hostname, events))[i + 1]
              && forall j, k | 0 <= j < k < |group| :: Before(group[k], group[j])
  {
    hide Detector.Valid, LegalRun, Replay, Course, WithoutRepeats, Names, Initial, AfterAll, LastDecodable, Delivered,
         Reversed, Ascending, Before, IsAddress, Living;
    d := Run(hostname, hostBuffer, big, hash, uuidHash, events, stacks);
    d' := Run(hostname', hostBuffer', big', hash, uuidHash, events', stacks');
    ghost var groups, log := WithoutRepeats(Course(hostname, events)), Delivered(events');
    RecordedAcross(groups, d.replica.submitted, hostBuffer, big);
    forall i | 0 <= i < |d.replica.submitted| && EndsWith(log, d.replica.submitted[i], big')
      ensures var group := d'.replica.state.items;
              Elems(group) == groups[i + 1] && forall j, k | 0 <= j < k < |group| :: Before(group[k], group[j])
    {
      var j: nat :| j < |log| && LastDecodable(log, j, big') && log[j] == d.replica.submitted[i];
      OthersHoldSubmission(groups, d.replica.submitted, hostBuffer, big', i, log, j, [], hostBuffer');
      DescendingMeans(d'.replica.state.items);
    }
  }

  lemma DescendingMeans(g: seq<Key>)
    requires Ascending(Reversed(g))
    ensures forall j, k | 0 <= j < k < |g| :: Before(g[k], g[j])
  {
    hide Ascending, Before, Reversed;
    forall j, k | 0 <= j < k < |g|
      ensures Before(g[k], g[j])
    {
      DescendingPair(g, j, k);
    }
  }

  lemma DescendingPair(g: seq<Key>, j: nat, k: nat)
    requires Ascending(Reversed(g)) && j < k < |g|
    ensures Before(g[k], g[j])
  {
    hide Ascending, Before, Reversed;
    AscendingAt(Reversed(g), |g| - 1 - k, |g| - 1 - j);
  }

  /** This is the last message in the log. */
  ghost predicate EndsWith(log: seq<bytes>, msg: bytes, big: bool) {
    exists j: nat | j < |log| :: LastDecodable(log, j, big) && log[j] == msg
  }

  /** A short run: B joins A and is dropped again, and then its timer that was not stopped calls back. */
  lemma ShortRun(a: Key, b: Key, beat: Event, timeout: Event, stray: Event, me: bytes, big: bool)
    requires a != b && IsAddress(b) && beat.Beat? && timeout.Timeout? && stray.Timeout?
    requires beat.ip == timeout.ip == stray.ip == b && beat.fd != -1
    requires |beat.uuid| == |timeout.uuid| == |stray.uuid| == ZUUID_LEN
    requires var u0, u1, u2 := UuidStr(beat.uuid), UuidStr(timeout.uuid), UuidStr(stray.uuid);
             u0 != u1 && u0 != u2 && u1 != u2
    ensures LegalRun(Initial(a), [beat, timeout, stray], me, big)
    ensures WithoutRepeats(Course(a, [beat, timeout, stray])) == [{a}, {a, b}, {a}]
  {
    hide UuidStr, AfterHeartbeat, AfterTimeout, Living, Initial, IsFree, IsAddress, View.Members, WithoutRepeats,
         LegalRun;
    assert [] + [beat] == [beat] && [beat] + [timeout] == [beat, timeout];
    assert [beat, timeout] + [stray] == [beat, timeout, stray];
    Joins(a, b, beat.fd, UuidStr(beat.uuid), beat.now);
    var w := After(Initial(a), beat, me, big);
    Leaves(w, b, UuidStr(timeout.uuid), timeout.now, UuidStr(stray.uuid), stray.now);
    NoEvents(Initial(a), me, big);
    OneMoreEvent(Initial(a), [], beat, me, big);
    OneMoreEvent(Initial(a), [beat], timeout, me, big);
    OneMoreEvent(Initial(a), [beat, timeout], stray, me, big);
    GroupsAreChanges(a, [beat, timeout, stray], me, big);
    assert {a, b} - {b} == {a};
  }

  lemma Joins(a: Key, b: Key, fd: int, uuid: Key, now: real)
    requires a != b && fd != -1
    ensures var v, w := Initial(a), AfterHeartbeat(Initial(a), b, fd, uuid, now);
            && v.Members() == {a} && v.pending == map[] && v.local == a && IsFree(fd, b, v.running, v.strays)
            && w.Ok() && w.Members() == {a, b} && w.timed == {b} && w.pending.Keys == {uuid} && w.local == a
            && w.groups == [{a}, {a, b}]
  {
    StartIsOk(a);
    HeartbeatIsOk(Initial(a), b, fd, uuid, now);
    hide ClockAfter, History, View.RemotesOk, View.ClocksOk;
  }

  lemma Leaves(w: View, b: Key, uuid: Key, now: real, uuid': Key, now': real)
    requires w.Ok() && b in w.timed && b in w.Members()
    ensures var x := AfterTimeout(w, b, uuid, now);
            && x.groups == w.groups + [w.Members() - {b}] && x.Members() == w.Members() - {b}
            && x.timed == w.timed && x.pending == w.pending[uuid := now] && AfterTimeout(x, b, uuid', now') == x
  {
    TimeoutIsOk(w, b, uuid, now);
    TimeoutCases(w, b, uuid, now);
    TimeoutCases(AfterTimeout(w, b, uuid, now), b, uuid', now');
    hide ClockAfter, History, View.RemotesOk, View.ClocksOk;
  }

  lemma NoEvents(v: View, me: bytes, big: bool)
    ensures LegalRun(v, [], me, big) && AfterAll(v, [], me, big) == v
  {
  }

  lemma OneMoreEvent(v: View, events: seq<Event>, e: Event, me: bytes, big: bool)
    requires LegalRun(v, events, me, big) && Legal(AfterAll(v, events, me, big), e, big)
    ensures LegalRun(v, events + [e], me, big)
    ensures AfterAll(v, events + [e], me, big) == After(AfterAll(v, events, me, big), e, me, big)
  {
    hide Legal, After;
    var all := events + [e];
    assert all[..|events|] == events;
    forall i | 0 <= i < |all|
      ensures Legal(AfterAll(v, all[..i], me, big), all[i], big)
    {
      assert i < |events| ==> all[..i] == events[..i] && all[i] == events[i];
    }
  }

  lemma NothingLearned(local: Key)
    ensures Initial(local).learned == []
  {
  }

  lemma ValidMeans(d: Detector)
    requires d.Valid()
    ensures KeysOf(d.Entries()) == d.view.Members() && d.replica.state.items == d.view.learned
    ensures Recorded(d.view.groups, d.replica.submitted, d.replica.ip, d.replica.big)
  {
    hide View.Ok, Recorded, TimersOk, ModelsOk;
  }
}
