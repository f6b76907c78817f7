/** The list of running timers. */
module TimerList {
  import opened Sequences
  import opened HashBuckets

  class TimerNode {
    const fd: int
    /** The address that the timeout callback is called with. */
    const ip: Key
    const interval: nat
    const periodic: bool
    /** First expiry, and the period of a periodic timer. */
    const valueSec: nat
    const valueNsec: nat
    const intervalSec: nat
    const intervalNsec: nat
    var next: TimerNode?

    constructor (fd: int, ip: Key, interval: nat, periodic: bool, sec: nat, nsec: nat)
      ensures this.fd == fd && this.ip == ip && this.interval == interval && this.periodic == periodic && next == null
      ensures valueSec == sec && valueNsec == nsec
      ensures if periodic then intervalSec == sec && intervalNsec == nsec else intervalSec == 0 && intervalNsec == 0
    {
      this.fd, this.ip, this.interval, this.periodic, next := fd, ip, interval, periodic, null;
      valueSec, valueNsec := sec, nsec;
      intervalSec, intervalNsec := if periodic then sec else 0, if periodic then nsec else 0;
    }
  }

  ghost function At(s: seq<TimerNode>, i: nat): TimerNode? {
    if i < |s| then s[i] else null
  }

  ghost predicate Chained(s: seq<TimerNode>)
    reads s`next
  {
    forall i {:trigger s[i].next} | 0 <= i < |s| :: s[i].next == At(s, i + 1)
  }

  /** No two running timers share a descriptor. */
  ghost predicate UniqueFds(s: seq<TimerNode>) {
    forall i, j | 0 <= i < j < |s| :: s[i].fd != s[j].fd
  }

  lemma FdsOfCut(s: seq<TimerNode>, k: nat)
    requires UniqueFds(s) && k < |s|
    ensures UniqueFds(Cut(s, k)) && forall i | 0 <= i < |s| && i != k :: s[i] != s[k]
  {
    forall i | 0 <= i < |s| && i != k
      ensures s[i] != s[k]
    {
      assert s[i].fd != s[k].fd;
    }
  }

  class Timers {
    var head: TimerNode?
    /** The running timers, newest first. */
    ghost var list: seq<TimerNode>

    ghost predicate Valid()
      reads this, list`next
    {
      UniqueFds(list) && Chained(list) && head == At(list, 0)
    }

    constructor ()
      ensures Valid() && list == []
    {
      head, list := null, [];
    }

    /** start_timer; fd is the descriptor that timerfd_create gives, -1 if it fails. */
    method StartTimer(interval: nat, periodic: bool, ip: Key, fd: int) returns (timer: TimerNode?)
      requires Valid() && (fd != -1 ==> forall t | t in list :: t.fd != fd)
      modifies this
      ensures Valid() && (timer == null <==> fd == -1)
      ensures timer == null ==> list == old(list)
      ensures timer != null ==> fresh(timer) && list == [timer] + old(list)
      ensures timer != null ==>
                timer.fd == fd && timer.ip == ip && timer.interval == interval && timer.periodic == periodic
      ensures timer != null ==>
                timer.valueSec * 1_000_000_000 + timer.valueNsec == interval * 1_000_000 &&
                timer.valueNsec < 1_000_000_000
      ensures timer != null ==>
                timer.intervalNsec < 1_000_000_000 &&
                timer.intervalSec * 1_000_000_000 + timer.intervalNsec == if periodic then interval * 1_000_000 else 0
    {
      if fd == -1 {
        return null;
      }
      var intervalSec := interval / 1000;
      var intervalNsec := interval % 1000 * 1_000_000;
      timer := new TimerNode(fd, ip, interval, periodic, intervalSec, intervalNsec);
      timer.next := head;
      head := timer;
      ghost var before := list;
      list := [timer] + list;
      assert forall i | 0 < i < |list| :: list[i] == before[i - 1];
    }

    /** _get_timer_from_fd */
    method GetTimerFromFd(fd: int) returns (timer: TimerNode?)
      requires Valid()
      ensures timer != null ==> timer in list && timer.fd == fd
      ensures timer == null ==> forall t | t in list :: t.fd != fd
    {
      timer := head;
      ghost var i := 0;
      while timer != null
        invariant 0 <= i <= |list| && timer == At(list, i)
        invariant forall j | 0 <= j < i :: list[j].fd != fd
        decreases |list| - i
      {
        if timer.fd == fd {
          return;
        }
        timer := timer.next;
        i := i + 1;
      }
    }

    /** stop_timer: exactly this node leaves the list. */
    method StopTimer(node: TimerNode?) returns (ghost k: nat)
      requires Valid() && (node != null ==> node in list)
      modifies this, list`next
      ensures Valid()
      ensures node == null ==> list == old(list)
      ensures node != null ==> k < |old(list)| && old(list)[k] == node && list == Cut(old(list), k)
    {
      hide UniqueFds;
      k := 0;
      if node == null {
        return;
      }
      k :| 0 <= k < |list| && list[k] == node;
      ghost var before := list;
      FdsOfCut(list, k);
      if node == head {
        head := head.next;
      }
      var tmp := head;
      ghost var i := if k == 0 then 1 else 0;
      while tmp != null && tmp.next != node
        invariant 0 <= i <= |list| && tmp == At(list, i) && (0 < k ==> i < k)
        decreases |list| - i
      {
        tmp := tmp.next;
        i := i + 1;
      }
      if tmp != null && tmp.next != null {
        tmp.next := tmp.next.next;
      }
      list := Cut(list, k);
      assert forall j | 0 <= j < |list| :: list[j] == before[if j < k then j else j + 1];
    }

    /** terminate_timer_manager, up to the thread. */
    method TerminateTimerManager()
      requires Valid()
      modifies this, list`next
      ensures Valid() && list == []
    {
      while head != null
        invariant Valid() && forall i | 0 <= i < |list| :: list[i] in old(list)
        decreases |list|
      {
        ghost var k := StopTimer(head);
      }
    }
  }
}
