/** The table of event slots, and what one pass of the event loop does to it. */
module EventTable {
  import opened PollSystem
  import opened Connections

  /** What the event loop sees between two of its steps: the poll table with its connections,
      the connection lists, the open descriptors and the listening socket. */
  datatype Table = Table(
    fds: seq<PollFd>, data: seq<SSLConn?>,
    active: seq<SSLConn>, free: seq<SSLConn>, freed: seq<SSLConn>,
    open: set<int>, socketfd: int, numConns: int)
  {
    /** The listener has the last slot. */
    function Listener(): int {
      |fds| - 1
    }

    predicate Bound(k: int)
      requires 0 <= k < |data|
    {
      data[k] != null
    }

    predicate BoundToActive(k: int)
      requires 0 <= k < |data|
    {
      data[k] != null && data[k] in active
    }

    /** A slot whose connection has been freed and whose descriptor is closed. */
    predicate Stale(k: int)
      requires 0 <= k < |data| == |fds|
    {
      data[k] != null && data[k] in freed && data[k] !in active && data[k] !in free && fds[k].fd !in open
    }

    function BoundSlots(): set<int> {
      set k | 0 <= k < |data| && Bound(k)
    }

    function ActiveSlots(): set<int> {
      set k | 0 <= k < |data| && BoundToActive(k)
    }

    /** The slots that will still be occupied when the listener's turn comes, if slots
        0, ..., i - 1 have been handled in this pass. */
    function Occupied(i: int): set<int> {
      set k | 0 <= k < |data| && Bound(k) && (k < i || BoundToActive(k))
    }

    /** The most slots that may be occupied while the listener can still accept. */
    function Capacity(): nat {
      if numConns <= 0 then 0 else numConns - 1
    }

    /** Slots and connections agree, and no descriptor is in two slots. */
    ghost predicate Consistent() {
      && |fds| == |data| >= 1
      && data[Listener()] == null
      && (fds[Listener()].fd == DISABLED_EVENT_SLOT_FD || fds[Listener()].fd == socketfd)
      && socketfd >= -1 && (socketfd != -1 ==> socketfd in open)
      && (forall c | c in active :: c.sockfd >= 0 && c.sockfd in open && c.sockfd != socketfd)
      && (forall c | c in free :: c.sockfd >= 0 && c.sockfd in open && c.sockfd != socketfd)
      && (forall c | c in active :: c !in free)
      && (forall k | 0 <= k < Listener() :: data[k] == null <==> fds[k].fd == DISABLED_EVENT_SLOT_FD)
      && (forall k | 0 <= k < Listener() && data[k] != null ::
            (data[k] in active || data[k] in free ==> fds[k].fd == data[k].sockfd) && fds[k].fd >= 0)
      && (forall j, k | 0 <= j < k < Listener() && data[j] != null && data[k] != null :: fds[j].fd != fds[k].fd)
      && fds[Listener()].events == {POLLIN}
      && (forall k | 0 <= k < Listener() && data[k] != null :: fds[k].events == {POLLIN})
    }

    /** The listener is on, or some slot waits to be released, only while a slot is spare. */
    ghost predicate Spare() {
      fds != [] && (fds[Listener()].fd != DISABLED_EVENT_SLOT_FD || ActiveSlots() != BoundSlots()) ==>
        |ActiveSlots()| <= Capacity()
    }

    /** Between two passes: every bound slot is active or stale. */
    ghost predicate AtPoll() {
      && Consistent() && Spare() && free == [] && |active| <= numConns
      && (forall k | 0 <= k < Listener() && data[k] != null :: data[k] in active || Stale(k))
    }

    /** In a pass, when the slots before `i` have been handled. */
    ghost predicate InPass(i: int) {
      Consistent() && Spare() && Handled(i)
    }

    ghost predicate Handled(i: int)
      requires Consistent()
    {
      && 0 <= i <= |fds| && |active| <= numConns
      && (forall k | 0 <= k < i && k < Listener() && data[k] != null :: data[k] in active || data[k] in free)
      && (forall k | i <= k < Listener() && data[k] != null ::
            data[k] in active || (Stale(k) && fds[k].revents == {POLLNVAL}))
      && (forall k | i <= k < Listener() && data[k] == null :: fds[k].revents == {})
      && (i <= Listener() && fds[Listener()].revents != {} ==>
            socketfd != -1 && fds[Listener()].fd == socketfd && |Occupied(i)| <= Capacity())
    }
  }

  /** At the start only the listener's slot is in use. */
  lemma AtStart(t: Table)
    requires |t.fds| == |t.data| >= 1 && t.active == [] && t.free == [] && t.numConns >= 0
    requires t.socketfd >= 0 && t.socketfd in t.open && t.fds[t.Listener()].fd == t.socketfd
    requires forall k | 0 <= k < t.Listener() :: t.fds[k].fd == DISABLED_EVENT_SLOT_FD
    requires t.fds[t.Listener()].events == {POLLIN} && forall k | 0 <= k < |t.data| :: t.data[k] == null
    ensures t.AtPoll()
  {
    assert t.ActiveSlots() == {};
  }

  ghost predicate PollAnswers(before: seq<PollFd>, after: seq<PollFd>, open: set<int>) {
    && |after| == |before|
    && forall k | 0 <= k < |after| ::
         && after[k].fd == before[k].fd
         && after[k].events == before[k].events
         && after[k].revents <= after[k].events + ALWAYS_REPORTED
         && (after[k].fd < 0 ==> after[k].revents == {})
         && (after[k].fd >= 0 && after[k].fd !in open ==> after[k].revents == {POLLNVAL})
  }

  lemma AfterPoll(t: Table, fds: seq<PollFd>)
    requires t.AtPoll() && PollAnswers(t.fds, fds, t.open)
    ensures t.(fds := fds).InPass(0)
  {
    var u := t.(fds := fds);
    assert u.ActiveSlots() == t.ActiveSlots() && u.BoundSlots() == t.BoundSlots();
    assert u.Occupied(0) == u.ActiveSlots();
    forall k | 0 <= k < u.Listener() && u.data[k] != null
      ensures u.data[k] in u.active || (u.Stale(k) && u.fds[k].revents == {POLLNVAL})
    {
      assert t.data[k] in t.active || t.Stale(k);
    }
  }

  /** The next poll may report slot `k` as readable. */
  ghost predicate CanBeReadable(t: Table, k: nat)
    requires k < |t.fds|
  {
    exists fds: seq<PollFd> :: PollAnswers(t.fds, fds, t.open) && POLLIN in fds[k].revents
  }

  /** poll's answer when nothing but slot `k` is ready; closed descriptors are always reported. */
  function OnlyReady(t: Table, k: nat): seq<PollFd> {
    seq(|t.fds|, j requires 0 <= j < |t.fds| => t.fds[j].(revents :=
      if t.fds[j].fd < 0 then {} else if t.fds[j].fd !in t.open then {POLLNVAL}
      else if j == k then {POLLIN} else {}))
  }

  /** At every poll the slots that can be reported as readable are exactly those of the active connections
      and, while it is on, the listener's: no active client goes unheard, and no other slot is ever served. */
  lemma ReadableSlots(t: Table, k: nat)
    requires t.AtPoll() && k < |t.fds|
    ensures CanBeReadable(t, k) <==>
      t.BoundToActive(k) || (k == t.Listener() && t.fds[k].fd != DISABLED_EVENT_SLOT_FD)
  {
    if t.BoundToActive(k) || (k == t.Listener() && t.fds[k].fd != DISABLED_EVENT_SLOT_FD) {
      assert PollAnswers(t.fds, OnlyReady(t, k), t.open) && POLLIN in OnlyReady(t, k)[k].revents;
    } else if k < t.Listener() && t.data[k] != null {
      assert t.Stale(k);
    }
  }

  /** A slot without an answer that needs work is passed over. */
  lemma AfterSkip(t: Table, i: nat)
    requires t.InPass(i) && i < |t.fds| && t.fds[i].revents == {}
    ensures t.InPass(i + 1)
  {
    if i < t.Listener() {
      assert t.Occupied(i + 1) == t.Occupied(i);
    }
  }

  function SlotReleased(t: Table, i: nat): Table
    requires i < |t.fds| == |t.data|
  {
    t.(data := t.data[i := null],
       fds := t.fds[i := PollFd(DISABLED_EVENT_SLOT_FD, {}, {})][t.Listener() := t.fds[t.Listener()].(fd := t.socketfd)])
  }

  /** An error on a client: its slot is released and the listener is switched on. */
  lemma AfterRelease(t: Table, i: nat)
    requires t.InPass(i) && i < t.Listener() && t.data[i] != null
    ensures SlotReleased(t, i).InPass(i + 1)
  {
    ReleaseKeepsConsistent(t, i);
    ReleaseFreesOneSlot(t, i);
    ActiveSlotsFit(t);
  }

  lemma ReleaseKeepsConsistent(t: Table, i: nat)
    requires t.Consistent() && i < t.Listener()
    ensures SlotReleased(t, i).Consistent()
  {}

  lemma ReleaseFreesOneSlot(t: Table, i: nat)
    requires t.Consistent() && i < t.Listener() && t.data[i] != null
    ensures SlotReleased(t, i).BoundSlots() == t.BoundSlots() - {i}
    ensures SlotReleased(t, i).ActiveSlots() == t.ActiveSlots() - {i}
    ensures SlotReleased(t, i).Occupied(i + 1) == t.Occupied(i) - {i}
    ensures i in t.ActiveSlots() || t.ActiveSlots() != t.BoundSlots()
  {
    assert i in t.BoundSlots();
  }

  lemma ActiveSlotsFit(t: Table)
    requires t.Consistent()
    ensures |t.ActiveSlots()| <= |t.active|
  {
    SlotsOfList(t, t.active);
    assert t.ActiveSlots() == SlotsOf(t, t.active);
  }

  function SlotsOf(t: Table, s: seq<SSLConn>): set<int> {
    set k | 0 <= k < |t.data| && t.data[k] != null && t.data[k] in s
  }

  /** No two slots hold the same live connection. */
  lemma OneSlotEach(t: Table, j: int, k: int)
    requires t.Consistent() && 0 <= j < |t.data| && 0 <= k < |t.data|
    requires t.data[k] != null && t.data[j] == t.data[k] && (t.data[k] in t.active || t.data[k] in t.free)
    ensures j == k
  {}

  lemma {:induction false} SlotsOfList(t: Table, s: seq<SSLConn>)
    requires t.Consistent() && forall c | c in s :: c in t.active
    ensures |SlotsOf(t, s)| <= |s|
  {
    if s == [] {
      assert SlotsOf(t, s) == {};
    } else {
      SlotsOfList(t, s[1..]);
      SlotsOfHead(t, s);
    }
  }

  lemma SlotsOfHead(t: Table, s: seq<SSLConn>)
    requires t.Consistent() && s != [] && s[0] in t.active
    ensures |SlotsOf(t, s)| <= |SlotsOf(t, s[1..])| + 1
  {
    assert s == [s[0]] + s[1..];
    if k :| 0 <= k < |t.data| && t.data[k] == s[0] {
      forall j | j in SlotsOf(t, s) && j != k ensures j in SlotsOf(t, s[1..]) {
        if t.data[j] == s[0] { OneSlotEach(t, j, k); }
      }
      SubsetSize(SlotsOf(t, s), SlotsOf(t, s[1..]) + {k});
    } else {
      assert SlotsOf(t, s) == SlotsOf(t, s[1..]);
    }
  }

  lemma SubsetSize(a: set<int>, b: set<int>)
    requires a <= b
    ensures |a| <= |b|
    ensures a != b ==> |a| < |b|
  {
    var rest := b - a;
    assert b == a + rest;
    assert |b| == |a| + |rest|;
  }

  /** An error on the listener: the listening socket is closed for good. */
  function ListenerClosed(t: Table): Table
    requires |t.fds| > 0
  {
    t.(open := t.open - {t.socketfd}, socketfd := -1,
       fds := t.fds[t.Listener() := t.fds[t.Listener()].(fd := DISABLED_EVENT_SLOT_FD)])
  }

  lemma AfterListenerError(t: Table)
    requires t.InPass(t.Listener())
    ensures ListenerClosed(t).InPass(|t.fds|)
  {
    var u := ListenerClosed(t);
    assert u.BoundSlots() == t.BoundSlots() && u.ActiveSlots() == t.ActiveSlots();
  }

  /** Only a slot of an active connection is ever served. */
  lemma ServedSlotIsActive(t: Table, i: nat)
    requires t.InPass(i) && i < |t.fds| && POLLIN in t.fds[i].revents && t.data[i] != null
    ensures i < t.Listener() && t.data[i] in t.active
  {}

  /** A slot without a connection that has an answer is the listener's, and its socket is open. */
  lemma EmptySlotIsListener(t: Table, i: nat)
    requires t.InPass(i) && i < |t.fds| && t.fds[i].revents != {} && t.data[i] == null
    ensures i == t.Listener() && t.socketfd in t.open
  {}

  lemma ListenerHasNoConnection(t: Table, i: int)
    requires t.InPass(i)
    ensures |t.fds| == |t.data| >= 1 && t.data[t.Listener()] == null
  {}

  lemma AfterUse(t: Table, i: nat)
    requires t.InPass(i) && i < t.Listener() && t.data[i] != null && t.data[i] in t.active
    ensures t.InPass(i + 1)
  {
    assert t.Occupied(i + 1) == t.Occupied(i);
  }

  function ConnectionClosed(t: Table, c: SSLConn, k: nat): Table
    requires k < |t.active|
  {
    t.(active := t.active[..k] + t.active[k + 1..], free := [c] + t.free)
  }

  lemma AfterClose(t: Table, i: nat, k: nat)
    requires t.InPass(i) && i < t.Listener() && k < |t.active| && t.data[i] == t.active[k]
    requires Distinct(t.active)
    ensures ConnectionClosed(t, t.active[k], k).InPass(i + 1)
  {
    CloseKeepsConsistent(t, k);
    CloseFreesOneSlot(t, i, k);
    ActiveSlotsFit(t);
    CloseIsHandled(t, i, k);
  }

  lemma CloseIsHandled(t: Table, i: nat, k: nat)
    requires t.Consistent() && t.Handled(i) && i < t.Listener() && k < |t.active| && t.data[i] == t.active[k]
    requires Distinct(t.active) && ConnectionClosed(t, t.active[k], k).Consistent()
    ensures ConnectionClosed(t, t.active[k], k).Handled(i + 1)
  {
    CloseFreesOneSlot(t, i, k);
    assert t.Occupied(i + 1) == t.Occupied(i);
    OthersStay(t, i, k);
  }

  lemma OthersStay(t: Table, i: nat, k: nat)
    requires t.Consistent() && i < t.Listener() && k < |t.active| && t.data[i] == t.active[k]
    requires Distinct(t.active)
    ensures forall j | 0 <= j < |t.data| && j != i ::
      ConnectionClosed(t, t.active[k], k).BoundToActive(j) == t.BoundToActive(j)
    ensures forall j | 0 <= j < |t.data| && t.Stale(j) && j != i :: ConnectionClosed(t, t.active[k], k).Stale(j)
  {
    var c := t.active[k];
    var u := ConnectionClosed(t, c, k);
    assert t.active == t.active[..k] + [c] + t.active[k + 1..];
    forall j | 0 <= j < |t.data| && t.data[j] == c ensures j == i { OneSlotEach(t, j, i); }
    assert forall d | d in t.active && d != c :: d in u.active;
  }

  lemma CloseKeepsConsistent(t: Table, k: nat)
    requires t.Consistent() && k < |t.active| && Distinct(t.active)
    ensures ConnectionClosed(t, t.active[k], k).Consistent()
  {
    assert t.active == t.active[..k] + [t.active[k]] + t.active[k + 1..];
  }

  lemma CloseFreesOneSlot(t: Table, i: nat, k: nat)
    requires t.Consistent() && i < t.Listener() && k < |t.active| && t.data[i] == t.active[k]
    requires Distinct(t.active)
    ensures ConnectionClosed(t, t.active[k], k).ActiveSlots() == t.ActiveSlots() - {i}
    ensures ConnectionClosed(t, t.active[k], k).BoundSlots() == t.BoundSlots()
    ensures ConnectionClosed(t, t.active[k], k).Occupied(i + 1) == t.Occupied(i + 1)
    ensures i in t.ActiveSlots()
  {
    var u := ConnectionClosed(t, t.active[k], k);
    OthersStay(t, i, k);
    assert t.active[k] !in u.active;
  }

  /** The first free slot among the first `n`, or -1. */
  function FirstFree(fds: seq<PollFd>, i: nat, n: nat): int
    requires i <= n <= |fds|
    decreases n - i
  {
    if i == n then -1 else if fds[i].fd == DISABLED_EVENT_SLOT_FD then i else FirstFree(fds, i + 1, n)
  }

  lemma {:induction false} FirstFreeIsFree(fds: seq<PollFd>, i: nat, n: nat)
    requires i <= n <= |fds|
    ensures var s := FirstFree(fds, i, n);
      if s == -1 then forall k | i <= k < n :: fds[k].fd != DISABLED_EVENT_SLOT_FD
      else i <= s < n && fds[s].fd == DISABLED_EVENT_SLOT_FD && forall k | i <= k < s :: fds[k].fd != DISABLED_EVENT_SLOT_FD
    decreases n - i
  {
    if i < n { FirstFreeIsFree(fds, i + 1, n); }
  }

  function Interval(n: nat): (s: set<int>)
    ensures forall k | k in s :: 0 <= k < n
  {
    if n == 0 then {} else Interval(n - 1) + {n - 1}
  }

  lemma {:induction false} IntervalSize(n: nat)
    ensures |Interval(n)| == n
  {
    if n > 0 { IntervalSize(n - 1); }
  }

  /** When the listener has something to accept and no more connections are allowed than there
      are slots, a slot is free. */
  lemma SlotAvailable(t: Table)
    requires t.InPass(t.Listener()) && t.fds[t.Listener()].revents != {}
    requires 1 <= t.numConns <= t.Listener()
    ensures FirstFree(t.fds, 0, t.Listener()) != -1
  {
    var n := t.Listener();
    FirstFreeIsFree(t.fds, 0, n);
    if FirstFree(t.fds, 0, n) == -1 {
      assert Interval(n) <= t.Occupied(n);
      SubsetSize(Interval(n), t.Occupied(n));
      IntervalSize(n);
    }
  }

  /** A new connection on descriptor `fd` gets slot `s`. */
  function SlotAssigned(t: Table, c: SSLConn, s: nat): Table
    requires s < |t.fds| == |t.data|
  {
    t.(active := [c] + t.active, open := t.open + {c.sockfd},
       data := t.data[s := c], fds := t.fds[s := t.fds[s].(events := {POLLIN}, fd := c.sockfd)])
  }

  function ListenerOff(t: Table): Table
    requires |t.fds| > 0
  {
    t.(fds := t.fds[t.Listener() := t.fds[t.Listener()].(fd := DISABLED_EVENT_SLOT_FD)])
  }

  function IfFull(t: Table): Table
    requires |t.fds| > 0
  {
    if |t.active| == t.numConns then ListenerOff(t) else t
  }

  lemma AfterAccept(t: Table, c: SSLConn, s: nat)
    requires t.InPass(t.Listener()) && t.fds[t.Listener()].revents != {}
    requires |t.active| < t.numConns && c !in t.active && c !in t.free && c !in t.data
    requires c.sockfd >= 0 && c.sockfd !in t.open && s < t.Listener() && t.data[s] == null
    ensures IfFull(SlotAssigned(t, c, s)).InPass(|t.fds|)
  {
    AcceptKeepsConsistent(t, c, s);
    AcceptKeepsSpare(t, c, s);
    AllHandled(SlotAssigned(t, c, s));
  }

  lemma AllHandled(t: Table)
    requires t.Consistent() && |t.active| <= t.numConns
    requires forall k | 0 <= k < t.Listener() && t.data[k] != null :: t.data[k] in t.active || t.data[k] in t.free
    ensures IfFull(t).Consistent() && IfFull(t).Handled(|t.fds|)
  {
    OffKeepsConsistent(t);
  }

  lemma AcceptKeepsSpare(t: Table, c: SSLConn, s: nat)
    requires t.Consistent() && s < t.Listener() && t.data[s] == null && c !in t.data
    requires |t.Occupied(t.Listener())| <= t.Capacity() && |t.active| < t.numConns
    requires SlotAssigned(t, c, s).Consistent()
    ensures IfFull(SlotAssigned(t, c, s)).Spare()
  {
    AcceptFillsOneSlot(t, c, s);
    ActiveSlotsFit(t);
    OffKeepsConsistent(SlotAssigned(t, c, s));
  }

  lemma AcceptKeepsConsistent(t: Table, c: SSLConn, s: nat)
    requires t.InPass(t.Listener())
    requires c !in t.active && c !in t.free
    requires c.sockfd >= 0 && c.sockfd !in t.open && s < t.Listener() && t.data[s] == null
    ensures SlotAssigned(t, c, s).Consistent()
  {}

  lemma AcceptFillsOneSlot(t: Table, c: SSLConn, s: nat)
    requires t.Consistent() && s < t.Listener() && t.data[s] == null && c !in t.data
    requires |t.Occupied(t.Listener())| <= t.Capacity()
    ensures SlotAssigned(t, c, s).BoundSlots() == t.BoundSlots() + {s}
    ensures SlotAssigned(t, c, s).ActiveSlots() == t.ActiveSlots() + {s}
    ensures |t.BoundSlots()| <= t.Capacity()
    ensures s !in t.BoundSlots() && t.ActiveSlots() <= t.BoundSlots()
    ensures t.ActiveSlots() != t.BoundSlots() ==> |t.ActiveSlots()| < |t.BoundSlots()|
  {
    assert t.Occupied(t.Listener()) == t.BoundSlots();
    NewSlotBound(t, c, s);
    SubsetSize(t.ActiveSlots(), t.BoundSlots());
  }

  lemma NewSlotBound(t: Table, c: SSLConn, s: nat)
    requires t.Consistent() && s < t.Listener() && t.data[s] == null
    requires forall k | 0 <= k < |t.data| && t.data[k] != null :: t.data[k] != c
    ensures SlotAssigned(t, c, s).BoundSlots() == t.BoundSlots() + {s}
    ensures SlotAssigned(t, c, s).ActiveSlots() == t.ActiveSlots() + {s}
  {}

  lemma OffKeepsConsistent(t: Table)
    requires t.Consistent()
    ensures ListenerOff(t).Consistent()
    ensures ListenerOff(t).BoundSlots() == t.BoundSlots() && ListenerOff(t).ActiveSlots() == t.ActiveSlots()
  {}

  /** Nothing was accepted; a descriptor may have been opened and lost. */
  lemma AfterNoAccept(t: Table, descriptors: set<int>)
    requires t.InPass(t.Listener()) && t.open <= descriptors
    requires forall c | c in t.freed :: c !in t.data || c in t.active || c in t.free
    ensures IfFull(t.(open := descriptors)).InPass(|t.fds|)
  {
    var u := IfFull(t.(open := descriptors));
    assert u.BoundSlots() == t.BoundSlots() && u.ActiveSlots() == t.ActiveSlots();
  }

  /** `u` is what handling slot `i` makes of `t`. */
  ghost predicate SlotStep(t: Table, i: nat, u: Table)
    requires i < |t.fds| == |t.data|
  {
    if t.fds[i].revents == {} then u == t
    else if POLLIN !in t.fds[i].revents then
      u == if t.data[i] == null then ListenerClosed(t) else SlotReleased(t, i)
    else if t.data[i] == null then AcceptStep(t, u)
    else u == t || (t.data[i] in t.active && u == ConnectionClosed(t, t.data[i], Position(t.active, t.data[i])))
  }

  /** Nothing was accepted, or a new connection has got the first free slot. */
  ghost predicate AcceptStep(t: Table, u: Table)
    requires |t.fds| == |t.data| > 0
  {
    || (t.open <= u.open && u == IfFull(t.(open := u.open)))
    || (var s := FirstFree(t.fds, 0, t.Listener());
        0 <= s < |t.fds| && u.active != [] && u == IfFull(SlotAssigned(t, u.active[0], s)))
  }

  /** The connections of the first `n` slots that poll reported as readable. */
  function Ready(t: Table, n: nat): seq<SSLConn>
    requires n <= |t.fds| == |t.data|
  {
    if n == 0 then [] else Ready(t, n - 1) + ReadyAt(t, n - 1)
  }

  function ReadyAt(t: Table, i: nat): seq<SSLConn>
    requires i < |t.fds| == |t.data|
  {
    if POLLIN in t.fds[i].revents && t.data[i] != null then [t.data[i]] else []
  }

  /** What was reported for the slots from `i` on, and their connections. */
  ghost predicate SameFrom(t: Table, u: Table, i: nat) {
    && |u.fds| == |u.data| == |t.fds| == |t.data|
    && forall k | i <= k < |t.fds| :: u.fds[k].revents == t.fds[k].revents && u.data[k] == t.data[k]
  }

  lemma StepKeepsLaterSlots(t: Table, i: nat, u: Table)
    requires t.InPass(i) && i < |t.fds| && SlotStep(t, i, u)
    ensures SameFrom(t, u, i + 1)
  {
    if t.fds[i].revents != {} && t.data[i] == null { EmptySlotIsListener(t, i); }
  }

  function ClosedFreed(t: Table): Table {
    t.(freed := t.freed + t.free, free := [], open := t.open - Descriptors(t.free))
  }

  function ListenerOn(t: Table): Table
    requires |t.fds| > 0
  {
    t.(fds := t.fds[t.Listener() := t.fds[t.Listener()].(fd := t.socketfd)])
  }

  /** After a pass: the closed connections are freed, and the listener is switched on again
      when another connection is allowed. */
  lemma AfterPass(t: Table)
    requires t.InPass(|t.fds|)
    requires forall c, d | c in t.active && d in t.free :: c.sockfd != d.sockfd
    ensures ClosedFreed(t).AtPoll()
    ensures |t.active| < t.numConns ==> ListenerOn(ClosedFreed(t)).AtPoll()
  {
    var u := ClosedFreed(t);
    assert u.BoundSlots() == t.BoundSlots() && u.ActiveSlots() == t.ActiveSlots();
    forall k | 0 <= k < u.Listener() && u.data[k] != null
      ensures u.data[k] in u.active || u.Stale(k)
    {
      if t.data[k] in t.free { assert t.data[k].sockfd in Descriptors(t.free); }
    }
    assert u.Consistent() by {
      forall c | c in t.active ensures c.sockfd in u.open {}
    }
    var v := ListenerOn(u);
    assert v.BoundSlots() == u.BoundSlots() && v.ActiveSlots() == u.ActiveSlots();
    ActiveSlotsFit(t);
  }

  // ------------------------------------------------------- whole passes

  ghost predicate SameShape(trace: seq<Table>, n: nat) {
    forall k | 0 <= k < |trace| :: |trace[k].fds| == |trace[k].data| == n
  }

  /** The table before each of the first slots is handled, and after the last of them. */
  ghost predicate SlotSteps(trace: seq<Table>, n: nat) {
    && n > 0 && |trace| >= 1 && SameShape(trace, n) && |trace| <= n + 1
    && (forall k {:trigger trace[k]} | 0 <= k < |trace| - 1 :: SlotStep(trace[k], k, trace[k + 1]))
  }

  /** What the end of a pass makes of the table. */
  ghost predicate PassEnd(t: Table, u: Table)
    requires |t.fds| > 0
  {
    u == ClosedFreed(t) || (|t.active| < t.numConns && u == ListenerOn(ClosedFreed(t)))
  }

  ghost predicate PassBegins(t: Table, trace: seq<Table>) {
    && |trace| >= 1 && trace[0] == t.(fds := trace[0].fds)
    && PollAnswers(t.fds, trace[0].fds, t.open)
  }

  /** One pass of the event loop leads from `t` to `u`, with the tables in between. */
  ghost predicate PassStep(t: Table, trace: seq<Table>, u: Table) {
    && PassBegins(t, trace) && SlotSteps(trace, |t.fds|) && |trace| == |t.fds| + 1
    && PassEnd(trace[|t.fds|], u)
  }

  /** A pass that begins with `t` ends the program: another connection is allowed and the listener is ready,
      but no slot is free. */
  ghost predicate GivesUp(t: Table, trace: seq<Table>) {
    && PassBegins(t, trace) && SlotSteps(trace, |t.fds|) && |trace| == |t.fds|
    && NoSlotLeft(trace[|t.fds| - 1])
  }

  ghost predicate NoSlotLeft(t: Table)
    requires |t.fds| == |t.data| > 0
  {
    && POLLIN in t.fds[t.Listener()].revents && t.data[t.Listener()] == null
    && |t.active| < t.numConns && FirstFree(t.fds, 0, t.Listener()) == -1
  }

  lemma TraceStarts(t: Table)
    requires |t.fds| == |t.data| > 0
    ensures SlotSteps([t], |t.fds|)
  {}

  lemma TraceExtends(trace: seq<Table>, u: Table, n: nat)
    requires SlotSteps(trace, n) && |trace| <= n && |u.fds| == |u.data| == n
    requires SlotStep(trace[|trace| - 1], |trace| - 1, u)
    ensures SlotSteps(trace + [u], n)
  {
    var longer := trace + [u];
    forall k {:trigger longer[k]} | 0 <= k < |longer| - 1 ensures SlotStep(longer[k], k, longer[k + 1]) {
      if k < |trace| - 1 { assert longer[k] == trace[k] && longer[k + 1] == trace[k + 1]; }
    }
  }

  // ------------------------------------------------------- too many connections

  lemma {:induction false} FirstFreeAfter(fds: seq<PollFd>, i: nat, n: nat, m: nat)
    requires i <= n <= m <= |fds|
    requires forall k | i <= k < n :: fds[k].fd != DISABLED_EVENT_SLOT_FD
    requires n < m ==> fds[n].fd == DISABLED_EVENT_SLOT_FD
    ensures FirstFree(fds, i, m) == if n < m then n else -1
    decreases n - i
  {
    if i < n { FirstFreeAfter(fds, i + 1, n, m); }
  }

  /** The first `n` slots hold the active connections, the others are free, and the listener is on. */
  ghost predicate Filled(t: Table, n: nat) {
    && t.AtPoll() && n <= t.Listener() && |t.active| == n
    && (forall k | 0 <= k < n :: t.data[k] != null && t.data[k] in t.active)
    && (forall k | n <= k < t.Listener() :: t.data[k] == null)
    && t.socketfd != -1 && t.fds[t.Listener()].fd == t.socketfd
  }

  /** poll reports the listener as ready, and nothing else. */
  function Reported(t: Table): Table {
    t.(fds := seq(|t.fds|, k requires 0 <= k < |t.fds| =>
      t.fds[k].(revents := if k == t.Listener() then {POLLIN} else {})))
  }

  lemma ReportedIsAnswer(t: Table, n: nat)
    requires Filled(t, n)
    ensures PollAnswers(t.fds, Reported(t).fds, t.open) && Reported(t).InPass(0)
    ensures FirstFree(Reported(t).fds, 0, t.Listener()) == if n < t.Listener() then n else -1
  {
    AfterPoll(t, Reported(t).fds);
    FirstFreeAfter(Reported(t).fds, 0, n, t.Listener());
  }

  lemma {:induction false} SkipTo(t: Table, i: nat)
    requires t.InPass(0) && i <= t.Listener() && forall k | 0 <= k < t.Listener() :: t.fds[k].revents == {}
    ensures t.InPass(i)
  {
    if i > 0 {
      SkipTo(t, i - 1);
      AfterSkip(t, i - 1);
    }
  }

  /** A connection that does not occur in the table, with a descriptor that is not open. */
  ghost predicate New(t: Table, c: SSLConn) {
    c !in t.active && c !in t.free && c !in t.data && c.sockfd >= 0 && c.sockfd !in t.open
  }

  /** The table after a pass in which `c` is accepted into slot `n`. */
  function Accepted(t: Table, c: SSLConn, n: nat): Table
    requires n < |t.fds| == |t.data|
  {
    SlotAssigned(Reported(t), c, n)
  }

  function Unchanged(t: Table): seq<Table> {
    seq(|t.fds|, k => Reported(t))
  }

  lemma UnchangedSteps(t: Table, n: nat)
    requires Filled(t, n)
    ensures PassBegins(t, Unchanged(t)) && SlotSteps(Unchanged(t), |t.fds|)
  {
    ReportedIsAnswer(t, n);
  }

  lemma AcceptedInPass(t: Table, n: nat, c: SSLConn)
    requires Filled(t, n) && n < t.Listener() < t.numConns && New(t, c)
    ensures IfFull(Accepted(t, c, n)) == Accepted(t, c, n) && Accepted(t, c, n).InPass(|t.fds|)
  {
    var r := Reported(t);
    ReportedIsAnswer(t, n);
    SkipTo(r, t.Listener());
    AfterAccept(r, c, n);
  }

  lemma AcceptedIsFilled(t: Table, n: nat, c: SSLConn)
    requires Filled(t, n) && n < t.Listener() < t.numConns && New(t, c)
    ensures PassEnd(Accepted(t, c, n), Accepted(t, c, n)) && Filled(Accepted(t, c, n), n + 1)
  {
    hide Table.InPass;
    var u := Accepted(t, c, n);
    AcceptedInPass(t, n, c);
    AfterPass(u);
    assert ClosedFreed(u) == u;
  }

  lemma AcceptedIsStep(t: Table, n: nat, c: SSLConn)
    requires Filled(t, n) && n < t.Listener() < t.numConns && New(t, c)
    ensures |t.fds| == |t.data| && SlotStep(Reported(t), t.Listener(), Accepted(t, c, n))
  {
    hide Table.InPass;
    var u := Accepted(t, c, n);
    ReportedIsAnswer(t, n);
    AcceptedInPass(t, n, c);
    assert u.active[0] == c;
  }

  /** Accepting one connection is a pass of the event loop. */
  lemma AcceptIsPass(t: Table, n: nat, c: SSLConn)
    requires Filled(t, n) && n < t.Listener() < t.numConns && New(t, c)
    ensures PassStep(t, Unchanged(t) + [Accepted(t, c, n)], Accepted(t, c, n))
    ensures Filled(Accepted(t, c, n), n + 1)
  {
    hide Table.AtPoll, SlotStep, Reported, SlotAssigned, PassEnd;
    UnchangedSteps(t, n);
    AcceptedIsStep(t, n, c);
    AcceptedIsFilled(t, n, c);
    SameSize(t, c, n);
    TraceExtends(Unchanged(t), Accepted(t, c, n), |t.fds|);
  }

  lemma SameSize(t: Table, c: SSLConn, n: nat)
    requires n < |t.fds| == |t.data|
    ensures |Accepted(t, c, n).fds| == |Accepted(t, c, n).data| == |t.fds| && Accepted(t, c, n).numConns == t.numConns
  {}

  lemma FullGivesUp(t: Table, n: nat)
    requires Filled(t, n) && n == t.Listener() < t.numConns
    ensures GivesUp(t, Unchanged(t))
  {
    UnchangedSteps(t, n);
    ReportedIsAnswer(t, n);
  }

  /** Connections that can arrive one after the other. */
  ghost predicate Arrivals(t: Table, conns: seq<SSLConn>) {
    && (forall c | c in conns :: New(t, c))
    && (forall i, j | 0 <= i < j < |conns| :: conns[i] != conns[j] && conns[i].sockfd != conns[j].sockfd)
  }

  lemma ArrivalsGoOn(t: Table, n: nat, conns: seq<SSLConn>)
    requires n < |t.fds| == |t.data| && conns != [] && Arrivals(t, conns)
    ensures Arrivals(Accepted(t, conns[0], n), conns[1..])
  {
    var u := Accepted(t, conns[0], n);
    forall c | c in conns[1..] ensures New(u, c) {
      assert c in conns && New(t, c);
      var i :| 0 <= i < |conns[1..]| && conns[1..][i] == c;
      assert conns[i + 1] == c;
      assert forall x | x in u.data :: x in t.data || x == conns[0];
    }
  }

  /** A run of the event loop: one pass leads from each table to the next. */
  ghost predicate RunSoFar(tables: seq<Table>, traces: seq<seq<Table>>) {
    && |tables| == |traces| + 1
    && (forall k {:trigger traces[k]} | 0 <= k < |traces| :: PassStep(tables[k], traces[k], tables[k + 1]))
  }

  lemma RunGoesOn(tables: seq<Table>, traces: seq<seq<Table>>, trace: seq<Table>, u: Table)
    requires RunSoFar(tables, traces) && PassStep(tables[|traces|], trace, u)
    ensures RunSoFar(tables + [u], traces + [trace])
  {
    hide PassStep;
    var us, vs := tables + [u], traces + [trace];
    forall k {:trigger vs[k]} | 0 <= k < |vs| ensures PassStep(us[k], vs[k], us[k + 1]) {
      if k < |traces| { assert vs[k] == traces[k] && us[k] == tables[k] && us[k + 1] == tables[k + 1]; }
    }
  }

  lemma RunEnds(tables: seq<Table>, traces: seq<seq<Table>>, trace: seq<Table>)
    requires RunSoFar(tables, traces) && GivesUp(tables[|traces|], trace)
    ensures RunToTheEnd(tables, traces + [trace])
  {
    hide PassStep, GivesUp;
    var vs := traces + [trace];
    forall k {:trigger vs[k]} | 0 <= k < |tables| - 1 ensures PassStep(tables[k], vs[k], tables[k + 1]) {
      assert vs[k] == traces[k];
    }
  }

  /** Likewise a run that ends the program: the pass after the last table finds no slot. */
  ghost predicate RunToTheEnd(tables: seq<Table>, traces: seq<seq<Table>>) {
    && |tables| == |traces| >= 1
    && (forall k {:trigger traces[k]} | 0 <= k < |tables| - 1 :: PassStep(tables[k], traces[k], tables[k + 1]))
    && GivesUp(tables[|tables| - 1], traces[|tables| - 1])
  }

  lemma RunBegins(t: Table, trace: seq<Table>, tables: seq<Table>, traces: seq<seq<Table>>)
    requires RunToTheEnd(tables, traces) && PassStep(t, trace, tables[0])
    ensures RunToTheEnd([t] + tables, [trace] + traces)
  {
    hide PassStep, GivesUp;
    var us, vs := [t] + tables, [trace] + traces;
    forall k {:trigger vs[k]} | 0 <= k < |us| - 1 ensures PassStep(us[k], vs[k], us[k + 1]) {
      if k > 0 { assert us[k] == tables[k - 1] && vs[k] == traces[k - 1] && us[k + 1] == tables[k]; }
    }
    assert us[|us| - 1] == tables[|tables| - 1] && vs[|us| - 1] == traces[|tables| - 1];
  }

  lemma {:induction false} FillUp(t: Table, n: nat, conns: seq<SSLConn>)
    returns (tables: seq<Table>, traces: seq<seq<Table>>)
    requires Filled(t, n) && t.Listener() < t.numConns
    requires Arrivals(t, conns) && |conns| == t.Listener() - n
    ensures RunToTheEnd(tables, traces) && tables[0] == t && |tables| == |conns| + 1
    decreases |conns|
  {
    hide PassStep, GivesUp, Table.Spare;
    if conns == [] {
      FullGivesUp(t, n);
      tables, traces := [t], [Unchanged(t)];
    } else {
      hide Accepted, RunToTheEnd;
      var u := Accepted(t, conns[0], n);
      AcceptIsPass(t, n, conns[0]);
      ArrivalsGoOn(t, n, conns);
      SameSize(t, conns[0], n);
      tables, traces := FillUp(u, n + 1, conns[1..]);
      RunBegins(t, Unchanged(t) + [u], tables, traces);
      tables, traces := [t] + tables, [Unchanged(t) + [u]] + traces;
    }
  }

  /** The promise that a slot is always found holds only while no more connections are allowed than there are
      slots: otherwise the loop's own passes lead from the start to the end of the program, when as many clients
      as there are slots arrive, and then one more. */
  lemma TooManyConnectionsFillTable(t: Table, conns: seq<SSLConn>) returns (tables: seq<Table>, traces: seq<seq<Table>>)
    requires |t.fds| == |t.data| >= 1 && t.active == [] && t.free == [] && t.numConns >= 0
    requires t.socketfd >= 0 && t.socketfd in t.open && t.fds[t.Listener()].fd == t.socketfd
    requires forall k | 0 <= k < t.Listener() :: t.fds[k].fd == DISABLED_EVENT_SLOT_FD
    requires t.fds[t.Listener()].events == {POLLIN} && forall k | 0 <= k < |t.data| :: t.data[k] == null
    requires t.Listener() < t.numConns && Arrivals(t, conns) && |conns| == t.Listener()
    ensures RunToTheEnd(tables, traces) && tables[0] == t && |tables| == |conns| + 1
  {
    AtStart(t);
    tables, traces := FillUp(t, 0, conns);
  }
}
