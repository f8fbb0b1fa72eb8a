/** The server's connections: the active list, the list of closed connections that are yet to
    be freed, and the record of what happened to every connection. */
module Connections {
  import opened PollSystem
  import opened TlsCalls

  // ------------------------------------------------------- connections

  datatype SSLState = ACCEPT | READ | WRITE | CLOSED

  /** A connection's state, the run's totals, and whether the connection is to be closed. */
  datatype Progress = Progress(state: SSLState, readBytes: int, writtenBytes: int, failed: bool)

  /** What the environment answers while a connection is accepted; `resumed` says whether the session turns out
      to be a resumed one. */
  datatype Arrival = Arrival(outOfMemory: bool, descriptor: int, noSession: bool, resumed: bool)

  class SSLConn {
    const sockfd: int
    const resumed: bool
    var state: SSLState
    var prev: SSLConn?
    var next: SSLConn?

    constructor (fd: int, resumed: bool, next: SSLConn?)
      ensures sockfd == fd && this.resumed == resumed && state == ACCEPT && prev == null && this.next == next
    {
      sockfd := fd;
      this.resumed := resumed;
      state := ACCEPT;
      prev := null;
      this.next := next;
    }
  }

  function Nth(s: seq<SSLConn>, i: int): SSLConn? {
    if 0 <= i < |s| then s[i] else null
  }

  function Elements(s: seq<SSLConn>): set<SSLConn> {
    set c | c in s
  }

  lemma ElementsMoved(s: seq<SSLConn>, k: nat, t: seq<SSLConn>)
    requires k < |s|
    ensures Elements(s[..k] + s[k + 1..]) + Elements([s[k]] + t) == Elements(s) + Elements(t)
  {
    assert s == s[..k] + [s[k]] + s[k + 1..];
  }

  ghost function Position(s: seq<SSLConn>, c: SSLConn): (k: nat)
    requires c in s
    ensures k < |s| && s[k] == c
  {
    var k :| 0 <= k < |s| && s[k] == c;
    k
  }

  ghost function Without(s: seq<SSLConn>, c: SSLConn): seq<SSLConn>
    requires c in s
  {
    s[..Position(s, c)] + s[Position(s, c) + 1..]
  }

  function Descriptors(s: seq<SSLConn>): set<int> {
    set c | c in s :: c.sockfd
  }

  lemma DescriptorsExtend(s: seq<SSLConn>, c: SSLConn)
    ensures Descriptors(s + [c]) == Descriptors(s) + {c.sockfd}
  {
    assert c in s + [c];
  }

  predicate Distinct(s: seq<SSLConn>) {
    forall i, j | 0 <= i < j < |s| :: s[i] != s[j]
  }

  lemma RemoveDistinct(s: seq<SSLConn>, k: nat)
    requires k < |s| && Distinct(s)
    ensures var rest := s[..k] + s[k + 1..]; Distinct(rest) && s[k] !in rest
    ensures var rest := s[..k] + s[k + 1..]; forall i | 0 <= i < |rest| :: rest[i] == s[if i < k then i else i + 1]
  {}

  /** `s` is a doubly-linked list that starts at `head`. */
  ghost predicate Linked(head: SSLConn?, s: seq<SSLConn>)
    reads s
  {
    && head == Nth(s, 0)
    && (forall i {:trigger s[i].next} | 0 <= i < |s| :: s[i].next == Nth(s, i + 1))
    && (forall i {:trigger s[i].prev} | 0 <= i < |s| :: s[i].prev == Nth(s, i - 1))
  }

  /** `s` is a singly-linked list that starts at `head`. */
  ghost predicate Chained(head: SSLConn?, s: seq<SSLConn>)
    reads s
  {
    && head == Nth(s, 0)
    && (forall i {:trigger s[i].next} | 0 <= i < |s| :: s[i].next == Nth(s, i + 1))
  }

  // ------------------------------------------------------- the life of a connection

  datatype Event = Opened(conn: SSLConn) | Used(conn: SSLConn) | Closed(conn: SSLConn) | Released(conn: SSLConn)

  /** Event i of the log respects the life of its connection: opened once, used and closed
      only between being opened and being closed, released once and after being closed. */
  ghost predicate LegalAt(log: seq<Event>, i: nat)
    requires i < |log|
  {
    match log[i]
    case Opened(c) => Opened(c) !in log[..i]
    case Used(c) => Opened(c) in log[..i] && Closed(c) !in log[..i]
    case Closed(c) => Opened(c) in log[..i] && Closed(c) !in log[..i]
    case Released(c) => Closed(c) in log[..i] && Released(c) !in log[..i]
  }

  ghost predicate Legal(log: seq<Event>) {
    forall i {:trigger LegalAt(log, i)} | 0 <= i < |log| :: LegalAt(log, i)
  }

  /** In a legal log a connection that was released was opened before, closed in between, used
      only between being opened and being closed, and released only once. */
  lemma LifeInOrder(log: seq<Event>, r: nat) returns (o: nat, k: nat)
    requires Legal(log) && r < |log| && log[r].Released?
    ensures o < k < r && log[o] == Opened(log[r].conn) && log[k] == Closed(log[r].conn)
    ensures forall u | 0 <= u < |log| && log[u] == Used(log[r].conn) :: o < u < k
    ensures forall i | 0 <= i < |log| && log[i] == log[r] :: i == r
  {
    var c := log[r].conn;
    assert LegalAt(log, r);
    k :| 0 <= k < r && log[k] == Closed(c);
    assert LegalAt(log, k);
    o :| 0 <= o < k && log[o] == Opened(c);
    forall u | 0 <= u < |log| && log[u] == Used(c) ensures o < u < k {
      assert LegalAt(log, u);
      var o' :| 0 <= o' < u && log[o'] == Opened(c);
      OnlyOnce(log, o, o');
    }
    forall i | 0 <= i < |log| && log[i] == log[r] ensures i == r { OnlyOnce(log, i, r); }
  }

  lemma OnlyOnce(log: seq<Event>, i: nat, j: nat)
    requires Legal(log) && i < |log| && j < |log| && log[i] == log[j] && !log[i].Used?
    ensures i == j
  {
    assert LegalAt(log, i) && LegalAt(log, j);
  }

  /** What the log says is what the lists say. */
  ghost predicate Records(log: seq<Event>, active: seq<SSLConn>, free: seq<SSLConn>, freed: seq<SSLConn>) {
    && Legal(log)
    && (forall c | c in active :: Opened(c) in log && Closed(c) !in log && Released(c) !in log)
    && (forall c | c in free :: Opened(c) in log && Closed(c) in log && Released(c) !in log)
    && (forall c | c in freed :: Opened(c) in log && Closed(c) in log && Released(c) in log)
    && (forall e | e in log :: e.conn in active || e.conn in free || e.conn in freed)
  }

  /** The connections that were used, in order. */
  function Uses(log: seq<Event>): seq<SSLConn> {
    if log == [] then []
    else
      var last := log[|log| - 1];
      Uses(log[..|log| - 1]) + (if last.Used? then [last.conn] else [])
  }

  lemma UsesAppend(log: seq<Event>, e: Event)
    ensures Uses(log + [e]) == Uses(log) + (if e.Used? then [e.conn] else [])
  {
    assert (log + [e])[..|log|] == log;
  }

  lemma LegalAppend(log: seq<Event>, e: Event)
    requires Legal(log) && LegalAt(log + [e], |log|)
    ensures Legal(log + [e])
  {
    forall i | 0 <= i < |log| ensures LegalAt(log + [e], i) {
      assert LegalAt(log, i);
      assert (log + [e])[..i] == log[..i];
    }
  }

  lemma RecordClosed(log: seq<Event>, active: seq<SSLConn>, k: nat, free: seq<SSLConn>, freed: seq<SSLConn>)
    requires k < |active| && Distinct(active)
    requires Records(log, active, free, freed)
    ensures Records(log + [Closed(active[k])], active[..k] + active[k + 1..], [active[k]] + free, freed)
  {
    var c := active[k];
    assert active == active[..k] + [c] + active[k + 1..];
    assert (log + [Closed(c)])[..|log|] == log;
    assert Opened(c) in log && Closed(c) !in log;
    LegalAppend(log, Closed(c));
  }

  lemma RecordReleased(log: seq<Event>, active: seq<SSLConn>, free: seq<SSLConn>, freed: seq<SSLConn>)
    requires free != [] && Distinct(free)
    requires Records(log, active, free, freed)
    ensures Records(log + [Released(free[0])], active, free[1..], freed + [free[0]])
  {
    var c := free[0];
    assert free == [c] + free[1..];
    assert (log + [Released(c)])[..|log|] == log;
    LegalAppend(log, Released(c));
  }

  lemma RecordOpened(log: seq<Event>, active: seq<SSLConn>, free: seq<SSLConn>, freed: seq<SSLConn>, c: SSLConn)
    requires c !in active && c !in free && c !in freed
    requires Records(log, active, free, freed)
    ensures Records(log + [Opened(c)], [c] + active, free, freed)
  {
    assert (log + [Opened(c)])[..|log|] == log;
    LegalAppend(log, Opened(c));
  }

  lemma RecordUsed(log: seq<Event>, active: seq<SSLConn>, free: seq<SSLConn>, freed: seq<SSLConn>, c: SSLConn)
    requires c in active
    requires Records(log, active, free, freed)
    ensures Records(log + [Used(c)], active, free, freed)
  {
    assert (log + [Used(c)])[..|log|] == log;
    LegalAppend(log, Used(c));
  }

  class SSLConnCtx {
    const kernel: Kernel
    const numConns: int
    const maxConnections: int
    const maxBytes: int
    const bufferLen: int
    const replyLen: int
    var sslConn: SSLConn?
    var freeSSLConn: SSLConn?
    var cnt: int
    var accepting: bool
    var numConnections: int
    var numResumed: int
    var totalReadBytes: int
    var totalWriteBytes: int

    ghost var active: seq<SSLConn>
    ghost var free: seq<SSLConn>
    ghost var freed: seq<SSLConn>
    ghost var live: set<SSLConn>
    ghost var owner: map<int, SSLConn>
    ghost var log: seq<Event>

    /** The two lists, when the free list starts at `head`. */
    ghost predicate Lists(head: SSLConn?)
      reads this, live
    {
      && live == Elements(active) + Elements(free)
      && Linked(sslConn, active)
      && Chained(head, free)
      && Distinct(active) && Distinct(free)
      && (forall c | c in active :: c !in free && c.state != CLOSED)
      && (forall c | c in free :: c.state == CLOSED)
    }

    ghost predicate Counts()
      reads this
    {
      && cnt == |active| <= numConns
      && numConnections == |free| + |freed|
      && 0 <= numResumed <= numConnections
    }

    /** Every live connection has a descriptor of its own, and it is open. */
    ghost predicate Owners()
      reads this, kernel
    {
      && owner.Keys <= kernel.open
      && (forall fd | fd in owner :: owner[fd] in live && owner[fd].sockfd == fd)
      && (forall c | c in live :: c.sockfd >= 0 && c.sockfd in owner && owner[c.sockfd] == c)
    }

    ghost predicate ValidFrom(head: SSLConn?)
      reads this, live, kernel
    {
      Lists(head) && Counts() && Owners() && Records(log, active, free, freed)
    }

    ghost predicate Valid()
      reads this, live, kernel
    {
      ValidFrom(freeSSLConn)
    }

    constructor (kernel: Kernel, numConns: int, bufferLen: int, replyLen: int, maxConns: int, maxBytes: int)
      requires numConns >= 0
      ensures Valid() && this.kernel == kernel && this.numConns == numConns
      ensures this.maxConnections == maxConns && this.maxBytes == maxBytes
      ensures active == [] && free == [] && freed == [] && live == {} && log == []
    {
      this.kernel := kernel;
      this.numConns, this.maxConnections, this.maxBytes := numConns, maxConns, maxBytes;
      this.bufferLen, this.replyLen := bufferLen, replyLen;
      sslConn, freeSSLConn, cnt, accepting := null, null, 0, false;
      numConnections, numResumed, totalReadBytes, totalWriteBytes := 0, 0, 0, 0;
      active, free, freed, live, owner, log := [], [], [], {}, map[], [];
    }

    /** Takes the connection at position `k` out of the doubly-linked list. */
    method Unlink(conn: SSLConn, ghost k: nat)
      requires Linked(sslConn, active) && Distinct(active)
      requires k < |active| && active[k] == conn
      modifies this`sslConn, this`active, active`prev, active`next
      ensures active == old(active)[..k] + old(active)[k + 1..]
      ensures Linked(sslConn, active) && Distinct(active) && conn !in active
    {
      ghost var rest := active[..k] + active[k + 1..];
      RemoveDistinct(active, k);
      assert conn.next == Nth(active, k + 1) && conn.prev == Nth(active, k - 1);
      if sslConn == conn {
        sslConn := conn.next;
      }
      if conn.next != null {
        conn.next.prev := conn.prev;
      }
      if conn.prev != null {
        conn.prev.next := conn.next;
      }
      active := rest;
    }

    /** Puts a connection at the head of the free list. */
    method PushFree(conn: SSLConn)
      requires Chained(freeSSLConn, free) && conn !in free
      modifies this`freeSSLConn, this`free, conn`next, conn`prev
      ensures Chained(freeSSLConn, free) && free == [conn] + old(free)
    {
      conn.next := freeSSLConn;
      conn.prev := null;
      freeSSLConn := conn;
      free := [conn] + free;
    }

    /** Counts a connection as handled and no longer active. */
    method CountHandled(conn: SSLConn)
      modifies this`numResumed, this`numConnections, this`cnt, this`log
      ensures numConnections == old(numConnections) + 1 && cnt == old(cnt) - 1
      ensures numResumed == old(numResumed) + (if conn.resumed then 1 else 0)
      ensures log == old(log) + [Closed(conn)]
    {
      if conn.resumed {
        numResumed := numResumed + 1;
      }
      numConnections := numConnections + 1;
      cnt := cnt - 1;
      log := log + [Closed(conn)];
    }

    /** Takes the connection at position `k` of the active list to the head of the free list. */
    method MoveToFree(conn: SSLConn, ghost k: nat)
      requires Lists(freeSSLConn) && k < |active| && conn == active[k]
      modifies this`sslConn, this`active, this`free, this`freeSSLConn, active
      ensures Lists(freeSSLConn)
      ensures active == old(active)[..k] + old(active)[k + 1..] && free == [conn] + old(free)
    {
      conn.state := CLOSED;
      Unlink(conn, k);
      assert forall c | c in free :: c !in old(active);
      assert forall c | c in free :: c.next == old(c.next);
      PushFree(conn);
      ElementsMoved(old(active), k, old(free));
    }

    method Retire(conn: SSLConn)
      requires Valid() && conn in active
      modifies this`numResumed, this`numConnections, this`cnt, this`log
      modifies this`sslConn, this`active, this`free, this`freeSSLConn, active
      ensures Valid() && conn.state == CLOSED && numConnections == old(numConnections) + 1
      ensures numResumed == old(numResumed) + (if conn.resumed then 1 else 0)
      ensures active == Without(old(active), conn) && free == [conn] + old(free)
      ensures log == old(log) + [Closed(conn)]
    {
      hide Records;
      ghost var k := Position(active, conn);
      RecordClosed(log, active, k, free, freed);
      CountHandled(conn);
      MoveToFree(conn, k);
    }

    /** Moves a connection from the active list to the head of the free list; a connection
        that is closed already stays where it is. */
    method Close(conn: SSLConn)
      requires Valid() && conn in live
      modifies this`numResumed, this`numConnections, this`cnt, this`log
      modifies this`sslConn, this`active, this`free, this`freeSSLConn, active
      ensures Valid() && conn.state == CLOSED
      ensures numConnections == old(numConnections) + (if conn in old(active) then 1 else 0)
      ensures numResumed == old(numResumed) + (if conn in old(active) && conn.resumed then 1 else 0)
      ensures if conn in old(active) then
          active == Without(old(active), conn) && free == [conn] + old(free) && log == old(log) + [Closed(conn)]
        else
          active == old(active) && free == old(free) && log == old(log)
    {
      if conn.state == CLOSED {
        return;
      }
      Retire(conn);
    }

    /** Frees the first connection of what is left of the free list. */
    method ReleaseFirst(conn: SSLConn)
      requires ValidFrom(conn)
      modifies kernel, this`free, this`freed, this`live, this`owner, this`log
      ensures ValidFrom(old(conn.next))
      ensures free == old(free)[1..] && freed == old(freed) + [conn] && live == old(live) - {conn}
      ensures kernel.open == old(kernel.open) - {conn.sockfd}
      ensures log == old(log) + [Released(conn)]
    {
      assert conn == free[0];
      RecordReleased(log, active, free, freed);
      kernel.Close(conn.sockfd);
      ReleaseLists(conn);
      log := log + [Released(conn)];
    }

    ghost method ReleaseLists(conn: SSLConn)
      requires Lists(conn) && free != [] && free[0] == conn
      modifies this`free, this`freed, this`live, this`owner
      ensures Lists(conn.next)
      ensures free == old(free)[1..] && freed == old(freed) + [conn] && live == old(live) - {conn}
      ensures owner == old(owner) - {conn.sockfd}
    {
      assert free == [conn] + free[1..];
      free := free[1..];
      freed := freed + [conn];
      live := live - {conn};
      owner := owner - {conn.sockfd};
    }

    /** Frees the closed connections: each descriptor is closed and each connection freed once. */
    method FreeSSLConn()
      requires Valid()
      modifies this`freeSSLConn, kernel, this`free, this`freed, this`live, this`owner, this`log
      ensures Valid() && free == [] && freed == old(freed) + old(free)
      ensures kernel.open == old(kernel.open) - Descriptors(old(free))
    {
      hide Records;
      var conn := freeSSLConn;
      ghost var done: seq<SSLConn> := [];
      freeSSLConn := null;
      while conn != null
        invariant freeSSLConn == null && ValidFrom(conn)
        invariant FreedSince(old(free), old(freed), old(kernel.open), done)
        decreases |free|
      {
        conn, done := FreeNext(conn, old(free), old(freed), old(kernel.open), done);
      }
    }

    /** Of the connections `all`, those in `done` have been freed since the given point. */
    ghost predicate FreedSince(all: seq<SSLConn>, freed0: seq<SSLConn>, open0: set<int>, done: seq<SSLConn>)
      reads this, kernel
    {
      all == done + free && freed == freed0 + done && kernel.open == open0 - Descriptors(done)
    }

    method FreeNext(conn: SSLConn, ghost all: seq<SSLConn>, ghost freed0: seq<SSLConn>, ghost open0: set<int>,
                    ghost done: seq<SSLConn>)
      returns (next: SSLConn?, ghost done': seq<SSLConn>)
      requires ValidFrom(conn) && FreedSince(all, freed0, open0, done)
      modifies kernel, this`free, this`freed, this`live, this`owner, this`log
      ensures ValidFrom(next) && FreedSince(all, freed0, open0, done') && |free| < |old(free)|
    {
      next := conn.next;
      assert free == [conn] + free[1..];
      DescriptorsExtend(done, conn);
      ReleaseFirst(conn);
      done' := done + [conn];
    }

    method InsertFirst(conn: SSLConn)
      requires Lists(freeSSLConn) && conn !in live && conn !in freed
      requires conn.next == sslConn && conn.prev == null && conn.state == ACCEPT
      modifies this`sslConn, this`active, this`live, active`prev
      ensures Lists(freeSSLConn)
      ensures active == [conn] + old(active) && live == old(live) + {conn}
    {
      if sslConn != null {
        sslConn.prev := conn;
      }
      sslConn := conn;
      active := [conn] + active;
      live := live + {conn};
    }

    method CountAccepted(ghost conn: SSLConn, ghost fd: int)
      requires Records(log, active, free, freed) && conn !in active && conn !in free && conn !in freed
      modifies this`owner, this`log, this`cnt
      ensures Records(log, [conn] + active, free, freed)
      ensures owner == old(owner)[fd := conn] && log == old(log) + [Opened(conn)]
      ensures cnt == old(cnt) + 1
    {
      RecordOpened(log, active, free, freed, conn);
      cnt := cnt + 1;
      owner := owner[fd := conn];
      log := log + [Opened(conn)];
    }

    method Adopt(conn: SSLConn)
      requires Valid() && cnt < numConns && conn !in live && conn !in freed
      requires conn.next == sslConn && conn.prev == null && conn.state == ACCEPT
      requires conn.sockfd >= 0 && conn.sockfd in kernel.open && conn.sockfd !in owner
      modifies this`sslConn, this`active, this`live, this`owner, this`cnt, this`log, active`prev
      ensures Valid()
      ensures active == [conn] + old(active) && live == old(live) + {conn}
      ensures log == old(log) + [Opened(conn)]
    {
      CountAccepted(conn, conn.sockfd);
      InsertFirst(conn);
    }

    /** Links a new connection in front of the active list. */
    method LinkFirst(fd: int, resumed: bool) returns (conn: SSLConn)
      requires Valid() && cnt < numConns && fd >= 0 && fd in kernel.open && fd !in owner
      modifies this`sslConn, this`active, this`live, this`owner, this`cnt, this`log, active`prev
      ensures Valid() && fresh(conn) && conn.sockfd == fd
      ensures active == [conn] + old(active) && live == old(live) + {conn}
      ensures log == old(log) + [Opened(conn)]
    {
      conn := new SSLConn(fd, resumed, sslConn);
      Adopt(conn);
    }

    /** Whether the run is over. */
    predicate Done()
      reads this
    {
      if maxConnections > 0 then numConnections >= maxConnections
      else totalWriteBytes >= maxBytes && totalReadBytes >= maxBytes
    }

    /** Accepts a connection on the listening socket. */
    method Accept(socketfd: int, env: Arrival) returns (conn: SSLConn?)
      requires Valid() && socketfd in kernel.open
      modifies kernel, this`sslConn, this`active, this`live, this`owner, this`cnt, this`log, active`prev
      ensures Valid()
      ensures conn != null <==>
        old(|active|) < numConns && !env.outOfMemory && old(kernel.Granted(env.descriptor)) != -1 && !env.noSession
      ensures conn == null ==>
        && old(kernel.open) <= kernel.open
        && active == old(active) && live == old(live) && log == old(log)
      ensures conn != null ==>
        && fresh(conn) && conn.sockfd == env.descriptor
        && conn.sockfd >= 0 && conn.sockfd !in old(kernel.open) && kernel.open == old(kernel.open) + {conn.sockfd}
        && active == [conn] + old(active) && live == old(live) + {conn}
        && log == old(log) + [Opened(conn)]
    {
      if cnt == numConns {
        return null;
      }
      if env.outOfMemory {
        return null;
      }
      var fd := kernel.Accept(env.descriptor);
      if fd == -1 {
        return null;
      }
      if env.noSession {
        return null;
      }
      conn := LinkFirst(fd, env.resumed);
    }

    // ----------------------------------------------------- one step of a connection

    function AfterHandshake(p: Progress, a: Answer): Progress {
      var code := HandshakeCode(a);
      if code == 0 then p.(failed := true) else if code == 1 then p.(state := READ) else p
    }

    function AfterRead(p: Progress, a: Answer): Progress {
      var len := Allowance(bufferLen, maxBytes, p.readBytes);
      if len == 0 then p
      else
        var q := p.(readBytes := p.readBytes + Moved(len, a));
        var code := ReadCode(len, a);
        if code == 0 then q.(failed := true) else if code == 1 then q.(state := WRITE) else q
    }

    function AfterWrite(p: Progress, a: Answer): Progress {
      var len := Allowance(replyLen, maxBytes, p.writtenBytes);
      if len == 0 then p
      else
        var q := p.(writtenBytes := p.writtenBytes + Moved(len, a));
        var code := WriteCode(len, a);
        if code == 0 then q.(failed := true) else if code == 1 then q.(state := READ) else q
    }

    /** A step in which the first TLS call answers `a` and the second `b`. */
    function AfterStep(p: Progress, a: Answer, b: Answer): Progress {
      match p.state
      case ACCEPT => AfterHandshake(p, a)
      case READ =>
        var q := AfterRead(p, a);
        if q.state == WRITE then AfterWrite(q, b) else q
      case WRITE => AfterWrite(p, a)
      case CLOSED => p
    }

    /** How many bytes may be asked for: all that are wanted, unless less is left of the limit. */
    function Room(wanted: int, total: int): int {
      if maxBytes > 0 && maxBytes < total + wanted then maxBytes - total else wanted
    }

    /** What a write that answers `b` makes of the total and the state. */
    predicate WritesOnce(writtenBytes: int, b: Answer, q: Progress) {
      var room := Room(replyLen, writtenBytes);
      var put := if b.value < room then b.value else room;
      if room == 0 then q.state == WRITE && q.writtenBytes == writtenBytes && !q.failed
      else
        && q.writtenBytes == writtenBytes + (if put > 0 then put else 0)
        && (q.failed <==> put == 0 || (put < room && b.error == OtherError))
        && q.state == if put != 0 && (put == room || b.error == NoError) then READ else WRITE
    }

    /** The whole step from `p` to `q` in terms of what the calls answer: which answers close the connection,
        which leave its state, and that a finished read is followed by a write at once. */
    predicate Lawful(p: Progress, a: Answer, b: Answer, q: Progress) {
      match p.state
      case CLOSED => q == p
      case ACCEPT =>
        && q.readBytes == p.readBytes && q.writtenBytes == p.writtenBytes
        && (q.failed <==> a.value == 0 || (a.value != 1 && a.error !in {WantRead, WantWrite, Pending}))
        && q.state == if a.value == 1 then READ else ACCEPT
      case WRITE => q.readBytes == p.readBytes && WritesOnce(p.writtenBytes, a, q)
      case READ =>
        var room := Room(bufferLen, p.readBytes);
        var got := if a.value < room then a.value else room;
        if room == 0 then q == p
        else
          && q.readBytes == p.readBytes + (if got > 0 then got else 0)
          && if got != 0 && a.error == NoError then WritesOnce(p.writtenBytes, b, q)
             else
               && q.state == READ && q.writtenBytes == p.writtenBytes
               && (q.failed <==> got == 0 || a.error == OtherError)
    }

    lemma StepsAreLawful(p: Progress, a: Answer, b: Answer)
      requires !p.failed
      ensures Lawful(p, a, b, AfterStep(p, a, b))
    {}

    /** Without a limit: a read that moves bytes without an error is followed by a write in the same step, and
        the connection reads next exactly if that write was full or had no error. */
    lemma ReadFallsThrough(p: Progress, a: Answer, b: Answer, q: Progress)
      requires Lawful(p, a, b, q) && p.state == READ && maxBytes <= 0 && bufferLen > 0 && replyLen > 0
      requires a.value > 0 && a.error == NoError
      ensures b.value >= 0 ==>
        q.writtenBytes == p.writtenBytes + (if b.value < replyLen then b.value else replyLen)
      ensures q.state == READ <==> b.value >= replyLen || (b.value != 0 && b.error == NoError)
    {}

    /** A step from READ that is not a failure ends in WRITE only if the write has to wait, or the limit for
        writing is used up. */
    lemma WritingIsPutOff(p: Progress, a: Answer, b: Answer, q: Progress)
      requires Lawful(p, a, b, q) && p.state == READ && q.state == WRITE && !q.failed && replyLen > 0
      ensures (maxBytes > 0 && p.writtenBytes == maxBytes) || b.error in {WantRead, WantWrite, Pending}
    {}

    /** The states a connection can be in after one step from `s` that does not close it:
        the handshake comes first, then reads and writes in turn. */
    static function Successors(s: SSLState): set<SSLState> {
      match s
      case ACCEPT => {ACCEPT, READ}
      case READ => {READ, WRITE}
      case WRITE => {WRITE, READ}
      case CLOSED => {CLOSED}
    }

    /** A step never closes a connection itself; nothing is read or written before the handshake is
        over, a step that is to write does not read, and a run's byte limit is never exceeded. */
    lemma StepsAreOrderly(p: Progress, a: Answer, b: Answer)
      ensures var q := AfterStep(p, a, b);
        && q.state in Successors(p.state)
        && p.readBytes <= q.readBytes && p.writtenBytes <= q.writtenBytes
        && (p.state != READ ==> q.readBytes == p.readBytes)
        && (p.state == ACCEPT ==> q.writtenBytes == p.writtenBytes)
        && (maxBytes > 0 && p.readBytes <= maxBytes ==> q.readBytes <= maxBytes)
        && (maxBytes > 0 && p.writtenBytes <= maxBytes ==> q.writtenBytes <= maxBytes)
    {}

    function ProgressOf(conn: SSLConn, failed: bool): Progress
      reads this`totalReadBytes, this`totalWriteBytes, conn`state
    {
      Progress(conn.state, totalReadBytes, totalWriteBytes, failed)
    }

    method SslRead(len: int, a: Answer) returns (ret: nat)
      modifies this`totalReadBytes
      ensures ret == ReadCode(len, a) && totalReadBytes == old(totalReadBytes) + Moved(len, a)
    {
      var n := Returned(len, a);
      if n == 0 {
        return 0;
      }
      if n > 0 {
        totalReadBytes := totalReadBytes + n;
      }
      ret := Code(a.error);
    }

    method SslWrite(len: int, a: Answer) returns (ret: nat)
      modifies this`totalWriteBytes
      ensures ret == WriteCode(len, a) && totalWriteBytes == old(totalWriteBytes) + Moved(len, a)
    {
      var n := Returned(len, a);
      if n == 0 {
        return 0;
      }
      if n > 0 {
        totalWriteBytes := totalWriteBytes + n;
      }
      if n == len {
        return 1;
      }
      ret := Code(a.error);
    }

    ghost method RecordUse(conn: SSLConn)
      requires Valid() && conn in active
      modifies this`log
      ensures Valid() && log == old(log) + [Used(conn)]
    {
      RecordUsed(log, active, free, freed, conn);
      log := log + [Used(conn)];
    }

    /** Reads once. Returns whether that failed. */
    method ReadStep(conn: SSLConn, a: Answer) returns (failed: bool)
      requires conn.state == READ
      modifies this`totalReadBytes, conn`state
      ensures ProgressOf(conn, failed) == AfterRead(old(ProgressOf(conn, false)), a)
    {
      failed := false;
      var len := Allowance(bufferLen, maxBytes, totalReadBytes);
      if len == 0 {
        return;
      }
      var ret := SslRead(len, a);
      if ret == 0 {
        return true;
      }
      if ret != 1 {
        return;
      }
      conn.state := WRITE;
    }

    /** Writes once. Returns whether that failed. */
    method WriteStep(conn: SSLConn, a: Answer) returns (failed: bool)
      requires conn.state == WRITE
      modifies this`totalWriteBytes, conn`state
      ensures ProgressOf(conn, failed) == AfterWrite(old(ProgressOf(conn, false)), a)
    {
      failed := false;
      var len := Allowance(replyLen, maxBytes, totalWriteBytes);
      if len == 0 {
        return;
      }
      var ret := SslWrite(len, a);
      if ret == 0 {
        return true;
      }
      if ret == 1 {
        conn.state := READ;
      }
    }

    method Handshake(conn: SSLConn, a: Answer) returns (failed: bool)
      requires conn.state == ACCEPT
      modifies conn`state
      ensures ProgressOf(conn, failed) == AfterHandshake(old(ProgressOf(conn, false)), a)
    {
      if a.value == 0 {
        return true;
      }
      if a.value == 1 {
        conn.state := READ;
        return false;
      }
      failed := a.error == NoError || a.error == OtherError;
    }

    /** One step of a connection: the handshake, or a read and then a write, the first and the second
        TLS call answering `a` and `b`. Returns whether the connection is to be closed. */
    method Serve(conn: SSLConn, a: Answer, b: Answer) returns (failed: bool)
      modifies this`totalReadBytes, this`totalWriteBytes, conn`state
      ensures ProgressOf(conn, failed) == AfterStep(old(ProgressOf(conn, false)), a, b)
      ensures Lawful(old(ProgressOf(conn, false)), a, b, ProgressOf(conn, failed))
    {
      StepsAreLawful(ProgressOf(conn, false), a, b);
      failed := false;
      match conn.state {
        case ACCEPT =>
          failed := Handshake(conn, a);
        case READ =>
          failed := ReadStep(conn, a);
          if conn.state == WRITE {
            failed := WriteStep(conn, b);
          }
        case WRITE =>
          failed := WriteStep(conn, a);
        case CLOSED =>
      }
    }

    method Step(conn: SSLConn, a: Answer, b: Answer) returns (failed: bool)
      requires Valid() && conn in active
      modifies this`totalReadBytes, this`totalWriteBytes, this`log, conn`state
      ensures Valid() && conn.state != CLOSED && log == old(log) + [Used(conn)]
      ensures ProgressOf(conn, failed) == AfterStep(old(ProgressOf(conn, false)), a, b)
      ensures Lawful(old(ProgressOf(conn, false)), a, b, ProgressOf(conn, failed))
    {
      hide Records, SSLConnCtx.AfterStep, SSLConnCtx.Lawful;
      RecordUse(conn);
      StepsAreOrderly(ProgressOf(conn, false), a, b);
      failed := Serve(conn, a, b);
    }

    /** Handles a descriptor that is ready: the connection makes one step, to `q`, and is closed when that fails. */
    method ReadWrite(conn: SSLConn, a: Answer, b: Answer) returns (ghost q: Progress)
      requires Valid() && conn in active
      modifies this`totalReadBytes, this`totalWriteBytes, this`numResumed, this`numConnections, this`cnt, this`log
      modifies this`sslConn, this`active, this`free, this`freeSSLConn, active
      ensures Valid()
      ensures Lawful(old(ProgressOf(conn, false)), a, b, q) && q == AfterStep(old(ProgressOf(conn, false)), a, b)
      ensures totalReadBytes == q.readBytes && totalWriteBytes == q.writtenBytes
      ensures if q.failed then
          conn.state == CLOSED && active == Without(old(active), conn) && free == [conn] + old(free)
          && log == old(log) + [Used(conn), Closed(conn)]
        else
          conn.state == q.state && active == old(active) && free == old(free) && log == old(log) + [Used(conn)]
    {
      hide SSLConnCtx.Counts, SSLConnCtx.Owners, Records, SSLConnCtx.AfterStep, SSLConnCtx.Lawful;
      var failed := Step(conn, a, b);
      q := ProgressOf(conn, failed);
      if failed {
        Close(conn);
      }
    }

    /** With no active connection, the descriptors of the closed connections are all there are. */
    ghost predicate OnlyFree()
      reads this
    {
      active == [] && owner.Keys == Descriptors(free)
    }

    lemma NoneActive()
      requires Valid() && active == []
      ensures OnlyFree()
    {
      hide Records;
      assert Elements(active) == {};
      forall fd | fd in owner ensures fd in Descriptors(free) { assert owner[fd] in free; }
    }

    /** At the end of the run: every connection still active is closed, and all are freed, with
        their descriptors and no others. */
    method Free()
      requires Valid()
      modifies this, kernel, live
      ensures Valid() && active == [] && free == [] && |freed| == numConnections >= old(numConnections)
      ensures kernel.open == old(kernel.open) - old(owner.Keys)
    {
      while sslConn != null
        invariant Valid() && live == old(live) && owner == old(owner) && kernel.open == old(kernel.open)
        invariant numConnections >= old(numConnections)
        decreases |active|
      {
        Close(sslConn);
      }
      NoneActive();
      FreeSSLConn();
    }
  }
}
