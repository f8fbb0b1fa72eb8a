/** The TLS benchmark client: a fixed number of connection slots served in turn, until a number
    of connections or of bytes is reached. */
module TlsClient {
  import opened Arithmetic
  import opened TlsCalls

  datatype SSLState = INIT | CONNECT | WRITE | READ_WAIT | READ | CLOSE

  /** One slot. `open` says that it holds a TLS object. */
  datatype SSLConn = SSLConn(sockfd: int, open: bool, session: bool, state: SSLState, err: int)

  const UNUSED := SSLConn(-1, false, false, INIT, 0)

  /** What the environment answers in one turn: whether a closed session was a resumed one and can be
      resumed, the socket that is connected to the server (negative on failure), whether a TLS object
      cannot be had, the result of waiting for data, and the answer of the TLS call. */
  datatype Env = Env(reused: bool, session: bool, sockfd: int, noSession: bool, wait: int, answer: Answer)

  // ------------------------------------------------------- slots in use

  /** The number of slots in use. */
  function Busy(slots: seq<SSLConn>): (n: nat)
    ensures n <= |slots|
  {
    if slots == [] then 0 else Busy(slots[1..]) + (if slots[0].state != INIT then 1 else 0)
  }

  lemma {:induction false} BusyUpdate(slots: seq<SSLConn>, i: nat, c: SSLConn)
    requires i < |slots|
    ensures Busy(slots[i := c]) ==
      Busy(slots) - (if slots[i].state != INIT then 1 else 0) + (if c.state != INIT then 1 else 0)
  {
    if i == 0 {
      assert slots[0 := c][1..] == slots[1..];
    } else {
      assert slots[i := c][1..] == slots[1..][i - 1 := c];
      BusyUpdate(slots[1..], i - 1, c);
    }
  }

  lemma {:induction false} NoneBusy(slots: seq<SSLConn>)
    ensures Busy(slots) == 0 <==> forall i | 0 <= i < |slots| :: slots[i].state == INIT
  {
    if slots != [] { NoneBusy(slots[1..]); }
  }

  // ------------------------------------------------------- one step of a slot

  /** A slot, the run's totals, and whether the slot's last step failed. */
  datatype Progress = Progress(conn: SSLConn, readBytes: int, writtenBytes: int, failed: bool)
  {
    /** The step ends in state `s` with result `ret`. */
    function To(s: SSLState, ret: int): Progress {
      this.(conn := conn.(state := s, err := ret))
    }

    /** A step that fails closes the slot; its result is not remembered. */
    function Fail(): Progress {
      this.(conn := conn.(state := CLOSE), failed := true)
    }
  }

  /** What a result of 2 to 4 says is waited for. */
  function AwaitedBy(err: int): TlsError {
    if err == 2 then WantRead else if err == 3 then WantWrite else if err == 4 then Pending else OtherError
  }

  /** What a turn works on: the slots and the run's counts. */
  datatype View = View(slots: seq<SSLConn>, created: int, closed: int, resumed: int, readBytes: int, writtenBytes: int)

  /** What the client was started with. */
  datatype Config = Config(resume: bool, bufferLen: int, replyLen: int, maxConnections: int, maxBytes: int)
  {
    predicate Counted() {
      maxConnections > 0
    }

    function AfterConnect(p: Progress, a: Answer): Progress {
      var code := HandshakeCode(a);
      if code == 0 then p.Fail() else p.To(if code == 1 then WRITE else CONNECT, code)
    }

    function AfterWrite(p: Progress, a: Answer): Progress {
      var len := Allowance(replyLen, maxBytes, p.writtenBytes);
      if len == 0 then p.To(WRITE, 0)
      else
        var q := p.(writtenBytes := p.writtenBytes + Moved(len, a));
        var code := WriteCode(len, a);
        if code == 0 then q.Fail() else q.To(if code == 1 then READ_WAIT else WRITE, code)
    }

    /** `before` is what the wait for data has left as the result. */
    function AfterRead(p: Progress, before: int, a: Answer): Progress {
      var len := Allowance(bufferLen, maxBytes, p.readBytes);
      if len == 0 then p.To(READ, before)
      else
        var q := p.(readBytes := p.readBytes + Moved(len, a));
        var code := ReadCode(len, a);
        if code == 0 then q.Fail()
        else q.To(if code != 1 then READ else if Counted() then CLOSE else WRITE, code)
    }

    function AfterStep(p: Progress, wait: int, a: Answer): Progress {
      match p.conn.state
      case INIT => p.To(INIT, 0)
      case CLOSE => p.To(CLOSE, 0)
      case CONNECT => AfterConnect(p, a)
      case WRITE => AfterWrite(p, a)
      case READ_WAIT => if wait == 1 then AfterRead(p, wait, a) else p.To(READ_WAIT, wait)
      case READ => AfterRead(p, 0, a)
    }

    /** How many bytes may be asked for: all that are wanted, unless less is left of the limit. */
    function Room(wanted: int, total: int): int {
      if maxBytes > 0 && maxBytes < total + wanted then maxBytes - total else wanted
    }

    /** What a write that answers `a` makes of `p`. */
    predicate WritesOnce(p: Progress, a: Answer, q: Progress) {
      var room := Room(replyLen, p.writtenBytes);
      var put := if a.value < room then a.value else room;
      if room == 0 then q == p.(conn := p.conn.(err := 0))
      else
        && q.writtenBytes == p.writtenBytes + (if put > 0 then put else 0)
        && (q.failed <==> put == 0 || (put < room && a.error == OtherError))
        && if q.failed then q.conn.state == CLOSE && q.conn.err == p.conn.err
           else if put == room || a.error == NoError then q.conn.state == READ_WAIT && q.conn.err == 1
           else q.conn.state == WRITE && AwaitedBy(q.conn.err) == a.error
    }

    /** What a read that answers `a` makes of `p`. A client that counts connections is finished with the
        connection when it has read; any other client writes again. */
    predicate ReadsOnce(p: Progress, a: Answer, q: Progress) {
      var room := Room(bufferLen, p.readBytes);
      var got := if a.value < room then a.value else room;
      if room == 0 then q == p.(conn := p.conn.(state := READ, err := if p.conn.state == READ then 0 else 1))
      else
        && q.readBytes == p.readBytes + (if got > 0 then got else 0)
        && (q.failed <==> got == 0 || a.error == OtherError)
        && if q.failed then q.conn.state == CLOSE && q.conn.err == p.conn.err
           else if a.error == NoError then q.conn.state == (if maxConnections > 0 then CLOSE else WRITE) && q.conn.err == 1
           else q.conn.state == READ && AwaitedBy(q.conn.err) == a.error
    }

    /** The whole step from `p` to `q` in terms of what the calls answer: which answers close the slot,
        which leave its state, and that a wait that finds data is followed by the read at once. */
    predicate Lawful(p: Progress, wait: int, a: Answer, q: Progress) {
      && q.conn == p.conn.(state := q.conn.state, err := q.conn.err)
      && (p.conn.state == WRITE || q.writtenBytes == p.writtenBytes)
      && (p.conn.state in {READ_WAIT, READ} || q.readBytes == p.readBytes)
      && match p.conn.state
         case INIT => q == p.(conn := p.conn.(err := 0))
         case CLOSE => q == p.(conn := p.conn.(err := 0))
         case CONNECT =>
           && (q.failed <==> a.value == 0 || (a.value != 1 && a.error !in {WantRead, WantWrite, Pending}))
           && if q.failed then q.conn.state == CLOSE && q.conn.err == p.conn.err
              else if a.value == 1 then q.conn.state == WRITE && q.conn.err == 1
              else q.conn.state == CONNECT && AwaitedBy(q.conn.err) == a.error
         case WRITE => WritesOnce(p, a, q)
         case READ_WAIT => if wait != 1 then q == p.(conn := p.conn.(err := wait)) else ReadsOnce(p, a, q)
         case READ => ReadsOnce(p, a, q)
    }

    lemma WriteIsLawful(p: Progress, a: Answer)
      requires !p.failed && p.conn.state == WRITE
      ensures WritesOnce(p, a, AfterWrite(p, a))
    {}

    lemma ReadIsLawful(p: Progress, a: Answer)
      requires !p.failed && p.conn.state in {READ_WAIT, READ}
      ensures ReadsOnce(p, a, AfterRead(p, if p.conn.state == READ then 0 else 1, a))
    {}

    lemma StepsAreLawful(p: Progress, wait: int, a: Answer)
      requires !p.failed
      ensures Lawful(p, wait, a, AfterStep(p, wait, a))
    {
      hide Config.WritesOnce, Config.ReadsOnce;
      if p.conn.state == WRITE {
        WriteIsLawful(p, a);
      } else if p.conn.state in {READ_WAIT, READ} {
        ReadIsLawful(p, a);
      }
    }

    /** A turn may start a connection on slot `c` when `created` have been started before. */
    predicate Starts(c: SSLConn, created: int) {
      c.state in {INIT, CLOSE} && (maxConnections > 0 ==> created < maxConnections)
    }

    /** A turn makes slot `c` ready as `d`: a connection that is over is ended, and another is started if one
        may be. */
    predicate Readies(c: SSLConn, created: int, env: Env, d: SSLConn) {
      var starts := Starts(c, created);
      && d.err == c.err
      && d.session == (if c.state == CLOSE && resume then env.session else c.session)
      && d.sockfd == (if starts then env.sockfd else if c.state == CLOSE then -1 else c.sockfd)
      && d.open == (if starts then !env.noSession else c.open && c.state != CLOSE)
      && d.state == if starts && !env.noSession then CONNECT else if c.state == CLOSE then INIT else c.state
    }

    /** One turn of slot `i`, from `v` to `w`. */
    ghost predicate Turn(v: View, i: nat, env: Env, w: View) {
      && i < |v.slots| == |w.slots|
      && (forall k | 0 <= k < |v.slots| && k != i :: w.slots[k] == v.slots[k])
      && w.created == v.created + (if Starts(v.slots[i], v.created) then 1 else 0)
      && w.closed == v.closed + (if v.slots[i].state == CLOSE then 1 else 0)
      && w.resumed == v.resumed + (if v.slots[i].state == CLOSE && env.reused then 1 else 0)
      && exists d, failed ::
           && Readies(v.slots[i], v.created, env, d)
           && Lawful(Progress(d, v.readBytes, v.writtenBytes, false), env.wait, env.answer,
                     Progress(w.slots[i], w.readBytes, w.writtenBytes, failed))
    }

    /** The run is over. */
    predicate Over(v: View) {
      if maxConnections > 0 then maxConnections <= v.closed
      else maxBytes <= v.writtenBytes && maxBytes <= v.readBytes
    }

    /** The slots have had their turns one after another, beginning with the first slot and again after the last,
        and no turn was taken when the run was over. */
    ghost predicate RoundRobin(views: seq<View>, envs: seq<Env>) {
      && |views| == |envs| + 1
      && forall k | 0 <= k < |envs| ::
           && |views[k].slots| > 0 && !Over(views[k])
           && Turn(views[k], k % |views[k].slots|, envs[k], views[k + 1])
    }

    lemma NoTurnTaken(v: View)
      ensures RoundRobin([v], [])
    {}

    lemma TurnTaken(views: seq<View>, envs: seq<Env>, i: nat, env: Env, w: View)
      requires RoundRobin(views, envs) && var v := views[|envs|];
        |v.slots| > 0 && !Over(v) && i == |envs| % |v.slots| && Turn(v, i, env, w)
      ensures RoundRobin(views + [w], envs + [env])
    {
      hide Config.Turn, Config.Over;
    }

    /** The states a slot can be in after one step from `s`. */
    function Successors(s: SSLState): set<SSLState> {
      match s
      case INIT => {INIT}
      case CONNECT => {CONNECT, WRITE, CLOSE}
      case WRITE => {WRITE, READ_WAIT, CLOSE}
      case READ_WAIT => if Counted() then {READ_WAIT, READ, CLOSE} else {READ_WAIT, READ, WRITE, CLOSE}
      case READ => if Counted() then {READ, CLOSE} else {READ, WRITE, CLOSE}
      case CLOSE => {CLOSE}
    }

    /** A slot connects, writes, waits and reads in this order; a step that fails closes it, keeps its
        last result and only then closes it early; totals stay within the limit. */
    lemma StepsAreOrderly(p: Progress, wait: int, a: Answer)
      requires !p.failed
      ensures var q := AfterStep(p, wait, a);
        && q.conn.state in Successors(p.conn.state)
        && q.conn == p.conn.(state := q.conn.state, err := q.conn.err)
        && (q.failed ==> q.conn.state == CLOSE && q.conn.err == p.conn.err)
        && (q.conn.state == CLOSE && p.conn.state in {CONNECT, WRITE} ==> q.failed)
        && (p.conn.state !in {READ_WAIT, READ} ==> q.readBytes == p.readBytes)
        && (p.conn.state != WRITE ==> q.writtenBytes == p.writtenBytes)
        && (maxBytes > 0 && p.readBytes <= maxBytes ==> q.readBytes <= maxBytes)
        && (maxBytes > 0 && p.writtenBytes <= maxBytes ==> q.writtenBytes <= maxBytes)
    {
      hide Config.AfterStep;
      StepsAreLawful(p, wait, a);
    }

    /** The slot when its connection has been ended. */
    function Closed(c: SSLConn, env: Env): SSLConn {
      c.(sockfd := -1, open := false, session := if resume then env.session else c.session, state := INIT)
    }
  }

  /** The slot when a connection has been started on it; without a TLS object it stays unused. */
  function Connected(c: SSLConn, env: Env): SSLConn {
    if env.noSession then c.(sockfd := env.sockfd, open := false)
    else c.(sockfd := env.sockfd, open := true, state := CONNECT)
  }

  lemma NextSlot(k: nat, n: nat)
    requires n > 0
    ensures (k % n + 1) % n == (k + 1) % n
  {
    var q, r := k / n, k % n;
    if r + 1 < n {
      DivModUnique(k + 1, n, q, r + 1);
    } else {
      DivModUnique(k + 1, n, q + 1, 0);
    }
  }

  class SSLConnCtx {
    const sslConn: array<SSLConn>
    const config: Config
    var cnt: int
    var numCreated: int
    var numConnections: int
    var numResumed: int
    var totalReadBytes: int
    var totalWriteBytes: int

    /** The failures to create a TLS object. */
    ghost var failed: nat

    ghost predicate Accounts()
      reads this, sslConn
    {
      && numCreated == numConnections + Busy(sslConn[..]) + failed
      && (config.Counted() ==> numCreated <= config.maxConnections)
      && cnt == -numConnections
      && 0 <= numResumed <= numConnections
      && (config.maxBytes > 0 ==> totalReadBytes <= config.maxBytes && totalWriteBytes <= config.maxBytes)
    }

    ghost predicate Valid()
      reads this, sslConn
    {
      && Accounts()
      && (forall i | 0 <= i < sslConn.Length :: sslConn[i].open <==> sslConn[i].state != INIT)
    }

    constructor (numConns: nat, config: Config)
      ensures Valid() && sslConn.Length == numConns && fresh(sslConn) && this.config == config
      ensures failed == 0 && numCreated == 0 && totalReadBytes == totalWriteBytes == 0
    {
      sslConn := new SSLConn[numConns](_ => UNUSED);
      this.config := config;
      cnt, numCreated, numConnections, numResumed := 0, 0, 0, 0;
      totalReadBytes, totalWriteBytes, failed := 0, 0, 0;
      new;
      NoneBusy(sslConn[..]);
    }

    predicate Done()
      reads this
    {
      if config.Counted() then numConnections >= config.maxConnections
      else totalWriteBytes >= config.maxBytes && totalReadBytes >= config.maxBytes
    }

    /** Ends the connection of a slot and makes the slot ready for another one. */
    method Close(i: nat, env: Env)
      requires Valid() && i < sslConn.Length && sslConn[i].state == CLOSE
      modifies this`numResumed, this`numConnections, this`cnt, sslConn
      ensures Valid() && numConnections == old(numConnections) + 1
      ensures numResumed == old(numResumed) + (if env.reused then 1 else 0)
      ensures sslConn[..] == old(sslConn[..])[i := config.Closed(old(sslConn[i]), env)]
    {
      if env.reused {
        numResumed := numResumed + 1;
      }
      numConnections := numConnections + 1;
      BusyUpdate(sslConn[..], i, config.Closed(sslConn[i], env));
      if config.resume {
        sslConn[i] := sslConn[i].(session := env.session);
      }
      sslConn[i] := sslConn[i].(open := false, sockfd := -1, state := INIT);
      cnt := cnt - 1;
      assert sslConn[..] == old(sslConn[..])[i := sslConn[i]];
    }

    /** Starts a connection on a socket that is connected. */
    method Connect(i: nat, env: Env)
      requires Valid() && i < sslConn.Length && sslConn[i].state == INIT
      requires config.Counted() ==> numCreated < config.maxConnections
      modifies this`numCreated, this`failed, sslConn
      ensures Valid() && numCreated == old(numCreated) + 1
      ensures failed == old(failed) + (if env.noSession then 1 else 0)
      ensures sslConn[..] == old(sslConn[..])[i := Connected(old(sslConn[i]), env)]
    {
      numCreated := numCreated + 1;
      BusyUpdate(sslConn[..], i, Connected(sslConn[i], env));
      sslConn[i] := sslConn[i].(sockfd := env.sockfd, open := !env.noSession);
      if env.noSession {
        failed := failed + 1;
      } else {
        sslConn[i] := sslConn[i].(state := CONNECT);
      }
      assert sslConn[..] == old(sslConn[..])[i := sslConn[i]];
    }

    method SslWrite(len: int, a: Answer) returns (ret: nat)
      modifies this`totalWriteBytes
      ensures ret == WriteCode(len, a) && totalWriteBytes == old(totalWriteBytes) + Moved(len, a)
    {
      var n := Returned(len, a);
      if n == 0 {
        return 0;
      }
      if n > 0 {
        totalWriteBytes := totalWriteBytes + n;
      }
      if n == len {
        return 1;
      }
      ret := Code(a.error);
    }

    method SslRead(len: int, a: Answer) returns (ret: nat)
      modifies this`totalReadBytes
      ensures ret == ReadCode(len, a) && totalReadBytes == old(totalReadBytes) + Moved(len, a)
    {
      var n := Returned(len, a);
      if n == 0 {
        return 0;
      }
      if n > 0 {
        totalReadBytes := totalReadBytes + n;
      }
      ret := Code(a.error);
    }

    function ProgressOf(c: SSLConn, failure: bool): Progress
      reads this`totalReadBytes, this`totalWriteBytes
    {
      Progress(c, totalReadBytes, totalWriteBytes, failure)
    }

    /** The write of a slot. `failure` reports that the slot is to be closed. */
    method WriteStep(c: SSLConn, a: Answer) returns (d: SSLConn, failure: bool)
      modifies this`totalWriteBytes
      ensures ProgressOf(d, failure) == config.AfterWrite(old(ProgressOf(c, false)), a)
    {
      var ret := 0;
      var state := WRITE;
      var len := Allowance(config.replyLen, config.maxBytes, totalWriteBytes);
      if len != 0 {
        ret := SslWrite(len, a);
        if ret == 0 {
          return c.(state := CLOSE), true;
        }
        if ret == 1 {
          state := READ_WAIT;
        }
      }
      d, failure := c.(state := state, err := ret), false;
    }

    method ReadStep(c: SSLConn, before: int, a: Answer) returns (d: SSLConn, failure: bool)
      modifies this`totalReadBytes
      ensures ProgressOf(d, failure) == config.AfterRead(old(ProgressOf(c, false)), before, a)
    {
      var ret := before;
      var state := READ;
      var len := Allowance(config.bufferLen, config.maxBytes, totalReadBytes);
      if len != 0 {
        ret := SslRead(len, a);
        if ret == 0 {
          return c.(state := CLOSE), true;
        }
        if ret == 1 {
          state := if config.maxConnections > 0 then CLOSE else WRITE;
        }
      }
      d, failure := c.(state := state, err := ret), false;
    }

    method ConnectStep(c: SSLConn, a: Answer) returns (d: SSLConn, failure: bool)
      requires c.state == CONNECT
      ensures ProgressOf(d, failure) == config.AfterConnect(ProgressOf(c, false), a)
    {
      var ret := HandshakeCode(a);
      if ret == 0 {
        return c.(state := CLOSE), true;
      }
      d, failure := c.(state := if ret == 1 then WRITE else c.state, err := ret), false;
    }

    method Step(c: SSLConn, wait: int, a: Answer) returns (d: SSLConn, failure: bool)
      modifies this`totalReadBytes, this`totalWriteBytes
      ensures ProgressOf(d, failure) == config.AfterStep(old(ProgressOf(c, false)), wait, a)
      ensures config.Lawful(old(ProgressOf(c, false)), wait, a, ProgressOf(d, failure))
    {
      hide Config.Lawful;
      config.StepsAreLawful(ProgressOf(c, false), wait, a);
      d, failure := c.(err := 0), false;
      match c.state {
        case INIT =>
        case CLOSE =>
        case CONNECT =>
          d, failure := ConnectStep(c, a);
        case WRITE =>
          d, failure := WriteStep(c, a);
        case READ_WAIT =>
          if wait == 1 {
            d, failure := ReadStep(c, wait, a);
          } else {
            d := c.(err := wait);
          }
        case READ =>
          d, failure := ReadStep(c, 0, a);
      }
    }

    /** One step of slot `i`. */
    method ReadWrite(i: nat, wait: int, a: Answer) returns (failure: bool)
      requires Valid() && i < sslConn.Length
      modifies this`totalReadBytes, this`totalWriteBytes, sslConn
      ensures Valid() && sslConn[..] == old(sslConn[..])[i := sslConn[i]]
      ensures ProgressOf(sslConn[i], failure) == config.AfterStep(old(ProgressOf(sslConn[i], false)), wait, a)
      ensures config.Lawful(old(ProgressOf(sslConn[i], false)), wait, a, ProgressOf(sslConn[i], failure))
    {
      hide Config.AfterStep, Config.Lawful;
      config.StepsAreOrderly(ProgressOf(sslConn[i], false), wait, a);
      var c;
      c, failure := Step(sslConn[i], wait, a);
      BusyUpdate(sslConn[..], i, c);
      sslConn[i] := c;
      assert sslConn[..] == old(sslConn[..])[i := c];
    }

    /** Ends the slot's connection if that is due, and starts another one if that is allowed. Returns
        false when one is to be started and the server could not be reached. */
    method Prepare(i: nat, env: Env) returns (ok: bool)
      requires Valid() && i < sslConn.Length
      modifies this`numResumed, this`numConnections, this`cnt, this`numCreated, this`failed, sslConn
      ensures Valid() && forall k | 0 <= k < sslConn.Length && k != i :: sslConn[k] == old(sslConn[k])
      ensures numConnections == old(numConnections) + (if old(sslConn[i].state) == CLOSE then 1 else 0)
      ensures numResumed == old(numResumed) + (if old(sslConn[i].state) == CLOSE && env.reused then 1 else 0)
      ensures ok <==> env.sockfd >= 0 || !config.Starts(old(sslConn[i]), old(numCreated))
      ensures ok ==> config.Readies(old(sslConn[i]), old(numCreated), env, sslConn[i])
      ensures numCreated == old(numCreated) + (if ok && config.Starts(old(sslConn[i]), old(numCreated)) then 1 else 0)
      ensures numCreated == old(numCreated) || !env.noSession ==> failed == old(failed)
    {
      if sslConn[i].state == CLOSE {
        Close(i, env);
      }
      if sslConn[i].state == INIT && (config.maxConnections <= 0 || numCreated < config.maxConnections) {
        if env.sockfd < 0 {
          return false;
        }
        Connect(i, env);
      }
      ok := true;
    }

    function ViewOf(): View
      reads this, sslConn
    {
      View(sslConn[..], numCreated, numConnections, numResumed, totalReadBytes, totalWriteBytes)
    }

    /** One turn of slot `i`. Returns false when the server could not be reached, which ends the program. */
    method Visit(i: nat, env: Env) returns (ok: bool)
      requires Valid() && i < sslConn.Length
      modifies this, sslConn
      ensures Valid() && (ok ==> config.Turn(old(ViewOf()), i, env, ViewOf()))
      ensures ok <==> env.sockfd >= 0 || !config.Starts(old(sslConn[i]), old(numCreated))
    {
      hide Config.AfterStep, Config.Lawful, Config.Readies, Config.Starts;
      ok := Prepare(i, env);
      if !ok {
        return;
      }
      ghost var d := sslConn[i];
      config.StepsAreOrderly(ProgressOf(d, false), env.wait, env.answer);
      var failure := ReadWrite(i, env.wait, env.answer);
      assert config.Lawful(Progress(d, old(totalReadBytes), old(totalWriteBytes), false), env.wait, env.answer,
                           Progress(sslConn[i], totalReadBytes, totalWriteBytes, failure));
      if failure && config.maxConnections > 0 {
        assert sslConn[i] == sslConn[i].(state := CLOSE);
        sslConn[i] := sslConn[i].(state := CLOSE);
      }
    }

    lemma DoneIsOver()
      ensures Done() <==> config.Over(ViewOf())
    {}

    /** A run that is over has exactly what it is for. */
    lemma AtTheEnd()
      requires Valid() && config.Over(ViewOf())
      ensures config.maxConnections > 0 ==>
        && numConnections == config.maxConnections && failed == 0
        && forall i | 0 <= i < sslConn.Length :: sslConn[i].state == INIT && !sslConn[i].open
      ensures config.maxConnections <= 0 < config.maxBytes ==> totalReadBytes == totalWriteBytes == config.maxBytes
    {
      NoneBusy(sslConn[..]);
      assert forall i | 0 <= i < sslConn.Length :: sslConn[..][i] == sslConn[i];
    }

    /** The whole run, cut off after `turns` turns, of which `left` are not needed: the slots are served in turn,
        and only when the run is over or the server cannot be reached is it not cut off. A run limited by
        connections that is over has closed exactly that many, no slot is in use and no TLS object could not
        be created; a run limited by bytes has read and written exactly that many. */
    method Run(turns: nat) returns (reached: bool, left: nat, ghost views: seq<View>, ghost envs: seq<Env>)
      requires Valid() && sslConn.Length > 0
      modifies this, sslConn
      ensures Valid() && config.RoundRobin(views, envs) && |views| == |envs| + 1
      ensures views[0] == old(ViewOf()) && |views[|envs|].slots| == sslConn.Length
      ensures |envs| == turns - left && (reached ==> views[|envs|] == ViewOf())
      ensures !reached ==> var v := views[|envs|]; config.Starts(v.slots[|envs| % sslConn.Length], v.created)
      ensures reached && left > 0 ==> config.Over(ViewOf())
      ensures reached && config.Over(ViewOf()) && config.maxConnections > 0 ==>
        && numConnections == config.maxConnections && failed == 0
        && forall i | 0 <= i < sslConn.Length :: sslConn[i].state == INIT && !sslConn[i].open
      ensures reached && config.Over(ViewOf()) && config.maxConnections <= 0 < config.maxBytes ==>
        totalReadBytes == totalWriteBytes == config.maxBytes
    {
      hide Config.Turn, Config.RoundRobin, Config.Over, SSLConnCtx.Accounts, SSLConnCtx.Done;
      left := turns;
      var i: nat := 0;
      views, envs := [ViewOf()], [];
      config.NoTurnTaken(ViewOf());
      while !Done() && left > 0
        invariant Valid() && i < sslConn.Length
        invariant config.RoundRobin(views, envs)
        invariant |views| == |envs| + 1 && views[0] == old(ViewOf())
        invariant |envs| == turns - left && views[|envs|] == ViewOf()
        invariant i == |envs| % sslConn.Length
        decreases left
      {
        DoneIsOver();
        var env: Env := *;
        reached := Visit(i, env);
        if !reached {
          return;
        }
        config.TurnTaken(views, envs, i, env, ViewOf());
        views, envs := views + [ViewOf()], envs + [env];
        NextSlot(|envs| - 1, sslConn.Length);
        i := (i + 1) % sslConn.Length;
        left := left - 1;
      }
      DoneIsOver();
      reached := true;
      if config.Over(ViewOf()) {
        AtTheEnd();
      }
    }
  }
}
