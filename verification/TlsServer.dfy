/** The event loop of the poll server. */
module TlsServer {
  import opened PollSystem
  import opened Connections
  import opened EventTable
  import opened TlsCalls

  class Server {
    const kernel: Kernel
    const ctx: SSLConnCtx
    const maxConns: nat
    const events: array<PollFd>
    const eventsData: array<SSLConn?>
    var socketfd: int

    /** What the event loop sees. */
    ghost function State(): Table
      reads this, ctx, kernel, events, eventsData
    {
      Table(events[..], eventsData[..], ctx.active, ctx.free, ctx.freed, kernel.open, socketfd, ctx.numConns)
    }

    ghost predicate Valid()
      reads this, ctx, ctx.live, kernel, events, eventsData
    {
      && ctx.kernel == kernel && ctx.maxConnections == maxConns && ctx.Valid()
      && events.Length == eventsData.Length == maxConns + 1
      && (ctx.accepting ==> events[maxConns].fd == socketfd)
    }

    /** The server is never deaf: while another connection is allowed the listener is on, unless
        it was closed after an error. */
    ghost predicate Listening()
      reads this, ctx, events
      requires events.Length == maxConns + 1
    {
      |ctx.active| < ctx.numConns ==> events[maxConns].fd == socketfd
    }

    constructor (kernel: Kernel, numConns: nat, bufferLen: int, replyLen: int, maxConns: nat, maxBytes: int, socketfd: int)
      requires socketfd >= 0 && socketfd in kernel.open
      ensures Valid() && Initial() && fresh(ctx) && fresh(events) && fresh(eventsData)
      ensures this.kernel == kernel && this.maxConns == maxConns && ctx.numConns == numConns
    {
      this.kernel := kernel;
      this.maxConns := maxConns;
      this.socketfd := socketfd;
      ctx := new SSLConnCtx(kernel, numConns, bufferLen, replyLen, maxConns, maxBytes);
      events := new PollFd[maxConns + 1](k =>
        if k == maxConns then PollFd(socketfd, {POLLIN}, {}) else PollFd(DISABLED_EVENT_SLOT_FD, {}, {}));
      eventsData := new SSLConn?[maxConns + 1](_ => null);
    }

    /** Nothing has been accepted and only the listener is waited for. */
    ghost predicate Initial()
      reads this, ctx, kernel, events, eventsData
    {
      && ctx.live == {} && ctx.active == [] && ctx.free == [] && ctx.freed == [] && ctx.log == []
      && events.Length == eventsData.Length == maxConns + 1 && ctx.numConns >= 0
      && socketfd >= 0 && socketfd in kernel.open
      && events[maxConns].fd == socketfd && events[maxConns].events == {POLLIN}
      && (forall k | 0 <= k < maxConns :: events[k].fd == DISABLED_EVENT_SLOT_FD)
      && (forall k | 0 <= k < maxConns + 1 :: eventsData[k] == null)
    }

    lemma InitialIsAtPoll()
      requires Initial()
      ensures State().AtPoll()
    {
      AtStart(State());
    }

    /** The first slot of the table without a descriptor, or -1. */
    method AllocateEventSlot() returns (slot: int)
      requires events.Length == maxConns + 1
      ensures slot == FirstFree(events[..], 0, maxConns)
      ensures if slot == -1 then forall k | 0 <= k < maxConns :: events[k].fd != -1
        else 0 <= slot < maxConns && events[slot].fd == -1 && forall k | 0 <= k < slot :: events[k].fd != -1
    {
      FirstFreeIsFree(events[..], 0, maxConns);
      slot := 0;
      while slot < maxConns
        invariant 0 <= slot <= maxConns
        invariant FirstFree(events[..], 0, maxConns) == FirstFree(events[..], slot, maxConns)
      {
        if events[slot].fd == DISABLED_EVENT_SLOT_FD {
          return;
        }
        slot := slot + 1;
      }
      slot := -1;
    }

    /** An error on a client's descriptor: its slot is released and the listener switched on. */
    method ReleaseClient(i: nat)
      requires Valid() && State().InPass(i) && i < maxConns && eventsData[i] != null
      modifies events, eventsData
      ensures Valid() && State() == SlotReleased(old(State()), i) && State().InPass(i + 1)
      ensures eventsData[i] == null && events[i] == PollFd(-1, {}, {}) && events[maxConns].fd == socketfd
      ensures forall k | 0 <= k < maxConns && k != i :: events[k] == old(events[k]) && eventsData[k] == old(eventsData[k])
    {
      hide SSLConnCtx.ValidFrom, Table.Handled, Table.Spare;
      AfterRelease(State(), i);
      eventsData[i] := null;
      events[i] := PollFd(DISABLED_EVENT_SLOT_FD, {}, {});
      events[maxConns] := events[maxConns].(fd := socketfd);
    }

    /** An error on the listener: it is closed for good. */
    method CloseListener()
      requires Valid() && State().InPass(maxConns) && socketfd in kernel.open
      modifies this, kernel, events
      ensures Valid() && State() == ListenerClosed(old(State())) && State().InPass(maxConns + 1)
      ensures socketfd == -1 && events[maxConns].fd == -1 && kernel.open == old(kernel.open) - {old(socketfd)}
      ensures forall k | 0 <= k < maxConns :: events[k] == old(events[k])
    {
      AfterListenerError(State());
      ShutListener();
    }

    method ShutListener()
      requires Valid() && forall c | c in ctx.live :: c.sockfd != socketfd
      modifies this, kernel, events
      ensures Valid() && State() == ListenerClosed(old(State()))
    {
      kernel.Close(socketfd);
      socketfd := -1;
      events[maxConns] := events[maxConns].(fd := DISABLED_EVENT_SLOT_FD);
    }

    /** Asks for a connection on the listening socket. */
    method TakeClient(ghost before: Table) returns (conn: SSLConn?)
      requires Valid() && before == State() && before.InPass(maxConns) && socketfd in kernel.open
      modifies ctx, kernel, ctx.live
      ensures Valid() && fresh(ctx.live - old(ctx.live))
      ensures Uses(ctx.log) == Uses(old(ctx.log))
      ensures conn == null ==> IfFull(State()).InPass(maxConns + 1) && before.open <= State().open
      ensures conn == null ==> State() == before.(open := State().open)
      ensures ctx.log == if conn == null then old(ctx.log) else old(ctx.log) + [Opened(conn)]
      ensures conn != null ==>
        && |before.active| < before.numConns && conn !in before.active && conn !in before.free && conn !in before.data
        && conn.sockfd >= 0 && conn.sockfd !in before.open
        && State() == before.(active := [conn] + before.active, open := before.open + {conn.sockfd})
    {
      hide SSLConnCtx.Counts, SSLConnCtx.Owners, Records;
      var env: Arrival := *;
      conn := ctx.Accept(socketfd, env);
      if conn != null { UsesAppend(old(ctx.log), Opened(conn)); }
      if conn == null {
        NothingTaken(before);
      }
    }

    lemma NothingTaken(before: Table)
      requires Valid() && before.InPass(maxConns) && |before.fds| == maxConns + 1
      requires State() == before.(open := kernel.open) && before.open <= kernel.open
      ensures IfFull(State()).InPass(maxConns + 1)
    {
      AfterNoAccept(before, kernel.open);
    }

    /** Gives a new connection the first free slot, -1 if there is none. */
    method AssignSlot(conn: SSLConn, ghost before: Table) returns (slot: int)
      requires Valid() && |before.fds| == maxConns + 1
      requires before.InPass(maxConns) && before.fds[maxConns].revents != {}
      requires |before.active| < before.numConns && conn !in before.active && conn !in before.free && conn !in before.data
      requires conn.sockfd >= 0 && conn.sockfd !in before.open
      requires State() == before.(active := [conn] + before.active, open := before.open + {conn.sockfd})
      modifies events, eventsData
      ensures Valid() && -1 <= slot == FirstFree(before.fds, 0, maxConns) < maxConns
      ensures slot < 0 ==> ctx.numConns > maxConns
      ensures slot >= 0 ==> IfFull(State()).InPass(maxConns + 1) && State() == SlotAssigned(before, conn, slot)
      ensures slot >= 0 ==>
        && events[slot].fd == conn.sockfd && events[slot].events == {POLLIN} && eventsData[slot] == conn
        && forall k | 0 <= k <= maxConns && k != slot :: events[k] == old(events[k]) && eventsData[k] == old(eventsData[k])
    {
      hide SSLConnCtx.ValidFrom, Table.InPass;
      slot := AllocateEventSlot();
      FirstFreeIsFree(events[..], 0, maxConns);
      if slot < 0 {
        if before.numConns <= maxConns { SlotAvailable(before); }
      } else {
        AcceptInto(conn, slot, before);
        FillSlot(conn, slot, before);
      }
    }

    lemma AcceptInto(conn: SSLConn, slot: nat, before: Table)
      requires before.InPass(maxConns) && |before.fds| == maxConns + 1 && before.fds[maxConns].revents != {}
      requires |before.active| < before.numConns && conn !in before.active && conn !in before.free && conn !in before.data
      requires conn.sockfd >= 0 && conn.sockfd !in before.open
      requires slot < maxConns && before.fds[slot].fd == DISABLED_EVENT_SLOT_FD
      ensures IfFull(SlotAssigned(before, conn, slot)).InPass(maxConns + 1)
    {
      AfterAccept(before, conn, slot);
    }

    /** Waits for input of a connection in slot `slot`. */
    method FillSlot(conn: SSLConn, slot: nat, ghost before: Table)
      requires Valid() && slot < maxConns
      requires State() == before.(active := [conn] + before.active, open := before.open + {conn.sockfd})
      modifies events, eventsData
      ensures Valid() && State() == SlotAssigned(before, conn, slot)
      ensures events[slot].fd == conn.sockfd && events[slot].events == {POLLIN} && eventsData[slot] == conn
      ensures forall k | 0 <= k <= maxConns && k != slot :: events[k] == old(events[k]) && eventsData[k] == old(eventsData[k])
    {
      events[slot] := events[slot].(events := {POLLIN}, fd := conn.sockfd);
      eventsData[slot] := conn;
    }

    /** The listener is ready: a new connection gets the first free slot. `full` reports that
        there was none, which ends the program. */
    method AcceptClient() returns (full: bool)
      requires Valid() && State().InPass(maxConns) && events[maxConns].revents != {}
      modifies ctx, kernel, events, eventsData, ctx.live
      ensures Valid() && fresh(ctx.live - old(ctx.live))
      ensures full ==> ctx.numConns > maxConns
      ensures full ==> old(|ctx.active|) < ctx.numConns && FirstFree(old(events[..]), 0, maxConns) == -1
      ensures !full ==> State().InPass(maxConns + 1) && AcceptStep(old(State()), State())
      ensures !full && |ctx.active| == ctx.numConns ==> events[maxConns].fd == -1 && !ctx.accepting
      ensures !full && |ctx.active| > old(|ctx.active|) ==>
        ctx.log == old(ctx.log) + [Opened(ctx.active[0])]
        && exists k | 0 <= k < maxConns ::
             eventsData[k] == ctx.active[0] && events[k].fd == ctx.active[0].sockfd && events[k].events == {POLLIN}
      ensures Uses(ctx.log) == Uses(old(ctx.log))
    {
      hide SSLConnCtx.ValidFrom, Table.InPass, Uses;
      full := false;
      ghost var before := State();
      ListenerHasNoConnection(before, maxConns);
      EmptySlotIsListener(before, maxConns);
      var conn := TakeClient(before);
      if conn != null {
        var slot := AssignSlot(conn, before);
        if slot < 0 {
          return true;
        }
      }
      TurnOffWhenFull();
    }

    /** Switches the listener off when no further connection is allowed. */
    method TurnOffWhenFull()
      requires Valid()
      modifies ctx`accepting, events
      ensures Valid() && State() == IfFull(old(State()))
      ensures ctx.accepting == (old(ctx.accepting) && |ctx.active| != ctx.numConns)
      ensures events[maxConns].fd == if |ctx.active| == ctx.numConns then -1 else old(events[maxConns].fd)
    {
      if ctx.cnt == ctx.numConns {
        events[maxConns] := events[maxConns].(fd := DISABLED_EVENT_SLOT_FD);
        ctx.accepting := false;
      }
    }

    /** A client is ready: its connection, which is on the active list, makes a step. */
    method ServeClient(i: nat)
      requires Valid() && State().InPass(i) && i <= maxConns && POLLIN in events[i].revents && eventsData[i] != null
      modifies ctx, ctx.live
      ensures Valid() && ctx.live == old(ctx.live) && State().InPass(i + 1)
      ensures SlotStep(old(State()), i, State()) && Uses(ctx.log) == Uses(old(ctx.log)) + [eventsData[i]]
    {
      ghost var before := State();
      ServedSlotIsActive(before, i);
      AfterUse(before, i);
      AfterClose(before, i, Position(before.active, eventsData[i]));
      StepClient(eventsData[i], before);
    }

    method StepClient(conn: SSLConn, ghost before: Table)
      requires Valid() && before == State() && conn in before.active
      modifies ctx, ctx.live
      ensures Valid() && ctx.live == old(ctx.live)
      ensures State() == before || State() == ConnectionClosed(before, conn, Position(before.active, conn))
      ensures Uses(ctx.log) == Uses(old(ctx.log)) + [conn]
    {
      hide SSLConnCtx.Counts, SSLConnCtx.Owners, Records;
      var a: Answer, b: Answer := *, *;
      ghost var q := ctx.ReadWrite(conn, a, b);
      UsesAppend(old(ctx.log), Used(conn));
      UsesAppend(old(ctx.log) + [Used(conn)], Closed(conn));
      assert old(ctx.log) + [Used(conn), Closed(conn)] == old(ctx.log) + [Used(conn)] + [Closed(conn)];
    }

    /** The end of a pass. */
    method EndPass()
      requires Valid() && State().InPass(maxConns + 1)
      modifies ctx, kernel, events
      ensures Valid() && ctx.live <= old(ctx.live) && State().AtPoll() && Listening()
      ensures PassEnd(old(State()), State())
    {
      ghost var before := State();
      AfterPass(before);
      FreeClosed();
      TurnOnWhenSpare();
    }

    method FreeClosed()
      requires Valid()
      modifies ctx, kernel
      ensures Valid() && ctx.live <= old(ctx.live)
      ensures State() == ClosedFreed(old(State()))
    {
      ctx.FreeSSLConn();
    }

    /** Switches the listener on again after it was switched off, once a connection is allowed. */
    method TurnOnWhenSpare()
      requires Valid()
      modifies ctx`accepting, events
      ensures Valid()
      ensures Listening() && ctx.accepting == (old(ctx.accepting) || |ctx.active| < ctx.numConns)
      ensures State() == if old(ctx.accepting) || |ctx.active| >= ctx.numConns then old(State()) else ListenerOn(old(State()))
    {
      if !ctx.accepting && ctx.cnt < ctx.numConns {
        events[maxConns] := events[maxConns].(fd := socketfd);
        ctx.accepting := true;
      }
    }

    /** Handles what poll reported for slot `i`. */
    method HandleSlot(i: nat) returns (full: bool)
      requires Valid() && i <= maxConns && State().InPass(i)
      modifies this, ctx, kernel, events, eventsData, ctx.live
      ensures Valid() && fresh(ctx.live - old(ctx.live))
      ensures full ==> ctx.numConns > maxConns && i == maxConns && NoSlotLeft(old(State()))
      ensures !full ==> State().InPass(i + 1) && SlotStep(old(State()), i, State())
      ensures Uses(ctx.log) == Uses(old(ctx.log)) + ReadyAt(old(State()), i)
    {
      hide SSLConnCtx.ValidFrom, Table.Consistent, Table.Spare, Table.Handled, AcceptStep, Uses;
      full := false;
      if events[i].revents == {} {
        AfterSkip(State(), i);
      } else if POLLIN !in events[i].revents {
        if eventsData[i] == null {
          EmptySlotIsListener(State(), i);
          CloseListener();
        } else {
          ListenerHasNoConnection(State(), i);
          ReleaseClient(i);
        }
      } else if eventsData[i] == null {
        EmptySlotIsListener(State(), i);
        full := AcceptClient();
      } else {
        ServeClient(i);
      }
    }

    /** Waits for events. */
    method WaitForEvents()
      requires Valid() && State().AtPoll()
      modifies events
      ensures Valid() && State().InPass(0)
      ensures PassBegins(old(State()), [State()])
    {
      ghost var before := State();
      kernel.Poll(events);
      AfterPoll(before, events[..]);
      assert State() == before.(fds := events[..]);
    }

    /** Handles all slots. The connections that make a step are exactly those that poll reported
        as readable, in the order of their slots. */
    method HandleSlots() returns (full: bool, ghost trace: seq<Table>)
      requires Valid() && State().InPass(0)
      modifies this, ctx, kernel, events, eventsData, ctx.live
      ensures Valid() && fresh(ctx.live - old(ctx.live))
      ensures full ==> ctx.numConns > maxConns
      ensures !full ==> State().InPass(maxConns + 1)
      ensures SlotSteps(trace, maxConns + 1) && trace[0] == old(State())
      ensures !full ==> |trace| == maxConns + 2 && trace[maxConns + 1] == State()
      ensures full ==> |trace| == maxConns + 1 && NoSlotLeft(trace[maxConns])
      ensures !full ==> Uses(ctx.log) == Uses(old(ctx.log)) + Ready(old(State()), maxConns + 1)
    {
      hide Table.InPass, SSLConnCtx.ValidFrom, SlotStep, Uses, NoSlotLeft, SlotSteps;
      ghost var before := State();
      full, trace := false, [before];
      TraceStarts(before);
      var i := 0;
      while i < maxConns + 1
        invariant i <= maxConns + 1
        invariant Valid() && State().InPass(i) && fresh(ctx.live - old(ctx.live))
        invariant SlotSteps(trace, maxConns + 1) && |trace| == i + 1 && trace[0] == before && trace[i] == State()
        invariant SameFrom(before, State(), i)
        invariant Uses(ctx.log) == Uses(old(ctx.log)) + Ready(before, i)
      {
        ghost var t := State();
        full := HandleSlot(i);
        if full {
          return;
        }
        TraceExtends(trace, State(), maxConns + 1);
        trace := trace + [State()];
        StepKeepsLaterSlots(t, i, State());
        i := i + 1;
      }
    }

    /** One pass of the event loop, through the tables of the trace; it ends the program only when no slot
        is left for a connection that is allowed. */
    method Pass() returns (full: bool, ghost trace: seq<Table>)
      requires Valid() && State().AtPoll() && Listening()
      modifies this, ctx, kernel, events, eventsData, ctx.live
      ensures Valid() && fresh(ctx.live - old(ctx.live))
      ensures full ==> ctx.numConns > maxConns
      ensures !full ==> State().AtPoll() && Listening() && PassStep(old(State()), trace, State())
      ensures full ==> GivesUp(old(State()), trace)
    {
      hide Table.InPass, Table.AtPoll, SSLConnCtx.ValidFrom;
      WaitForEvents();
      full, trace := HandleSlots();
      if !full {
        EndPass();
      }
    }

    /** Handles clients until the run is over, for at most `passes` passes; `left` of them are not needed. What
        happens is a sequence of passes, each of which begins with fewer connections handled than the run is for. */
    method EventLoop(passes: nat) returns (full: bool, left: nat, ghost tables: seq<Table>, ghost traces: seq<seq<Table>>)
      requires Valid() && State().AtPoll() && Listening()
      modifies this, ctx, kernel, events, eventsData, ctx.live
      ensures Valid() && fresh(ctx.live - old(ctx.live))
      ensures full ==> ctx.numConns > maxConns && RunToTheEnd(tables, traces)
      ensures !full ==> State().AtPoll() && Listening()
      ensures !full ==> RunSoFar(tables, traces) && |traces| == passes - left && tables[|traces|] == State()
      ensures |tables| >= 1 && tables[0] == old(State())
      ensures !full && left > 0 && maxConns > 0 ==> ctx.numConnections >= maxConns
      ensures !full && left > 0 && maxConns == 0 ==> ctx.totalWriteBytes >= ctx.maxBytes && ctx.totalReadBytes >= ctx.maxBytes
      ensures forall k | 0 <= k < |traces| && k < |tables| && maxConns > 0 :: |tables[k].freed| < maxConns
    {
      hide Table.Consistent, Table.Spare, PassStep, GivesUp, SSLConnCtx.Lists, SSLConnCtx.Owners, Records;
      full, left := false, passes;
      tables, traces := [State()], [];
      while !ctx.Done() && left > 0
        invariant Valid() && State().AtPoll() && Listening() && fresh(ctx.live - old(ctx.live))
        invariant RunSoFar(tables, traces) && |traces| == passes - left
        invariant tables[0] == old(State()) && tables[|traces|] == State()
        invariant forall k | 0 <= k < |traces| && maxConns > 0 :: |tables[k].freed| < maxConns
        decreases left
      {
        ghost var trace;
        full, trace := Pass();
        if full {
          RunEnds(tables, traces, trace);
          traces := traces + [trace];
          return;
        }
        RunGoesOn(tables, traces, trace, State());
        tables, traces := tables + [State()], traces + [trace];
        left := left - 1;
      }
    }

    /** Closes the listener and every connection. */
    method Shutdown()
      requires Valid() && State().AtPoll()
      modifies ctx, kernel, ctx.live
      ensures ctx.Valid() && ctx.active == [] && ctx.free == [] && |ctx.freed| == ctx.numConnections >= old(ctx.numConnections)
      ensures kernel.open == old(kernel.open) - old(ctx.owner.Keys) - (if socketfd == -1 then {} else {socketfd})
    {
      if socketfd != -1 {
        kernel.Close(socketfd);
      }
      ctx.Free();
    }

    /** From now on the listener counts as being on. */
    method Start()
      requires Valid() && Initial()
      modifies ctx`accepting
      ensures Valid() && State().AtPoll() && Listening()
    {
      InitialIsAtPoll();
      ctx.accepting := true;
    }

    /** The whole run, cut off after `passes` passes, of which `left` are not needed. The program gives up with
        a full table only when more connections are allowed than there are slots. Otherwise every connection
        that was accepted has been closed and freed, each once and in the legal order, and unless the run
        was cut off there are as many as it is for. */
    method Run(passes: nat) returns (full: bool, left: nat)
      requires Valid() && Initial()
      modifies this, ctx, kernel, events, eventsData, ctx.live
      ensures full ==> ctx.numConns > maxConns
      ensures Legal(ctx.log)
      ensures !full ==> |ctx.freed| == ctx.numConnections && forall e | e in ctx.log :: Released(e.conn) in ctx.log
      ensures !full && left > 0 && maxConns > 0 ==> |ctx.freed| >= maxConns
    {
      hide Table.AtPoll, SSLConnCtx.Lists, SSLConnCtx.Counts, SSLConnCtx.Owners;
      Start();
      ghost var tables, traces;
      full, left, tables, traces := EventLoop(passes);
      if !full {
        Shutdown();
      }
    }
  }
}
