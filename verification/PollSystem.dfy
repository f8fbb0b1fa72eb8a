/** The part of the operating system that the poll server uses. */
module PollSystem {
  datatype PollFlag = POLLIN | POLLERR | POLLHUP | POLLNVAL

  datatype PollFd = PollFd(fd: int, events: set<PollFlag>, revents: set<PollFlag>)

  const DISABLED_EVENT_SLOT_FD := -1

  /** What poll reports whether it was asked for or not. */
  const ALWAYS_REPORTED: set<PollFlag> := {POLLERR, POLLHUP, POLLNVAL}

  /** The descriptors of the process. What the program cannot predict is an argument or arbitrary. */
  class Kernel {
    var open: set<int>

    constructor (descriptors: set<int>)
      ensures open == descriptors
    {
      open := descriptors;
    }

    method Close(fd: int)
      modifies this
      ensures open == old(open) - {fd}
    {
      open := open - {fd};
    }

    /** The descriptor that accept gives out when `answer` is proposed: only one that is not open. */
    function Granted(answer: int): int
      reads this
    {
      if answer >= 0 && answer !in open then answer else -1
    }

    method Accept(answer: int) returns (fd: int)
      modifies this
      ensures fd == old(Granted(answer))
      ensures open == if fd == -1 then old(open) else old(open) + {fd}
    {
      fd := Granted(answer);
      if fd != -1 {
        open := open + {fd};
      }
    }

    /** poll with no timeout, assumed to succeed: a negative descriptor is skipped, a closed
        one is reported as POLLNVAL alone, an open one gets any answer to what it asks for. */
    method Poll(fds: array<PollFd>)
      modifies fds
      ensures forall k | 0 <= k < fds.Length ::
        && fds[k].fd == old(fds[k].fd)
        && fds[k].events == old(fds[k].events)
        && fds[k].revents <= fds[k].events + ALWAYS_REPORTED
        && (fds[k].fd < 0 ==> fds[k].revents == {})
        && (fds[k].fd >= 0 && fds[k].fd !in open ==> fds[k].revents == {POLLNVAL})
    {
      for i := 0 to fds.Length
        invariant forall k | 0 <= k < fds.Length :: fds[k].fd == old(fds[k].fd) && fds[k].events == old(fds[k].events)
        invariant forall k | 0 <= k < i ::
          && fds[k].revents <= fds[k].events + ALWAYS_REPORTED
          && (fds[k].fd < 0 ==> fds[k].revents == {})
          && (fds[k].fd >= 0 && fds[k].fd !in open ==> fds[k].revents == {POLLNVAL})
      {
        var answer: set<PollFlag> := *;
        fds[i] := fds[i].(revents :=
          if fds[i].fd < 0 then {} else if fds[i].fd !in open then {POLLNVAL}
          else answer * (fds[i].events + ALWAYS_REPORTED));
      }
    }
  }
}
