/** What the TLS library answers, and how both programs read its answers. */
module TlsCalls {
  datatype TlsError = NoError | WantRead | WantWrite | Pending | OtherError

  /** The return value of a call, and the error that is asked for afterwards. */
  datatype Answer = Answer(value: int, error: TlsError)

  /** 0 is a failure, 1 a success, and 2 to 4 say what is waited for. */
  function Code(error: TlsError): nat {
    match error
    case NoError => 1
    case WantRead => 2
    case WantWrite => 3
    case Pending => 4
    case OtherError => 0
  }

  /** A call that is to move `len` bytes moves no more. */
  function Returned(len: int, a: Answer): (n: int)
    ensures n <= len && n <= a.value && (n == len || n == a.value)
  {
    if a.value < len then a.value else len
  }

  function Moved(len: int, a: Answer): (n: nat)
    ensures a.value <= 0 || len <= 0 ==> n == 0
    ensures a.value > 0 && len > 0 ==> n <= len && n <= a.value && (n == len || n == a.value)
  {
    if Returned(len, a) > 0 then Returned(len, a) else 0
  }

  /** A read fails when the connection has ended or for an error that nothing is known about. */
  function ReadCode(len: int, a: Answer): (code: nat)
    ensures code == 0 <==> Returned(len, a) == 0 || a.error == OtherError
    ensures code == 1 <==> Returned(len, a) != 0 && a.error == NoError
    ensures code == 4 <==> Returned(len, a) != 0 && a.error == Pending
  {
    if Returned(len, a) == 0 then 0 else Code(a.error)
  }

  /** A full write is a success whatever the error. */
  function WriteCode(len: int, a: Answer): (code: nat)
    ensures code == 0 <==> Returned(len, a) == 0 || (Returned(len, a) != len && a.error == OtherError)
    ensures code == 1 <==> Returned(len, a) != 0 && (Returned(len, a) == len || a.error == NoError)
  {
    if Returned(len, a) == 0 then 0 else if Returned(len, a) == len then 1 else Code(a.error)
  }

  /** A handshake that is not over and has no error is a failure, too. */
  function HandshakeCode(a: Answer): (code: nat)
    ensures code == 0 <==> a.value == 0 || (a.value != 1 && (a.error == NoError || a.error == OtherError))
    ensures code == 1 <==> a.value == 1
  {
    if a.value == 0 then 0 else if a.value == 1 then 1 else if a.error == NoError then 0 else Code(a.error)
  }

  /** The bytes to ask for next: `wanted`, unless a limit (0 for none) is nearer. */
  function Allowance(wanted: int, limit: int, total: int): (n: int)
    ensures limit <= 0 ==> n == wanted
    ensures limit > 0 ==> n <= wanted && n <= limit - total && (n == wanted || n == limit - total)
  {
    if limit > 0 && limit - total < wanted then limit - total else wanted
  }

  /** A limit that is respected stays respected. */
  lemma LimitHolds(wanted: int, limit: int, total: int, a: Answer)
    requires limit > 0 && total <= limit
    ensures total <= total + Moved(Allowance(wanted, limit, total), a) <= limit
  {}
}
