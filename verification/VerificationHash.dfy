/** The hash that the speed test computes over its query results. */
module VerificationHash {
  type Byte = n: nat | n < 256

  /** The state of the hash; the two indices are unsigned characters and wrap around. */
  datatype State = State(i: Byte, j: Byte, s: seq<Byte>)

  ghost predicate Permutation(s: seq<Byte>) {
    && |s| == 256
    && (forall v: Byte :: v in s)
    && forall k, l | 0 <= k < l < 256 :: s[k] != s[l]
  }

  function Add(a: Byte, b: Byte): Byte {
    (a + b) % 256
  }

  function Sub(a: Byte, b: Byte): Byte {
    (a - b) % 256
  }

  function Swap(s: seq<Byte>, k: Byte, l: Byte): (t: seq<Byte>)
    requires |s| == 256
    ensures |t| == 256
  {
    s[k := s[l]][l := s[k]]
  }

  // ------------------------------------------------------- the steps

  /** One byte of content. */
  function Absorb(h: State, b: Byte): (n: State)
    requires |h.s| == 256
    ensures |n.s| == 256
  {
    var j := Add(h.j, Add(h.s[h.i], b));
    State(Add(h.i, 1), j, Swap(h.s, h.i, j))
  }

  function Update(h: State, data: seq<Byte>): (n: State)
    requires |h.s| == 256
    ensures |n.s| == 256
    decreases |data|
  {
    if data == [] then h else Update(Absorb(h, data[0]), data[1..])
  }

  /** One step of the final phase. */
  function Squeeze(h: State): (n: State)
    requires |h.s| == 256
    ensures |n.s| == 256
  {
    var i := Add(h.i, 1);
    var j := Add(h.j, h.s[i]);
    State(i, j, Swap(h.s, i, j))
  }

  function Squeezed(h: State, n: nat): (m: State)
    requires |h.s| == 256
    ensures |m.s| == 256
  {
    if n == 0 then h else Squeeze(Squeezed(h, n - 1))
  }

  /** The byte that a step of the final phase leaves: the two exchanged elements select it. */
  function Output(h: State): Byte
    requires |h.s| == 256
  {
    h.s[Add(h.s[h.j], h.s[h.i])]
  }

  // ------------------------------------------------------- the steps in reverse

  function Unabsorb(n: State, b: Byte): (h: State)
    requires |n.s| == 256
    ensures |h.s| == 256
  {
    var i := Sub(n.i, 1);
    var s := Swap(n.s, i, n.j);
    State(i, Sub(n.j, Add(s[i], b)), s)
  }

  function Undo(n: State, data: seq<Byte>): (h: State)
    requires |n.s| == 256
    ensures |h.s| == 256
    decreases |data|
  {
    if data == [] then n else Unabsorb(Undo(n, data[1..]), data[0])
  }

  function Unsqueeze(n: State): (h: State)
    requires |n.s| == 256
    ensures |h.s| == 256
  {
    var s := Swap(n.s, n.i, n.j);
    State(Sub(n.i, 1), Sub(n.j, s[n.i]), s)
  }

  lemma AddSub(a: Byte, b: Byte)
    ensures Sub(Add(a, b), b) == a && Add(Sub(a, b), b) == a
  {
    assert a as int + b as int < 256 ==> Add(a, b) as int == a as int + b as int;
    assert a >= b ==> Sub(a, b) as int == a as int - b as int;
  }

  lemma SwapTwice(s: seq<Byte>, k: Byte, l: Byte)
    requires |s| == 256
    ensures Swap(Swap(s, k, l), k, l) == s
  {}

  lemma UnabsorbUndoes(h: State, b: Byte)
    requires |h.s| == 256
    ensures Unabsorb(Absorb(h, b), b) == h
  {
    var c := Add(h.s[h.i], b);
    AddSub(h.i, 1);
    AddSub(h.j, c);
    SwapTwice(h.s, h.i, Add(h.j, c));
  }

  lemma AbsorbUndoes(n: State, b: Byte)
    requires |n.s| == 256
    ensures Absorb(Unabsorb(n, b), b) == n
  {
    var i := Sub(n.i, 1);
    AddSub(n.i, 1);
    AddSub(n.j, Add(Swap(n.s, i, n.j)[i], b));
    SwapTwice(n.s, i, n.j);
  }

  /** An update by known content can be taken back, and every state is reached by one. */
  lemma {:induction false} UpdateIsReversible(h: State, data: seq<Byte>)
    requires |h.s| == 256
    ensures Undo(Update(h, data), data) == h && Update(Undo(h, data), data) == h
    decreases |data|
  {
    if data != [] {
      UpdateIsReversible(Absorb(h, data[0]), data[1..]);
      UnabsorbUndoes(h, data[0]);
      UpdateIsReversible(h, data[1..]);
      AbsorbUndoes(Undo(h, data[1..]), data[0]);
    }
  }

  lemma SqueezeIsReversible(h: State)
    requires |h.s| == 256
    ensures Unsqueeze(Squeeze(h)) == h && Squeeze(Unsqueeze(h)) == h
  {
    var i := Add(h.i, 1);
    AddSub(h.i, 1);
    AddSub(h.j, h.s[i]);
    SwapTwice(h.s, i, Add(h.j, h.s[i]));
    SwapTwice(h.s, h.i, h.j);
    AddSub(h.j, Swap(h.s, h.i, h.j)[h.i]);
  }

  // ------------------------------------------------------- content in pieces

  /** Hashing `a` and then `b` is hashing `a + b`. */
  lemma {:induction false} UpdateAppend(h: State, a: seq<Byte>, b: seq<Byte>)
    requires |h.s| == 256
    ensures Update(Update(h, a), b) == Update(h, a + b)
    decreases |a|
  {
    if a == [] {
      assert a + b == b;
    } else {
      assert (a + b)[1..] == a[1..] + b;
      UpdateAppend(Absorb(h, a[0]), a[1..], b);
    }
  }

  /** One byte of content in plain terms. */
  lemma AbsorbIs(h: State, b: Byte)
    requires |h.s| == 256
    ensures var n := Absorb(h, b); var a := h.s[h.i];
      && n.i == (h.i + 1) % 256 && n.j == (h.j + a + b) % 256
      && n.s == h.s[n.j := a][h.i := h.s[n.j]]
  {}

  /** One step of the final phase in plain terms. */
  lemma SqueezeIs(h: State)
    requires |h.s| == 256
    ensures var n := Squeeze(h); var a := h.s[n.i];
      && n.i == (h.i + 1) % 256 && n.j == (h.j + a) % 256
      && n.s == h.s[n.i := h.s[n.j]][n.j := a]
      && Output(n) == n.s[(a as int + n.s[n.i] as int) % 256]
  {}

  lemma UpdateOneMore(h: State, data: seq<Byte>, k: nat)
    requires |h.s| == 256 && k < |data|
    ensures Update(h, data[..k + 1]) == Absorb(Update(h, data[..k]), data[k])
  {
    assert data[..k + 1] == data[..k] + [data[k]];
    UpdateAppend(h, data[..k], [data[k]]);
    OneByte(Update(h, data[..k]), data[k]);
  }

  function UpdateAll(h: State, pieces: seq<seq<Byte>>): State
    requires |h.s| == 256
    decreases |pieces|
  {
    if pieces == [] then h else UpdateAll(Update(h, pieces[0]), pieces[1..])
  }

  function Content(pieces: seq<seq<Byte>>): seq<Byte> {
    if pieces == [] then [] else pieces[0] + Content(pieces[1..])
  }

  /** How the content is cut into calls does not matter. */
  lemma {:induction false} PiecesDoNotMatter(h: State, pieces: seq<seq<Byte>>)
    requires |h.s| == 256
    ensures UpdateAll(h, pieces) == Update(h, Content(pieces))
    decreases |pieces|
  {
    if pieces != [] {
      UpdateAppend(h, pieces[0], Content(pieces[1..]));
      PiecesDoNotMatter(Update(h, pieces[0]), pieces[1..]);
    }
  }

  lemma AddCancels(a: Byte, b: Byte, c: Byte)
    requires Add(a, b) == Add(a, c)
    ensures b == c
  {}

  /** A single different byte leaves a different state, whatever content surrounds it. */
  lemma OneByteMatters(h: State, before: seq<Byte>, b: Byte, c: Byte, after: seq<Byte>)
    requires |h.s| == 256 && b != c
    ensures Update(h, before + [b] + after) != Update(h, before + [c] + after)
  {
    var m := Update(h, before);
    UpdateAppend(h, before + [b], after);
    UpdateAppend(h, before, [b]);
    UpdateAppend(h, before + [c], after);
    UpdateAppend(h, before, [c]);
    OneByte(m, b);
    OneByte(m, c);
    if Add(m.j, Add(m.s[m.i], b)) == Add(m.j, Add(m.s[m.i], c)) {
      AddCancels(m.j, Add(m.s[m.i], b), Add(m.s[m.i], c));
      AddCancels(m.s[m.i], b, c);
    }
    UpdateIsReversible(Absorb(m, b), after);
    UpdateIsReversible(Absorb(m, c), after);
  }

  lemma OneByte(h: State, b: Byte)
    requires |h.s| == 256
    ensures Update(h, [b]) == Absorb(h, b)
  {
    assert [b][1..] == [];
  }

  // ------------------------------------------------------- the table stays a permutation

  lemma SwapPermutes(s: seq<Byte>, k: Byte, l: Byte)
    requires Permutation(s)
    ensures Permutation(Swap(s, k, l))
  {
    var t := Swap(s, k, l);
    forall v: Byte ensures v in t {
      assert v in s;
      var m :| 0 <= m < 256 && s[m] == v;
      assert t[if m == k then l else if m == l then k else m] == v;
    }
  }

  lemma {:induction false} UpdatePermutes(h: State, data: seq<Byte>)
    requires Permutation(h.s)
    ensures Permutation(Update(h, data).s)
    decreases |data|
  {
    if data != [] {
      SwapPermutes(h.s, h.i, Absorb(h, data[0]).j);
      UpdatePermutes(Absorb(h, data[0]), data[1..]);
    }
  }

  lemma {:induction false} SqueezePermutes(h: State, n: nat)
    requires Permutation(h.s)
    ensures Permutation(Squeezed(h, n).s)
  {
    if n > 0 {
      SqueezePermutes(h, n - 1);
      var m := Squeezed(h, n - 1);
      SwapPermutes(m.s, Add(m.i, 1), Squeeze(m).j);
    }
  }

  // ------------------------------------------------------- the program

  class Hash {
    var i: Byte
    var j: Byte
    const s: array<Byte>
    const r: array<Byte>

    ghost predicate Valid()
      reads this, s
    {
      s != r && s.Length == 256 && r.Length == 32 && Permutation(s[..])
    }

    function Current(): State
      reads this, s
    {
      State(i, j, s[..])
    }

    constructor ()
      ensures s != r && s.Length == 256 && r.Length == 32 && fresh(s) && fresh(r)
    {
      i, j := 0, 0;
      s := new Byte[256];
      r := new Byte[32];
    }

    method HashInit()
      requires s != r && s.Length == 256 && r.Length == 32
      modifies this, s
      ensures Valid() && i == 0 && j == 0 && forall k | 0 <= k < 256 :: s[k] == k
    {
      i, j := 0, 0;
      var k := 0;
      while k < 256
        invariant 0 <= k <= 256 && i == 0 && j == 0
        invariant forall l | 0 <= l < k :: s[l] == l
      {
        s[k] := k;
        k := k + 1;
      }
      forall v: Byte ensures v in s[..] { assert s[..][v] == v; }
    }

    method HashUpdate(data: seq<Byte>)
      requires Valid()
      modifies this, s
      ensures Valid() && Current() == Update(old(Current()), data)
      ensures |data| == 1 ==>
        && i == (old(i) + 1) % 256
        && j == (old(j + s[i]) + data[0]) % 256
        && s[..] == old(s[..])[j := old(s[i])][old(i) := old(s[..])[j]]
    {
      ghost var h := Current();
      var i', j' := i, j;
      var k := 0;
      while k < |data|
        invariant 0 <= k <= |data|
        invariant State(i', j', s[..]) == Update(h, data[..k])
      {
        UpdateOneMore(h, data, k);
        ghost var table := s[..];
        j' := Add(j', Add(s[i'], data[k]));
        var t := s[j'];
        s[j'] := s[i'];
        s[i'] := t;
        assert s[..] == Swap(table, i', j');
        i' := Add(i', 1);
        k := k + 1;
      }
      i, j := i', j';
      assert data[..k] == data;
      UpdatePermutes(h, data);
      if |data| == 1 {
        assert data == [data[0]];
        OneByte(h, data[0]);
        AbsorbIs(h, data[0]);
      }
    }

    /** The indices of the final phase are not stored; the table and the result are. */
    method HashFinal()
      requires Valid()
      modifies s, r
      ensures Valid() && s[..] == old(Squeezed(Current(), 32)).s
      ensures forall k | 0 <= k < 32 ::
        var n := old(Squeezed(Current(), k + 1));
        r[k] == n.s[(n.s[n.i] as int + n.s[n.j] as int) % 256]
    {
      ghost var h := Current();
      var i', j' := i, j;
      var k := 0;
      while k < 32
        invariant 0 <= k <= 32
        invariant Squeezed(h, k) == State(i', j', s[..])
        invariant forall l | 0 <= l < k :: r[l] == Output(Squeezed(h, l + 1))
      {
        i' := Add(i', 1);
        var t := s[i'];
        j' := Add(j', t);
        s[i'] := s[j'];
        s[j'] := t;
        t := Add(t, s[i']);
        r[k] := s[t];
        k := k + 1;
      }
      SqueezePermutes(h, 32);
    }
  }
}
