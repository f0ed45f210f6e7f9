/** The console's input line discipline (kernel/console.c:78-258): a ring
    buffer of INPUT_BUF_SIZE bytes and three indices into the stream of
    bytes typed so far. Bytes [r, w) are committed and may be read, bytes
    [w, e) form the line still being edited, and the slot of byte i is
    i % INPUT_BUF_SIZE.

    The indices are uint in the source and wrap around; here they are
    unbounded naturals. UintIndexing and UintDistance show that nothing
    the driver computes from them changes: 128 divides 2^32, and the
    indices stay within 128 of each other. */
module Console {
  import opened ByteOrder

  const INPUT_BUF_SIZE: nat := 128

  // Control characters: C(x) is x - '@' (kernel/console.c:51).
  const CTRL_D: byte := 0x04
  const CTRL_H: byte := 0x08
  const CTRL_P: byte := 0x10
  const CTRL_U: byte := 0x15
  const DEL: byte := 0x7f
  const NL: byte := 0x0a
  const CR: byte := 0x0d

  const UINT_RANGE: nat := 0x1_0000_0000

  /** uint indexing: the slot of an index does not depend on whether the
      index wrapped, since 128 divides 2^32. */
  lemma UintIndexing(x: nat)
    ensures (x % UINT_RANGE) % INPUT_BUF_SIZE == x % INPUT_BUF_SIZE
  {
    var q := x / UINT_RANGE;
    assert x == UINT_RANGE * q + x % UINT_RANGE;
    assert UINT_RANGE * q == INPUT_BUF_SIZE * (0x200_0000 * q);
  }

  /** uint subtraction of two wrapped indices gives their true distance
      while it is below 2^32 (e - r of kernel/console.c:237, 246). */
  lemma UintDistance(e: nat, r: nat)
    requires r <= e < r + UINT_RANGE
    ensures (e % UINT_RANGE - r % UINT_RANGE) % UINT_RANGE == e - r
  {
    var qe, qr := e / UINT_RANGE, r / UINT_RANGE;
    assert e == UINT_RANGE * qe + e % UINT_RANGE;
    assert r == UINT_RANGE * qr + r % UINT_RANGE;
    if qe == qr {
      assert e % UINT_RANGE - r % UINT_RANGE == e - r;
    } else {
      assert qe == qr + 1;
      assert e % UINT_RANGE - r % UINT_RANGE == e - r - UINT_RANGE;
    }
  }

  // -----------------------------------------------------------------------
  // The state and what it holds.

  /** The fields of struct cons other than the lock. */
  datatype ConsState = ConsState(buf: seq<byte>, r: nat, w: nat, e: nat)

  /** r <= w <= e, and no more bytes are held than the buffer has slots. */
  ghost predicate Inv(s: ConsState) {
    |s.buf| == INPUT_BUF_SIZE && s.r <= s.w <= s.e <= s.r + INPUT_BUF_SIZE
  }

  /** The bytes held, committed and edited, in the order they were typed. */
  function Held(s: ConsState): (q: seq<byte>)
    requires |s.buf| == INPUT_BUF_SIZE && s.r <= s.e
    ensures |q| == s.e - s.r
  {
    seq(s.e - s.r, i requires 0 <= i < s.e - s.r => s.buf[(s.r + i) % INPUT_BUF_SIZE])
  }

  /** The committed bytes, which consoleread may take. */
  function Committed(s: ConsState): (q: seq<byte>)
    requires |s.buf| == INPUT_BUF_SIZE && s.r <= s.w <= s.e
    ensures |q| == s.w - s.r
  {
    Held(s)[.. s.w - s.r]
  }

  // -----------------------------------------------------------------------
  // consoleintr (kernel/console.c:209-258).

  /** The edit index after ^U: e moves back over the edited line until it
      meets w or a newline (kernel/console.c:220-224). */
  function KillLine(buf: seq<byte>, w: nat, e: nat): (k: nat)
    requires |buf| == INPUT_BUF_SIZE && w <= e
    ensures w <= k <= e
    decreases e - w
  {
    if e == w || buf[(e - 1) % INPUT_BUF_SIZE] == NL then e
    else KillLine(buf, w, e - 1)
  }

  /** The byte stored for an ordinary key: '\r' becomes '\n'. */
  function Stored(c: byte): byte {
    if c == CR then NL else c
  }

  /** A key other than ^P, ^U, ^H and DEL. */
  predicate Ordinary(c: byte) {
    c != CTRL_P && c != CTRL_U && c != CTRL_H && c != DEL
  }

  /** The state after consoleintr(c). */
  function AfterIntr(s: ConsState, c: byte): ConsState
    requires Inv(s)
  {
    if c == CTRL_P then s
    else if c == CTRL_U then s.(e := KillLine(s.buf, s.w, s.e))
    else if c == CTRL_H || c == DEL then
      if s.e != s.w then s.(e := s.e - 1) else s
    else if c != 0 && s.e - s.r < INPUT_BUF_SIZE then
      var s' := s.(buf := s.buf[s.e % INPUT_BUF_SIZE := Stored(c)], e := s.e + 1);
      if Stored(c) == NL || Stored(c) == CTRL_D || s'.e - s'.r == INPUT_BUF_SIZE then s'.(w := s'.e) else s'
    else s
  }

  /** What the kill-line loop removes: it stops at w or just after a
      newline, never goes below w, and every byte it removes is not a
      newline; the bytes before the new edit index stay. */
  lemma {:induction false} KillLineStops(buf: seq<byte>, w: nat, e: nat)
    requires |buf| == INPUT_BUF_SIZE && w <= e
    ensures w <= KillLine(buf, w, e) <= e
    ensures KillLine(buf, w, e) == w || buf[(KillLine(buf, w, e) - 1) % INPUT_BUF_SIZE] == NL
    ensures forall j :: KillLine(buf, w, e) <= j < e ==> buf[j % INPUT_BUF_SIZE] != NL
    decreases e - w
  {
    if e != w && buf[(e - 1) % INPUT_BUF_SIZE] != NL {
      KillLineStops(buf, w, e - 1);
    }
  }

  /** consputc's argument that erases the last character on the screen
      (kernel/console.c:38). */
  const BACKSPACE: int := 0x100

  /** What consoleintr(c) passes to consputc, in order. */
  function Echo(s: ConsState, c: byte): seq<int>
    requires Inv(s)
  {
    if c == CTRL_P then []
    else if c == CTRL_U then seq(s.e - KillLine(s.buf, s.w, s.e), _ => BACKSPACE)
    else if c == CTRL_H || c == DEL then
      if s.e != s.w then [BACKSPACE] else []
    else if c != 0 && s.e - s.r < INPUT_BUF_SIZE then [Stored(c) as int]
    else []
  }

  /** The echo follows the edit: a key echoes one backspace per byte it
      removes from the line, or the byte it stores, and nothing else. */
  lemma EchoFollowsEdit(s: ConsState, c: byte)
    requires Inv(s)
    ensures var s' := AfterIntr(s, c);
      && (s'.e <= s.e ==> Echo(s, c) == seq(s.e - s'.e, _ => BACKSPACE))
      && (s'.e > s.e ==> s'.e == s.e + 1 && Echo(s, c) == [Held(s')[s.e - s.r] as int])
  {
    if c == CTRL_U {
      KillLineStops(s.buf, s.w, s.e);
    } else if Ordinary(c) {
      OrdinaryKey(s, c);
    }
  }

  /** Every key keeps the invariant, leaves r alone and never takes back
      committed input: the committed bytes before the key are a prefix of
      those after it. */
  lemma IntrKeepsCommitted(s: ConsState, c: byte)
    requires Inv(s)
    ensures Inv(AfterIntr(s, c)) && AfterIntr(s, c).r == s.r && s.w <= AfterIntr(s, c).w
    ensures Committed(AfterIntr(s, c))[.. s.w - s.r] == Committed(s)
  {
    var s' := AfterIntr(s, c);
    if c == CTRL_U {
      KillLineStops(s.buf, s.w, s.e);
    } else if Ordinary(c) && c != 0 && s.e - s.r < INPUT_BUF_SIZE {
      assert Inv(s');
      forall i | 0 <= i < s.w - s.r ensures Committed(s')[i] == Committed(s)[i] {
        SlotsApart(s.r + i, s.e);
      }
    }
  }

  /** Two indices less than INPUT_BUF_SIZE apart have different slots. */
  lemma SlotsApart(a: nat, b: nat)
    requires a < b < a + INPUT_BUF_SIZE
    ensures a % INPUT_BUF_SIZE != b % INPUT_BUF_SIZE
  {
    var qa, qb := a / INPUT_BUF_SIZE, b / INPUT_BUF_SIZE;
    assert a == INPUT_BUF_SIZE * qa + a % INPUT_BUF_SIZE;
    assert b == INPUT_BUF_SIZE * qb + b % INPUT_BUF_SIZE;
  }

  /** An ordinary key is stored at the end of the held bytes when it is
      not 0 and the buffer has room ('\r' as '\n'), and the line is
      committed exactly when the byte is '\n' or ^D or the buffer became
      full; otherwise nothing changes (kernel/console.c:236-253). */
  lemma OrdinaryKey(s: ConsState, c: byte)
    requires Inv(s) && Ordinary(c)
    ensures var s' := AfterIntr(s, c);
      if c != 0 && s.e - s.r < INPUT_BUF_SIZE then
        && Held(s') == Held(s) + [Stored(c)] && s'.e == s.e + 1 && s'.r == s.r
        && (s'.w == s'.e <==> Stored(c) == NL || Stored(c) == CTRL_D || s'.e - s'.r == INPUT_BUF_SIZE)
        && (s'.w != s'.e ==> s'.w == s.w)
      else s' == s
  {
    if c != 0 && s.e - s.r < INPUT_BUF_SIZE {
      HeldAfterStore(s, Stored(c));
    }
  }

  /** Storing b in the slot of e, one past the held bytes, appends b to
      them. */
  lemma HeldAfterStore(s: ConsState, b: byte)
    requires Inv(s) && s.e - s.r < INPUT_BUF_SIZE
    ensures Held(s.(buf := s.buf[s.e % INPUT_BUF_SIZE := b], e := s.e + 1)) == Held(s) + [b]
  {
    var s' := s.(buf := s.buf[s.e % INPUT_BUF_SIZE := b], e := s.e + 1);
    forall i | 0 <= i < s'.e - s'.r ensures Held(s')[i] == (Held(s) + [b])[i] {
      if i < s.e - s.r {
        SlotsApart(s.r + i, s.e);
      }
    }
  }

  /** Backspace and DEL drop the last byte of the line being edited, and
      nothing when the line is empty: committed input is never erased
      (kernel/console.c:227-234). */
  lemma Backspace(s: ConsState, c: byte)
    requires Inv(s) && (c == CTRL_H || c == DEL)
    ensures var s' := AfterIntr(s, c);
      && s'.buf == s.buf && s'.r == s.r && s'.w == s.w
      && (s.e != s.w ==> s'.e == s.e - 1 && Held(s') == Held(s)[.. s.e - s.r - 1])
      && (s.e == s.w ==> s' == s)
  {
  }

  /** ^U removes the tail of the line back to w or to just after a
      newline, whichever comes first, and keeps the rest
      (kernel/console.c:219-225). */
  lemma KillLineKey(s: ConsState)
    requires Inv(s)
    ensures var s' := AfterIntr(s, CTRL_U);
      && s'.buf == s.buf && s'.r == s.r && s'.w == s.w && s.w <= s'.e <= s.e
      && (s'.e == s'.w || s.buf[(s'.e - 1) % INPUT_BUF_SIZE] == NL)
      && (forall j :: s'.e <= j < s.e ==> s.buf[j % INPUT_BUF_SIZE] != NL)
      && Held(s') == Held(s)[.. s'.e - s.r]
  {
    KillLineStops(s.buf, s.w, s.e);
  }

  // -----------------------------------------------------------------------
  // consoleread (kernel/console.c:133-189).

  /** How a read ends: normally, with the process killed while waiting
      (the -1 of kernel/console.c:150), or waiting for input, where the
      kernel would sleep (kernel/console.c:153). */
  datatype Status = Done | Killed | WouldBlock

  /** A read's outcome: how it ended, how many bytes it took from the
      buffer, and how many it copied out (the first ones it took). */
  datatype Outcome = Outcome(status: Status, taken: nat, count: nat)

  /** consoleread of n bytes from the committed bytes q, once the i
      bytes before index i were copied: the outcome of the whole read.
      either_copyout succeeds for the first lim bytes and then fails, and
      killed is what killed() says while the read waits for input. */
  function Drain(q: seq<byte>, i: nat, n: int, lim: nat, killed: bool): Outcome
    requires i <= |q|
    decreases |q| - i
  {
    if n - i <= 0 then Outcome(Done, i, i)
    else if i == |q| then Outcome(if killed then Killed else WouldBlock, i, i)
    // ^D: consumed when it comes first, otherwise saved for the next read
    else if q[i] == CTRL_D then Outcome(Done, if i > 0 then i else 1, i)
    // copy-out fails: the byte is taken but not copied
    else if i >= lim then Outcome(Done, i + 1, i)
    else if q[i] == NL then Outcome(Done, i + 1, i + 1)
    else Drain(q, i + 1, n, lim, killed)
  }

  /** consoleread of n bytes from the committed bytes q. */
  function ReadOutcome(q: seq<byte>, n: int, lim: nat, killed: bool): Outcome {
    Drain(q, 0, n, lim, killed)
  }

  lemma {:induction false} DrainInOrder(q: seq<byte>, i: nat, n: int, lim: nat, killed: bool)
    requires i <= |q| && i <= lim && (i == 0 || i <= n)
    requires forall t :: 0 <= t < i ==> q[t] != NL && q[t] != CTRL_D
    ensures var o := Drain(q, i, n, lim, killed);
      && i <= o.count <= o.taken <= o.count + 1 && o.taken <= |q|
      && o.count <= (if n <= 0 then 0 else n) && o.count <= lim
      && (forall t :: 0 <= t < o.count - 1 ==> q[t] != NL)
      && (forall t :: 0 <= t < o.count ==> q[t] != CTRL_D)
    decreases |q| - i
  {
    if n - i > 0 && i < |q| && q[i] != CTRL_D && i < lim && q[i] != NL {
      DrainInOrder(q, i + 1, n, lim, killed);
    }
  }

  /** A read copies the committed bytes in order, at most n of them and
      no more than copy-out allows; it takes the bytes it copied and at
      most one more (a ^D consumed, or the byte whose copy-out failed);
      the only newline it copies is its last byte, and it never copies
      ^D. */
  lemma ReadCopiesInOrder(q: seq<byte>, n: int, lim: nat, killed: bool)
    ensures var o := ReadOutcome(q, n, lim, killed);
      && o.count <= o.taken <= o.count + 1 && o.taken <= |q|
      && o.count <= (if n <= 0 then 0 else n) && o.count <= lim
      && (forall t :: 0 <= t < o.count - 1 ==> q[t] != NL)
      && (forall t :: 0 <= t < o.count ==> q[t] != CTRL_D)
  {
    DrainInOrder(q, 0, n, lim, killed);
  }

  /** The read passes over bytes that are neither newlines nor ^D while
      it has room and copy-out succeeds. */
  lemma {:induction false} DrainSkips(q: seq<byte>, i: nat, j: nat, n: int, lim: nat, killed: bool)
    requires i <= j < |q| && j < n && j <= lim
    requires forall t :: i <= t < j ==> q[t] != NL && q[t] != CTRL_D
    ensures Drain(q, i, n, lim, killed) == Drain(q, j, n, lim, killed)
    decreases j - i
  {
    if i < j {
      DrainSkips(q, i + 1, j, n, lim, killed);
    }
  }

  /** A read returns one line: when the first newline or ^D of the
      committed bytes is a newline at j, and there is room and copy-out
      succeeds, the read returns the bytes up to and including it
      (kernel/console.c:180-184). */
  lemma ReadReturnsLine(q: seq<byte>, n: int, lim: nat, killed: bool, j: nat)
    requires j < |q| && q[j] == NL && j < n && j < lim
    requires forall t :: 0 <= t < j ==> q[t] != NL && q[t] != CTRL_D
    ensures ReadOutcome(q, n, lim, killed) == Outcome(Done, j + 1, j + 1)
  {
    DrainSkips(q, 0, j, n, lim, killed);
  }

  /** A read that meets ^D after copying bytes stops there and leaves
      the ^D in place, so that the next read returns 0 bytes and consumes
      it: the end of file is reported on its own (kernel/console.c:158-167).
      Here the ^D is at j > 0, the bytes before it are neither newlines
      nor ^D, and the read may copy all of them. */
  lemma ReadSavesEndOfFile(q: seq<byte>, n: int, lim: nat, killed: bool, j: nat)
    requires 0 < j < |q| && q[j] == CTRL_D && j < n && j <= lim
    requires forall t :: 0 <= t < j ==> q[t] != NL && q[t] != CTRL_D
    ensures ReadOutcome(q, n, lim, killed) == Outcome(Done, j, j)
    ensures forall n', lim' :: n' > 0 ==> ReadOutcome(q[j..], n', lim', killed) == Outcome(Done, 1, 0)
  {
    DrainSkips(q, 0, j, n, lim, killed);
  }

  /** The value consoleread returns for an outcome: target - n, the bytes
      copied, or -1 when the process was killed. */
  function ReadResult(o: Outcome): int {
    if o.status == Killed then -1 else o.count
  }

  // -----------------------------------------------------------------------
  // consolewrite (kernel/console.c:101-117).

  /** consolewrite of n bytes from a source of which the bytes src can be
      copied in (either_copyin fails at the first address past them): it
      passes src[0 .. i] to the UART, i being n, or the number of bytes
      before the first failed copy, and returns i. */
  method Write(n: int, src: seq<byte>) returns (i: int, out: seq<byte>)
    ensures 0 <= i <= |src| && out == src[.. i]
    ensures i == if n <= 0 then 0 else if n <= |src| then n else |src|
  {
    i := 0;
    out := [];
    while i < n
      invariant 0 <= i <= |src| && (i == 0 || i <= n) && out == src[.. i]
      decreases n - i
    {
      if i >= |src| {
        // either_copyin failed
        break;
      }
      out := out + [src[i]];
      i := i + 1;
    }
  }

  // -----------------------------------------------------------------------
  // The driver state, updated in place.

  class Cons {
    /** buf of struct cons. */
    const buf: array<byte>
    /** Read index: the next byte consoleread takes. */
    var r: nat
    /** Write index: the end of the committed bytes. */
    var w: nat
    /** Edit index: the end of the line being edited. */
    var e: nat
    /** What was passed to consputc, in order. */
    var echo: seq<int>

    ghost function State(): ConsState
      reads this, buf
    {
      ConsState(buf[..], r, w, e)
    }

    ghost predicate Valid()
      reads this, buf
    {
      buf.Length == INPUT_BUF_SIZE && Inv(State())
    }

    /** The console at boot: nothing typed (struct cons is zeroed). */
    constructor ()
      ensures Valid() && r == 0 && w == 0 && e == 0 && echo == [] && fresh(buf)
    {
      buf := new byte[INPUT_BUF_SIZE](_ => 0);
      r, w, e := 0, 0, 0;
      echo := [];
    }

    /** consoleintr(c) (kernel/console.c:209-258), for a key c from the
        UART. */
    method Intr(c: byte)
      requires Valid()
      modifies this, buf
      ensures Valid() && State() == AfterIntr(old(State()), c)
      ensures echo == old(echo) + Echo(old(State()), c)
    {
      if c == CTRL_P {
        // procdump() prints the process list
      } else if c == CTRL_U {
        KillInput();
      } else if c == CTRL_H || c == DEL {
        if e != w {
          e := e - 1;
          echo := echo + [BACKSPACE];
        }
      } else if c != 0 && e - r < INPUT_BUF_SIZE {
        Store(c);
      }
    }

    /** Kill line (kernel/console.c:219-225): back over the line being
        edited to w or to just after a newline, echoing a backspace for
        each byte removed. */
    method KillInput()
      requires Valid()
      modifies this
      ensures Valid() && State() == AfterIntr(old(State()), CTRL_U)
      ensures echo == old(echo) + Echo(old(State()), CTRL_U)
    {
      ghost var e0 := e;
      while e != w && buf[(e - 1) % INPUT_BUF_SIZE] != NL
        invariant Valid() && r == old(r) && w == old(w)
        invariant w <= e <= e0 && KillLine(buf[..], w, e) == KillLine(buf[..], w, e0)
        invariant echo == old(echo) + seq(e0 - e, _ => BACKSPACE)
        decreases e
      {
        e := e - 1;
        echo := echo + [BACKSPACE];
      }
    }

    /** An ordinary key with room in the buffer (kernel/console.c:237-252):
        echo it, store it ('\r' as '\n') and commit the line on '\n', ^D
        or a full buffer. */
    method Store(c: byte)
      requires Valid() && Ordinary(c) && c != 0 && e - r < INPUT_BUF_SIZE
      modifies this, buf
      ensures Valid() && State() == AfterIntr(old(State()), c)
      ensures echo == old(echo) + Echo(old(State()), c)
    {
      var ch := if c == CR then NL else c;
      echo := echo + [ch as int];
      buf[e % INPUT_BUF_SIZE] := ch;
      e := e + 1;
      if ch == NL || ch == CTRL_D || e - r == INPUT_BUF_SIZE {
        w := e;
      }
    }

    /** consoleread of n bytes (kernel/console.c:133-189); copy-out
        succeeds for the first lim bytes, and killed is what killed()
        says while the read waits for input. The read takes the bytes the
        outcome says from the committed input and returns what it copied. */
    method Read(n: int, killed: bool, lim: nat) returns (status: Status, result: int, copied: seq<byte>)
      requires Valid()
      modifies this
      ensures Valid() && w == old(w) && e == old(e) && echo == old(echo)
      ensures var o := ReadOutcome(old(Committed(State())), n, lim, killed);
        && status == o.status && |copied| == o.count && copied <= old(Committed(State()))
        && r == old(r) + o.taken && result == ReadResult(o)
        && Committed(State()) == old(Committed(State()))[o.taken ..]
    {
      ghost var s0 := State();
      CommittedSlots(s0);
      var rr;
      status, rr, copied := Fetch(buf, r, w, n, killed, lim, Committed(State()));
      r := rr;
      CommittedAfterTake(s0, rr);
      result := if status == Killed then -1 else |copied|;
    }
  }

  /** The loop of consoleread over the ring buffer, on a copy rr of the
      read index, given the committed bytes q from r to w: the outcome of
      the read, the bytes copied, and where r ends up. */
  method Fetch(ring: array<byte>, r: nat, w: nat, n: int, killed: bool, lim: nat, ghost q: seq<byte>)
    returns (status: Status, rr: nat, copied: seq<byte>)
    requires ring.Length == INPUT_BUF_SIZE && r <= w && |q| == w - r
    requires forall t :: 0 <= t < |q| ==> q[t] == ring[(r + t) % INPUT_BUF_SIZE]
    ensures var o := ReadOutcome(q, n, lim, killed);
      && status == o.status && |copied| == o.count <= o.taken && copied <= q
      && rr == r + o.taken && rr <= w
  {
    var target := n;
    var m := n;
    copied := [];
    status := Done;
    rr := r;
    while m > 0
      invariant r <= rr <= w
      invariant copied == q[.. rr - r] && m == target - (rr - r)
      invariant ReadOutcome(q, target, lim, killed) == Drain(q, rr - r, target, lim, killed)
      decreases w - rr
    {
      if rr == w {
        status := if killed then Killed else WouldBlock;
        break;
      }
      var ch := ring[rr % INPUT_BUF_SIZE];
      ghost var t := rr - r;
      assert ch == q[t];
      rr := rr + 1;
      if ch == CTRL_D {
        if m < target {
          // save ^D for next time
          rr := rr - 1;
        }
        break;
      }
      if |copied| >= lim {
        // either_copyout failed
        break;
      }
      assert q[.. t] + [q[t]] == q[.. t + 1];
      copied := copied + [ch];
      m := m - 1;
      if ch == NL {
        break;
      }
    }
  }

  /** Committed byte t is in the slot of r + t. */
  lemma CommittedSlots(s: ConsState)
    requires Inv(s)
    ensures forall t :: 0 <= t < s.w - s.r ==> Committed(s)[t] == s.buf[(s.r + t) % INPUT_BUF_SIZE]
  {
  }

  /** Taking bytes moves r forward and leaves the rest of the committed
      bytes in place. */
  lemma CommittedAfterTake(s: ConsState, r1: nat)
    requires Inv(s) && s.r <= r1 <= s.w
    ensures Committed(s.(r := r1)) == Committed(s)[r1 - s.r ..]
  {
    var s1 := s.(r := r1);
    forall i | 0 <= i < s.w - r1 ensures Committed(s1)[i] == Committed(s)[r1 - s.r ..][i] {
      assert s.r + (r1 - s.r + i) == r1 + i;
    }
  }
}
