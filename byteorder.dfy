/** Fixed-width integers and the byte-order helpers of the image builder
    (xshort and xint in mkfs/mkfs.c).

    The builder runs on a host whose byte order is not known in advance.
    A struct field of the image is copied to disk byte for byte, so the
    bytes a field lands as are its value's bytes in HOST order.  xshort and
    xint return the value whose host bytes are the argument's bytes least
    significant first (RISC-V order); on a little-endian host that is the
    argument itself, on a big-endian host its byte swap. */
module ByteOrder {

  type byte = x: int | 0 <= x < 0x100
  type uint16 = x: int | 0 <= x < 0x1_0000
  type uint32 = x: int | 0 <= x < 0x1_0000_0000

  /** Byte order of the machine the builder runs on. */
  datatype Endian = Little | Big

  // ---------------------------------------------------------------------
  // Explicit little- and big-endian layouts.

  function Le16(x: uint16): (b: seq<byte>)
    ensures |b| == 2
  {
    [x % 0x100, x / 0x100]
  }

  function Be16(x: uint16): (b: seq<byte>)
    ensures |b| == 2
  {
    [x / 0x100, x % 0x100]
  }

  function FromLe16(b: seq<byte>): uint16
    requires |b| == 2
  {
    b[0] as int + 0x100 * b[1] as int
  }

  function FromBe16(b: seq<byte>): uint16
    requires |b| == 2
  {
    b[1] as int + 0x100 * b[0] as int
  }

  function Le32(x: uint32): (b: seq<byte>)
    ensures |b| == 4
  {
    [x % 0x100, (x / 0x100) % 0x100, (x / 0x1_0000) % 0x100, x / 0x100_0000]
  }

  function Be32(x: uint32): (b: seq<byte>)
    ensures |b| == 4
  {
    [x / 0x100_0000, (x / 0x1_0000) % 0x100, (x / 0x100) % 0x100, x % 0x100]
  }

  function FromLe32(b: seq<byte>): uint32
    requires |b| == 4
  {
    b[0] as int + 0x100 * (b[1] as int + 0x100 * (b[2] as int + 0x100 * b[3] as int))
  }

  function FromBe32(b: seq<byte>): uint32
    requires |b| == 4
  {
    b[3] as int + 0x100 * (b[2] as int + 0x100 * (b[1] as int + 0x100 * b[0] as int))
  }

  lemma Le16RoundTrip(x: uint16)
    ensures FromLe16(Le16(x)) == x
  {
  }

  lemma FromLe16RoundTrip(b: seq<byte>)
    requires |b| == 2
    ensures Le16(FromLe16(b)) == b
  {
  }

  lemma Be16RoundTrip(x: uint16)
    ensures FromBe16(Be16(x)) == x
  {
  }

  lemma FromBe16RoundTrip(b: seq<byte>)
    requires |b| == 2
    ensures Be16(FromBe16(b)) == b
  {
  }

  lemma Le32RoundTrip(x: uint32)
    ensures FromLe32(Le32(x)) == x
  {
  }

  /** Splitting a number into its lowest byte and the rest. */
  lemma SplitByte(lo: int, hi: int)
    requires 0 <= lo < 0x100 && 0 <= hi
    ensures (lo + 0x100 * hi) % 0x100 == lo && (lo + 0x100 * hi) / 0x100 == hi
  {
  }

  lemma FromLe32RoundTrip(b: seq<byte>)
    requires |b| == 4
    ensures Le32(FromLe32(b)) == b
  {
    var v2 := b[2] as int + 0x100 * b[3] as int;
    var v1 := b[1] as int + 0x100 * v2;
    var v := b[0] as int + 0x100 * v1;
    SplitByte(b[0], v1);
    SplitByte(b[1], v2);
    SplitByte(b[2], b[3]);
    assert v / 0x1_0000 == v1 / 0x100;
    assert v / 0x100_0000 == v2 / 0x100;
  }

  lemma Be32RoundTrip(x: uint32)
    ensures FromBe32(Be32(x)) == x
  {
    var q1, q2 := x / 0x100, x / 0x1_0000;
    assert q2 == q1 / 0x100;
    assert x / 0x100_0000 == q2 / 0x100;
    assert q2 % 0x100 + 0x100 * (q2 / 0x100) == q2;
    assert q1 % 0x100 + 0x100 * q2 == q1;
    assert x % 0x100 + 0x100 * q1 == x;
  }

  lemma FromBe32RoundTrip(b: seq<byte>)
    requires |b| == 4
    ensures Be32(FromBe32(b)) == b
  {
    var v2 := b[1] as int + 0x100 * b[0] as int;
    var v1 := b[2] as int + 0x100 * v2;
    var v := b[3] as int + 0x100 * v1;
    SplitByte(b[3], v1);
    SplitByte(b[2], v2);
    SplitByte(b[1], b[0]);
    assert v / 0x1_0000 == v1 / 0x100;
    assert v / 0x100_0000 == v2 / 0x100;
  }

  // ---------------------------------------------------------------------
  // Host byte order: how a struct field is laid out in memory, and hence
  // on disk when the struct is copied there.

  function HostBytes16(h: Endian, x: uint16): (b: seq<byte>)
    ensures |b| == 2
  {
    if h == Big then Be16(x) else Le16(x)
  }

  function FromHost16(h: Endian, b: seq<byte>): uint16
    requires |b| == 2
  {
    if h == Big then FromBe16(b) else FromLe16(b)
  }

  function HostBytes32(h: Endian, x: uint32): (b: seq<byte>)
    ensures |b| == 4
  {
    if h == Big then Be32(x) else Le32(x)
  }

  function FromHost32(h: Endian, b: seq<byte>): uint32
    requires |b| == 4
  {
    if h == Big then FromBe32(b) else FromLe32(b)
  }

  /** Reading back the bytes a field was stored as gives the field. */
  lemma Host16RoundTrip(h: Endian, x: uint16)
    ensures FromHost16(h, HostBytes16(h, x)) == x
  {
    if h == Big { Be16RoundTrip(x); } else { Le16RoundTrip(x); }
  }

  lemma FromHost16RoundTrip(h: Endian, b: seq<byte>)
    requires |b| == 2
    ensures HostBytes16(h, FromHost16(h, b)) == b
  {
    if h == Big { FromBe16RoundTrip(b); } else { FromLe16RoundTrip(b); }
  }

  lemma Host32RoundTrip(h: Endian, x: uint32)
    ensures FromHost32(h, HostBytes32(h, x)) == x
  {
    if h == Big { Be32RoundTrip(x); } else { Le32RoundTrip(x); }
  }

  lemma FromHost32RoundTrip(h: Endian, b: seq<byte>)
    requires |b| == 4
    ensures HostBytes32(h, FromHost32(h, b)) == b
  {
    if h == Big { FromBe32RoundTrip(b); } else { FromLe32RoundTrip(b); }
  }

  // ---------------------------------------------------------------------
  // xshort and xint (mkfs/mkfs.c:88-110).

  /** xshort: the 16-bit value whose bytes in host memory are x's bytes,
      least significant first. */
  function Xshort(h: Endian, x: uint16): (y: uint16)
    ensures HostBytes16(h, y) == Le16(x)
  {
    FromHost16RoundTrip(h, Le16(x));
    FromHost16(h, Le16(x))
  }

  /** xint: the 32-bit value whose bytes in host memory are x's bytes,
      least significant first. */
  function Xint(h: Endian, x: uint32): (y: uint32)
    ensures HostBytes32(h, y) == Le32(x)
  {
    FromHost32RoundTrip(h, Le32(x));
    FromHost32(h, Le32(x))
  }

  /** On a little-endian host both conversions leave the value alone. */
  lemma XonLittleEndianIsIdentity(x16: uint16, x32: uint32)
    ensures Xshort(Little, x16) == x16 && Xint(Little, x32) == x32
  {
    Le16RoundTrip(x16);
    Le32RoundTrip(x32);
  }

  /** xshort undoes itself, on either host. */
  lemma XshortInvolutive(h: Endian, x: uint16)
    ensures Xshort(h, Xshort(h, x)) == x
  {
    var y := Xshort(h, x);
    if h == Big {
      // y's big-endian bytes are x's little-endian bytes, so y's
      // little-endian bytes are x's big-endian bytes.
      assert Be16(y) == Le16(x);
      assert Le16(y) == Be16(x);
      Be16RoundTrip(x);
    } else {
      Le16RoundTrip(x);
    }
  }

  /** xint undoes itself, on either host: mkfs relies on this when it
      decodes a stored size or block number with the same xint it used
      to encode it (mkfs/mkfs.c:345, 353, 357). */
  lemma XintInvolutive(h: Endian, x: uint32)
    ensures Xint(h, Xint(h, x)) == x
  {
    var y := Xint(h, x);
    if h == Big {
      assert Be32(y) == Le32(x);
      assert Le32(y) == Be32(x);
      Be32RoundTrip(x);
    } else {
      Le32RoundTrip(x);
    }
  }

  /** Zero is zero in either byte order: the tests `xint(a) == 0` and
      `a == 0` agree (mkfs/mkfs.c:353, 362, 368). */
  lemma XintZero(h: Endian, x: uint32)
    ensures Xint(h, x) == 0 <==> x == 0
  {
    XintInvolutive(h, x);
    if h == Little { Le32RoundTrip(x); }
  }

  // ---------------------------------------------------------------------
  // Runs of bytes and of 32-bit words.

  function Zeros(n: nat): (z: seq<byte>)
    ensures |z| == n && forall i :: 0 <= i < n ==> z[i] == 0
  {
    seq(n, _ => 0)
  }

  /** The host-order bytes of a sequence of 32-bit struct fields. */
  function HostWords(h: Endian, ws: seq<uint32>): (b: seq<byte>)
    ensures |b| == 4 * |ws|
  {
    if ws == [] then [] else HostBytes32(h, ws[0]) + HostWords(h, ws[1..])
  }

  /** The little-endian bytes of a sequence of 32-bit values. */
  function LeWords(ws: seq<uint32>): (b: seq<byte>)
    ensures |b| == 4 * |ws|
  {
    if ws == [] then [] else Le32(ws[0]) + LeWords(ws[1..])
  }

  /** Each field converted with xint before the struct is copied out. */
  function XintAll(h: Endian, ws: seq<uint32>): (r: seq<uint32>)
    ensures |r| == |ws|
    ensures forall i :: 0 <= i < |ws| ==> r[i] == Xint(h, ws[i])
  {
    if ws == [] then [] else [Xint(h, ws[0])] + XintAll(h, ws[1..])
  }

  /** Copying out xint-converted fields writes them least significant
      byte first, whatever the host. */
  lemma {:induction false} HostWordsOfXint(h: Endian, ws: seq<uint32>)
    ensures HostWords(h, XintAll(h, ws)) == LeWords(ws)
  {
    if ws != [] {
      HostWordsOfXint(h, ws[1..]);
    }
  }

  /** Word k of LeWords(ws) is Le32(ws[k]). */
  lemma {:induction false} LeWordsAt(ws: seq<uint32>, k: nat)
    requires k < |ws|
    ensures LeWords(ws)[4 * k .. 4 * k + 4] == Le32(ws[k])
  {
    if k > 0 {
      LeWordsAt(ws[1..], k - 1);
      assert LeWords(ws) == Le32(ws[0]) + LeWords(ws[1..]);
      assert LeWords(ws)[4 * k .. 4 * k + 4] == LeWords(ws[1..])[4 * (k - 1) .. 4 * (k - 1) + 4];
    }
  }

  /** Word k of HostWords(h, ws) is the host bytes of ws[k]. */
  lemma {:induction false} HostWordsAt(h: Endian, ws: seq<uint32>, k: nat)
    requires k < |ws|
    ensures HostWords(h, ws)[4 * k .. 4 * k + 4] == HostBytes32(h, ws[k])
  {
    if k > 0 {
      HostWordsAt(h, ws[1..], k - 1);
      assert HostWords(h, ws) == HostBytes32(h, ws[0]) + HostWords(h, ws[1..]);
      assert HostWords(h, ws)[4 * k .. 4 * k + 4] == HostWords(h, ws[1..])[4 * (k - 1) .. 4 * (k - 1) + 4];
    }
  }

  /** The 32-bit values a run of host-order bytes holds, four bytes each. */
  function DecodeWords(h: Endian, b: seq<byte>): (ws: seq<uint32>)
    ensures |ws| == |b| / 4
  {
    if |b| < 4 then [] else [FromHost32(h, b[..4])] + DecodeWords(h, b[4..])
  }

  /** Decoding what HostWords laid out gives back the words. */
  lemma {:induction false} DecodeHostWords(h: Endian, ws: seq<uint32>)
    ensures DecodeWords(h, HostWords(h, ws)) == ws
  {
    if ws != [] {
      var b := HostWords(h, ws);
      assert b[..4] == HostBytes32(h, ws[0]);
      assert b[4..] == HostWords(h, ws[1..]);
      Host32RoundTrip(h, ws[0]);
      DecodeHostWords(h, ws[1..]);
    }
  }
}
