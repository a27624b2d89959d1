/** Machine words as bytes, low byte first, and messages as the bytes that carry them. */
module Bytes {
  type byte = x: int | 0 <= x < 256

  const TWO_31 := 0x8000_0000
  const TWO_32 := 0x1_0000_0000

  type uint32 = x: int | 0 <= x < TWO_32
  type int32 = x: int | -TWO_31 <= x < TWO_31

  /** The conversion of any integer to 32 unsigned bits. */
  function ToU32(x: int): uint32 {
    x % TWO_32
  }

  /** The same 32 bits read as a signed number. */
  function ToS32(x: uint32): int32 {
    if x < TWO_31 then x else x - TWO_32
  }

  /** A Lua tag comes back as it went in just when it is a signed 32-bit number. */
  lemma TagSurvives(tag: int)
    ensures ToS32(ToU32(tag)) == tag <==> -TWO_31 <= tag < TWO_31
  {
  }

  function Word(x: uint32): (w: seq<byte>)
    ensures |w| == 4
  {
    [x % 256, x / 256 % 256, x / 65536 % 256, x / 16777216]
  }

  function Unword(w: seq<byte>): uint32
    requires |w| == 4
  {
    w[0] as int + 256 * (w[1] as int) + 65536 * (w[2] as int) + 16777216 * (w[3] as int)
  }

  /** Four bytes, the low one first, make up the word; and back. */
  lemma WordUnword(x: uint32)
    ensures var w := Word(x);
            x == w[0] as int + 256 * (w[1] as int) + 65536 * (w[2] as int) + 16777216 * (w[3] as int)
    ensures Unword(Word(x)) == x
  {
    assert x / 256 / 256 == x / 65536;
    assert x / 65536 / 256 == x / 16777216;
  }

  // ---- messages ---------------------------------------------------------------

  datatype Hdr = Hdr(tag: uint32, len: uint32)

  /** sizeof(hdr_t) */
  const HDR := 8

  datatype Msg = Msg(tag: uint32, data: seq<byte>)

  predicate WellFormed(m: Msg) {
    |m.data| < TWO_32
  }

  predicate AllWellFormed(ms: seq<Msg>) {
    forall m :: m in ms ==> WellFormed(m)
  }

  function EncodeHdr(h: Hdr): (b: seq<byte>)
    ensures |b| == HDR
  {
    Word(h.tag) + Word(h.len)
  }

  function DecodeHdr(b: seq<byte>): Hdr
    requires |b| == HDR
  {
    Hdr(Unword(b[..4]), Unword(b[4..]))
  }

  /** The tag comes first, then the length. */
  lemma HdrBytes(h: Hdr)
    ensures EncodeHdr(h)[..4] == Word(h.tag) && EncodeHdr(h)[4..] == Word(h.len)
  {
  }

  lemma HdrRoundTrip(h: Hdr)
    ensures DecodeHdr(EncodeHdr(h)) == h
  {
    WordUnword(h.tag);
    WordUnword(h.len);
    HdrBytes(h);
  }

  /** The bytes a message puts into the ring. */
  function Frame(m: Msg): seq<byte>
    requires WellFormed(m)
  {
    EncodeHdr(Hdr(m.tag, |m.data|)) + m.data
  }

  function Frames(ms: seq<Msg>): seq<byte>
    requires forall m :: m in ms ==> WellFormed(m)
  {
    if ms == [] then [] else Frame(ms[0]) + Frames(ms[1..])
  }

  /** All the data of the messages. */
  function DataOf(ms: seq<Msg>): seq<byte> {
    if ms == [] then [] else ms[0].data + DataOf(ms[1..])
  }

  /** What messages take up in a ring: their data, and eight bytes a message more. */
  lemma {:induction false} FramesSize(ms: seq<Msg>)
    requires AllWellFormed(ms)
    ensures |Frames(ms)| == 8 * |ms| + |DataOf(ms)|
  {
    if ms != [] {
      FramesSize(ms[1..]);
    }
  }

  lemma {:induction false} FramesSnoc(ms: seq<Msg>, m: Msg)
    requires WellFormed(m) && forall x :: x in ms ==> WellFormed(x)
    ensures Frames(ms + [m]) == Frames(ms) + Frame(m)
  {
    hide Frame;
    if ms == [] {
      assert ms + [m] == [m] && Frames([]) == [];
      assert Frames([m]) == Frame(m) + Frames([m][1..]);
    } else {
      FramesSnoc(ms[1..], m);
      var f, fs, last := Frame(ms[0]), Frames(ms[1..]), Frame(m);
      assert (ms + [m])[1..] == ms[1..] + [m];
      assert Frames(ms + [m]) == f + (fs + last);
      assert f + (fs + last) == f + fs + last;
    }
  }

  /** What a reader finds at the front of a non-empty run of frames. */
  lemma FirstFrame(ms: seq<Msg>)
    requires ms != [] && WellFormed(ms[0]) && forall x :: x in ms ==> WellFormed(x)
    ensures var b := Frames(ms); var n := |ms[0].data|;
            && |b| >= HDR + n
            && DecodeHdr(b[..HDR]) == Hdr(ms[0].tag, n)
            && b[HDR..HDR + n] == ms[0].data
            && b[HDR + n..] == Frames(ms[1..])
  {
    var h := Hdr(ms[0].tag, |ms[0].data|);
    HdrRoundTrip(h);
    assert Frames(ms)[..HDR] == EncodeHdr(h);
  }
}
