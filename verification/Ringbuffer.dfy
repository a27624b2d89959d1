/** Messages over a byte ring: src/ringbuffer.c. A message is a header (tag and length)
    and that many data bytes. */
module Ringbuffer {
  import opened Bytes
  import opened Wrappers
  import JackRing

  /** The outcome of a read: no complete message, a buffer that is too small (and how
      many bytes it needs), or a message. */
  datatype ReadResult = NoMessage | TooSmall(needed: nat) | Got(tag: uint32, len: nat)

  /** Where the data of a message lies when the message lies in two segments of the ring:
      the three cases of the reader are no split, a split in the data, and a split in or
      right after the header. */
  lemma DataInSegments(b: seq<byte>, v0: JackRing.Seg, v1: JackRing.Seg, n: nat)
    requires v0.off + v0.len <= |b| && v1.off + v1.len <= |b| && HDR + n <= v0.len + v1.len
    ensures var c := (b[v0.off..v0.off + v0.len] + b[v1.off..v1.off + v1.len])[HDR..HDR + n];
            c == if v0.len >= HDR + n then b[v0.off + HDR..v0.off + HDR + n]
                 else if v0.len > HDR then b[v0.off + HDR..v0.off + v0.len] + b[v1.off..v1.off + n - (v0.len - HDR)]
                 else b[v1.off + (HDR - v0.len)..v1.off + (HDR - v0.len) + n]
  {
    var a, d := b[v0.off..v0.off + v0.len], b[v1.off..v1.off + v1.len];
    if v0.len >= HDR + n {
      assert (a + d)[HDR..HDR + n] == a[HDR..HDR + n];
      SliceOfSlice(b, v0.off, v0.len, HDR, HDR + n);
    } else if v0.len > HDR {
      assert (a + d)[HDR..HDR + n] == a[HDR..v0.len] + d[0..n - (v0.len - HDR)];
      SliceOfSlice(b, v0.off, v0.len, HDR, v0.len);
      SliceOfSlice(b, v1.off, v1.len, 0, n - (v0.len - HDR));
    } else {
      assert (a + d)[HDR..HDR + n] == d[HDR - v0.len..HDR - v0.len + n];
      SliceOfSlice(b, v1.off, v1.len, HDR - v0.len, HDR - v0.len + n);
    }
  }

  lemma SliceOfSlice(b: seq<byte>, off: nat, len: nat, i: nat, j: nat)
    requires off + len <= |b| && i <= j <= len
    ensures b[off..off + len][i..j] == b[off + i..off + j]
  {
    var s, r := b[off..off + len][i..j], b[off + i..off + j];
    forall k | 0 <= k < j - i ensures s[k] == r[k] {
      assert s[k] == b[off..off + len][i + k] == b[off + i + k];
    }
  }

  /** The length that goes into the 32-bit field of the header. */
  function HdrLen(data: Option<seq<byte>>): uint32 {
    if data.None? then 0 else ToU32(|data.value|)
  }

  /** The message that a write of `data` stands for. */
  function Sent(tag: uint32, data: Option<seq<byte>>): (m: Msg)
    ensures WellFormed(m) && |m.data| == HdrLen(data)
  {
    Msg(tag, if data.None? then [] else data.value[..HdrLen(data)])
  }

  /** What is sent is what was given: all of it, unless its length does not fit 32 bits, and then
      as many bytes as the cut length says; nothing for no data. */
  lemma SentExactly(tag: uint32, data: seq<byte>)
    ensures |data| < 0x1_0000_0000 ==> Sent(tag, Some(data)) == Msg(tag, data)
    ensures Sent(tag, Some(data)) == Msg(tag, data[..|data| % 0x1_0000_0000])
    ensures Sent(tag, None) == Msg(tag, [])
  {
  }

  class Ringbuffer {
    const ring: JackRing.JackRing
    ghost var msgs: seq<Msg>

    ghost predicate Valid()
      reads this, ring, ring.buf
    {
      ring.Valid() && AllWellFormed(msgs) && ring.Contents() == Frames(msgs)
    }

    constructor (size: nat)
      requires size > 0
      ensures Valid() && msgs == [] && ring.size == size && fresh(ring) && fresh(ring.buf)
    {
      ring := new JackRing.JackRing(size);
      msgs := [];
    }

    /** The data part of a write: copied where the write vector says, then published. */
    method WriteData(data: seq<byte>)
      requires ring.Valid() && |data| <= ring.WriteSpace()
      modifies ring`wr, ring.buf
      ensures ring.Valid() && ring.Contents() == old(ring.Contents()) + data
    {
      var v0, v1 := ring.WriteVector();
      ring.Fill(v0, data);
      ring.WriteAdvance(|data|);
    }

    /** The part that the writers share: the header is published first, then the data. */
    method Put(hdr: Hdr, data: seq<byte>)
      requires Valid() && hdr.len == |data| && HDR + hdr.len <= ring.WriteSpace()
      modifies this`msgs, ring`wr, ring.buf
      ensures Valid() && msgs == old(msgs) + [Msg(hdr.tag, data)]
    {
      hide JackRing.Circ; hide Frames;
      var cnt := ring.Write(EncodeHdr(hdr));
      if hdr.len > 0 {
        WriteData(data);
      }
      FramesSnoc(msgs, Msg(hdr.tag, data));
      msgs := msgs + [Msg(hdr.tag, data)];
    }

    /** ringbuffer_cwrite: all of the message goes in, or nothing does. Its data are those given,
        of which only as many as a 32-bit length can tell. */
    method CWrite(tag: uint32, data: Option<seq<byte>>) returns (ok: bool)
      requires Valid()
      modifies this`msgs, ring`wr, ring.buf
      ensures Valid()
      ensures var d := if data.None? then [] else data.value[..|data.value| % 0x1_0000_0000];
              && (ok <==> 8 + |d| + |Frames(old(msgs))| < ring.size)
              && msgs == if ok then old(msgs) + [Msg(tag, d)] else old(msgs)
      ensures data.Some? && |data.value| < 0x1_0000_0000 ==>
              && (ok <==> 8 + |data.value| + |Frames(old(msgs))| < ring.size)
              && msgs == if ok then old(msgs) + [Msg(tag, data.value)] else old(msgs)
      ensures ok <==> HDR + HdrLen(data) + |Frames(old(msgs))| < ring.size
      ensures msgs == if ok then old(msgs) + [Sent(tag, data)] else old(msgs)
      ensures !ok ==> unchanged(ring) && ring.buf[..] == old(ring.buf[..])
    {
      if data.Some? {
        SentExactly(tag, data.value);
      }
      var hdr := Hdr(tag, HdrLen(data));
      var space := ring.WriteSpace();
      if HDR + hdr.len > space {
        return false;
      }
      Put(hdr, if hdr.len > 0 then data.value[..hdr.len] else []);
      ok := true;
    }

    /** The part that the readers share: the header of a complete message, if there is one. */
    method PeekHdr() returns (hdr: Option<Hdr>)
      requires Valid()
      ensures hdr.Some? <==> msgs != []
      ensures hdr.Some? ==> hdr.value.tag == msgs[0].tag && hdr.value.len == |msgs[0].data|
    {
      var bytes := ring.Peek(HDR);
      if msgs != [] {
        FirstFrame(msgs);
        assert Frames(msgs)[..HDR] == bytes;
      }
      if |bytes| != HDR {
        return None;
      }
      var h := DecodeHdr(bytes);
      if ring.ReadSpace() < HDR + h.len {
        return None;
      }
      hdr := Some(h);
    }

    /** The data part of a read: what follows the header, out of at most two segments. */
    method FetchData(len: nat) returns (data: seq<byte>)
      requires ring.Valid() && HDR + len <= ring.ReadSpace()
      ensures data == ring.Contents()[HDR..HDR + len]
    {
      hide JackRing.Circ;
      var v0, v1 := ring.ReadVector();
      DataInSegments(ring.buf[..], v0, v1, len);
      if v0.len >= HDR + len {
        data := ring.buf[v0.off + HDR..v0.off + HDR + len];
      } else if v0.len > HDR {
        var len0 := v0.len - HDR;
        data := ring.buf[v0.off + HDR..v0.off + v0.len] + ring.buf[v1.off..v1.off + len - len0];
      } else {
        var len0 := HDR - v0.len;
        data := ring.buf[v1.off + len0..v1.off + len0 + len];
      }
    }

    /** The data of the first message. */
    method ReadData(len: nat) returns (data: seq<byte>)
      requires Valid() && msgs != [] && len == |msgs[0].data|
      ensures data == msgs[0].data
    {
      FirstFrame(msgs);
      data := FetchData(len);
    }

    method Drop(len: nat)
      requires Valid() && msgs != [] && len == |msgs[0].data|
      modifies this`msgs, ring`rd
      ensures Valid() && msgs == old(msgs)[1..]
    {
      FirstFrame(msgs);
      ring.ReadAdvance(HDR + len);
      msgs := msgs[1..];
    }

    /** ringbuffer_cread: the first message into the caller's buffer; `advance` tells a read
        from a peek. */
    method CRead(buf: array<byte>, bufsz: nat, advance: bool) returns (res: ReadResult)
      requires Valid() && bufsz <= buf.Length && buf != ring.buf
      modifies this`msgs, ring`rd, buf
      ensures Valid()
      ensures res.NoMessage? <==> old(msgs) == []
      ensures old(msgs) != [] ==> (res.TooSmall? <==> |old(msgs)[0].data| > bufsz)
      ensures res.TooSmall? ==> res.needed == |old(msgs)[0].data|
      ensures res.Got? ==> var m := old(msgs)[0];
              && res == Got(m.tag, |m.data|) && buf[..|m.data|] == m.data
              && (m.data == [] && bufsz > 0 ==> buf[0] == 0)
      ensures var touched := if !res.Got? then 0 else if res.len == 0 && bufsz > 0 then 1 else res.len;
              forall i :: touched <= i < buf.Length ==> buf[i] == old(buf[i])
      ensures msgs == if res.Got? && advance then old(msgs)[1..] else old(msgs)
      ensures !(res.Got? && advance) ==> ring.rd == old(ring.rd)
    {
      var hdr := PeekHdr();
      if hdr.None? {
        return NoMessage;
      }
      if hdr.value.len > bufsz {
        return TooSmall(hdr.value.len);
      }
      res := Got(hdr.value.tag, hdr.value.len);
      if hdr.value.len == 0 {
        if advance {
          Drop(0);
        }
        if bufsz > 0 {
          buf[0] := 0;
        }
        return;
      }
      var data := ReadData(hdr.value.len);
      forall i | 0 <= i < |data| {
        buf[i] := data[i];
      }
      if advance {
        Drop(hdr.value.len);
      }
    }

    /** ringbuffer_cread_advance: drops the first message, if there is a complete one. */
    method CReadAdvance() returns (ok: bool)
      requires Valid()
      modifies this`msgs, ring`rd
      ensures Valid() && (ok <==> old(msgs) != [])
      ensures msgs == if ok then old(msgs)[1..] else []
    {
      var hdr := PeekHdr();
      if hdr.None? {
        return false;
      }
      Drop(hdr.value.len);
      ok := true;
    }

    /** ringbuffer_luawrite: the tag is any Lua integer, of which 32 bits are kept. */
    method LuaWrite(tag: int, data: Option<seq<byte>>) returns (ok: bool)
      requires Valid()
      modifies this`msgs, ring`wr, ring.buf
      ensures Valid()
      ensures var d := if data.None? then [] else data.value[..|data.value| % 0x1_0000_0000];
              && (ok <==> 8 + |d| + |Frames(old(msgs))| < ring.size)
              && msgs == if ok then old(msgs) + [Msg(tag % 0x1_0000_0000, d)] else old(msgs)
      ensures data.Some? && |data.value| < 0x1_0000_0000 ==>
              && (ok <==> 8 + |data.value| + |Frames(old(msgs))| < ring.size)
              && msgs == if ok then old(msgs) + [Msg(tag % 0x1_0000_0000, data.value)] else old(msgs)
      ensures !ok ==> unchanged(ring) && ring.buf[..] == old(ring.buf[..])
    {
      ok := CWrite(ToU32(tag), data);
    }

    /** ringbuffer_luaread: the tag comes back as a signed number. */
    method LuaRead(advance: bool) returns (res: Option<(int, seq<byte>)>)
      requires Valid()
      modifies this`msgs, ring`rd
      ensures Valid()
      ensures res.None? <==> old(msgs) == []
      ensures res.Some? ==> var m := old(msgs)[0];
              res.value == (if m.tag < 0x8000_0000 then m.tag as int else m.tag - 0x1_0000_0000, m.data)
      ensures msgs == if res.Some? && advance then old(msgs)[1..] else old(msgs)
      ensures !(res.Some? && advance) ==> unchanged(ring)
    {
      var hdr := PeekHdr();
      if hdr.None? {
        return None;
      }
      var tag: int := ToS32(hdr.value.tag);
      if hdr.value.len == 0 {
        res := Some((tag, []));
      } else {
        var data := ReadData(hdr.value.len);
        res := Some((tag, data));
      }
      if advance {
        Drop(hdr.value.len);
      }
    }
  }
}
