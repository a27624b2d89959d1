/** libjack's byte ring, as far as its published behaviour goes: one cell stays free, and
    both ends see what lies ahead of them as at most two segments. */
module JackRing {
  import opened Bytes
  import opened Sequences

  function Wrap(x: nat, size: nat): (r: nat)
    requires x < 2 * size
    ensures r < size
  {
    if x < size then x else x - size
  }

  /** The `n` bytes of the ring `b` that start at `start`. */
  function Circ(b: seq<byte>, start: nat, n: nat): (r: seq<byte>)
    requires start < |b| && n <= |b|
    ensures |r| == n
  {
    if start + n <= |b| then b[start..start + n] else b[start..] + b[..start + n - |b|]
  }

  lemma CircAt(b: seq<byte>, start: nat, n: nat)
    requires start < |b| && n <= |b|
    ensures forall i :: 0 <= i < n ==> Circ(b, start, n)[i] == b[Wrap(start + i, |b|)]
  {
  }

  lemma CircTake(b: seq<byte>, start: nat, n: nat, m: nat)
    requires start < |b| && n <= |b| && m <= n
    ensures Circ(b, start, n)[..m] == Circ(b, start, m)
  {
    if start + n <= |b| {
    } else if start + m <= |b| {
      assert (b[start..] + b[..start + n - |b|])[..m] == b[start..start + m];
    } else {
      assert (b[start..] + b[..start + n - |b|])[..m] == b[start..] + b[..start + m - |b|];
    }
  }

  lemma CircDrop(b: seq<byte>, start: nat, n: nat, m: nat)
    requires start < |b| && n <= |b| && m <= n && m < |b|
    ensures Circ(b, start, n)[m..] == Circ(b, Wrap(start + m, |b|), n - m)
  {
    if start + n <= |b| {
    } else if start + m < |b| {
      assert (b[start..] + b[..start + n - |b|])[m..] == b[start + m..] + b[..start + n - |b|];
    } else {
      assert (b[start..] + b[..start + n - |b|])[m..] == b[start + m - |b|..start + n - |b|];
    }
  }

  /** Two rings that agree on the cells of a range hold the same bytes there. */
  lemma CircFrame(b: seq<byte>, b': seq<byte>, start: nat, n: nat)
    requires |b| == |b'| && start < |b| && n <= |b|
    requires forall j :: start <= j < |b| && j < start + n ==> b'[j] == b[j]
    requires forall j :: 0 <= j < |b| && j + |b| < start + n ==> b'[j] == b[j]
    ensures Circ(b', start, n) == Circ(b, start, n)
  {
    if start + n <= |b| {
      assert b'[start..start + n] == b[start..start + n];
    } else {
      assert b'[start..] == b[start..];
      assert b'[..start + n - |b|] == b[..start + n - |b|];
    }
  }

  /** `data` written over `b` from `off` on and round the end. */
  function OverwrittenRound(b: seq<byte>, off: nat, data: seq<byte>): (r: seq<byte>)
    requires off < |b| < off + |data| && |data| < |b|
    ensures |r| == |b|
  {
    var n := |b| - off;
    data[n..] + b[|data| - n..off] + data[..n]
  }

  lemma InTwoPieces(b: seq<byte>, off: nat, data: seq<byte>)
    requires off < |b| < off + |data| && |data| < |b|
    ensures var n := |b| - off;
            Overwritten(Overwritten(b, off, data[..n]), 0, data[n..]) == OverwrittenRound(b, off, data)
  {
    var n := |b| - off;
    var b1 := Overwritten(b, off, data[..n]);
    assert b1 == b[..off] + data[..n];
    assert b1[|data| - n..] == b[|data| - n..off] + data[..n];
  }

  /** A segment of the ring's cells. */
  datatype Seg = Seg(off: nat, len: nat)

  function ReadSpaceOf(w: nat, r: nat, size: nat): nat
    requires w < size && r < size
  {
    if w >= r then w - r else w + size - r
  }

  function WriteSpaceOf(w: nat, r: nat, size: nat): nat
    requires w < size && r < size
  {
    if w > r then r + size - w - 1 else if w < r then r - w - 1 else size - 1
  }

  /** Bytes written into free cells in one piece leave the readable bytes alone. */
  lemma FilledStraight(b: seq<byte>, data: seq<byte>, w: nat, r: nat)
    requires w < |b| && r < |b| && |data| <= WriteSpaceOf(w, r, |b|) && w + |data| <= |b|
    ensures var b' := Overwritten(b, w, data);
            && Circ(b', w, |data|) == data
            && Circ(b', r, ReadSpaceOf(w, r, |b|)) == Circ(b, r, ReadSpaceOf(w, r, |b|))
  {
    CircFrame(b, Overwritten(b, w, data), r, ReadSpaceOf(w, r, |b|));
  }

  /** The same for bytes that go round the end. */
  lemma FilledSplit(b: seq<byte>, data: seq<byte>, w: nat, r: nat)
    requires w < |b| && r < |b| && |data| <= WriteSpaceOf(w, r, |b|) && w + |data| > |b|
    ensures var b' := OverwrittenRound(b, w, data);
            && Circ(b', w, |data|) == data
            && Circ(b', r, ReadSpaceOf(w, r, |b|)) == Circ(b, r, ReadSpaceOf(w, r, |b|))
  {
    var n := |b| - w;
    var b' := OverwrittenRound(b, w, data);
    CircFrame(b, b', r, ReadSpaceOf(w, r, |b|));
    assert b'[w..] == data[..n] && b'[..|data| - n] == data[n..];
  }

  /** Advancing the write end makes the next `cnt` cells readable, after the others. */
  lemma Published(b: seq<byte>, w: nat, r: nat, cnt: nat)
    requires w < |b| && r < |b| && cnt <= WriteSpaceOf(w, r, |b|)
    ensures var w' := Wrap(w + cnt, |b|); var n := ReadSpaceOf(w, r, |b|);
            && ReadSpaceOf(w', r, |b|) == n + cnt
            && Circ(b, r, n + cnt) == Circ(b, r, n) + Circ(b, w, cnt)
  {
    hide Circ;
    var n := ReadSpaceOf(w, r, |b|);
    CircTake(b, r, n + cnt, n);
    CircDrop(b, r, n + cnt, n);
    assert Wrap(r + n, |b|) == w;
    TakeDrop(Circ(b, r, n + cnt), n);
  }

  lemma TakeDrop(s: seq<byte>, n: nat)
    requires n <= |s|
    ensures s == s[..n] + s[n..]
  {
  }

  class JackRing {
    const size: nat
    const buf: array<byte>
    var rd: nat
    var wr: nat

    ghost predicate Valid()
      reads this
    {
      buf.Length == size && rd < size && wr < size
    }

    ghost function Contents(): seq<byte>
      requires Valid()
      reads this, buf
    {
      Circ(buf[..], rd, ReadSpaceOf(wr, rd, size))
    }

    constructor (size: nat)
      requires size > 0
      ensures Valid() && Contents() == [] && this.size == size && fresh(buf)
    {
      this.size := size;
      buf := new byte[size];
      rd, wr := 0, 0;
    }

    function ReadSpace(): (n: nat)
      requires Valid()
      reads this, buf
      ensures n == |Contents()| < size
    {
      ReadSpaceOf(wr, rd, size)
    }

    function WriteSpace(): (n: nat)
      requires Valid()
      reads this, buf
      ensures n + |Contents()| == size - 1
    {
      WriteSpaceOf(wr, rd, size)
    }

    /** The free cells, in the order in which they will be filled. */
    method WriteVector() returns (v0: Seg, v1: Seg)
      requires Valid()
      ensures v0.len + v1.len == WriteSpace() && v0.off == wr && v1.off == 0
      ensures v0.off + v0.len <= size && v1.len <= size && (v1.len > 0 ==> v0.off + v0.len == size)
    {
      var n := WriteSpace();
      if wr + n > size {
        v0, v1 := Seg(wr, size - wr), Seg(0, wr + n - size);
      } else {
        v0, v1 := Seg(wr, n), Seg(0, 0);
      }
    }

    method ReadVector() returns (v0: Seg, v1: Seg)
      requires Valid()
      ensures v0.off + v0.len <= size && v1.off + v1.len <= size
      ensures Contents() == buf[v0.off..v0.off + v0.len] + buf[v1.off..v1.off + v1.len]
    {
      var n := ReadSpace();
      if rd + n > size {
        v0, v1 := Seg(rd, size - rd), Seg(0, rd + n - size);
      } else {
        v0, v1 := Seg(rd, n), Seg(0, 0);
      }
    }

    /** memcpy into the ring's cells. */
    method CopyIn(off: nat, data: seq<byte>)
      requires buf.Length == size && off + |data| <= size
      modifies buf
      ensures buf[..] == Overwritten(old(buf[..]), off, data)
    {
      forall i | 0 <= i < |data| {
        buf[off + i] := data[i];
      }
    }

    /** The two memcpy calls of a write that goes round the end. */
    method CopyRound(off: nat, data: seq<byte>)
      requires buf.Length == size && off < size < off + |data| && |data| < size
      modifies buf
      ensures buf[..] == OverwrittenRound(old(buf[..]), off, data)
    {
      InTwoPieces(buf[..], off, data);
      var n := size - off;
      CopyIn(off, data[..n]);
      CopyIn(0, data[n..]);
    }

    /** The data, put where the write vector says but not yet published. */
    method Fill(v0: Seg, data: seq<byte>)
      requires Valid() && |data| <= WriteSpace() && v0.off == wr
      requires v0.len == if wr + WriteSpace() > size then size - wr else WriteSpace()
      modifies buf
      ensures Contents() == old(Contents())
      ensures Circ(buf[..], wr, |data|) == data
    {
      hide Circ, Overwritten, OverwrittenRound;
      ghost var b := buf[..];
      if v0.len >= |data| {
        CopyIn(v0.off, data);
        FilledStraight(b, data, wr, rd);
      } else {
        CopyRound(v0.off, data);
        FilledSplit(b, data, wr, rd);
      }
    }

    method WriteAdvance(cnt: nat)
      requires Valid() && cnt <= WriteSpace()
      modifies this`wr
      ensures Valid() && Contents() == old(Contents() + Circ(buf[..], wr, cnt))
    {
      Published(buf[..], wr, rd, cnt);
      wr := Wrap(wr + cnt, size);
    }

    method ReadAdvance(cnt: nat)
      requires Valid() && cnt <= ReadSpace()
      modifies this`rd
      ensures Valid() && Contents() == old(Contents())[cnt..]
    {
      CircDrop(buf[..], rd, ReadSpace(), cnt);
      rd := Wrap(rd + cnt, size);
    }

    /** jack_ringbuffer_write: as many bytes as there is space for, published at once. */
    method Write(src: seq<byte>) returns (cnt: nat)
      requires Valid()
      modifies this`wr, buf
      ensures Valid() && cnt == (if |src| <= old(WriteSpace()) then |src| else old(WriteSpace()))
      ensures Contents() == old(Contents()) + src[..cnt]
    {
      cnt := if |src| <= WriteSpace() then |src| else WriteSpace();
      var v0, v1 := WriteVector();
      Fill(v0, src[..cnt]);
      WriteAdvance(cnt);
    }

    /** jack_ringbuffer_peek: as many bytes as there are, up to `cnt`. */
    method Peek(cnt: nat) returns (dest: seq<byte>)
      requires Valid()
      ensures dest == Contents()[..if cnt <= ReadSpace() then cnt else ReadSpace()]
    {
      var n := if cnt <= ReadSpace() then cnt else ReadSpace();
      CircTake(buf[..], rd, ReadSpace(), n);
      dest := if rd + n <= size then buf[rd..rd + n] else buf[rd..] + buf[..rd + n - size];
    }
  }
}
