/** One writer and one reader on the same ring, byte by byte. Every read of the other
    side's position, every byte copied and every publication of a position is a step of its
    own; between two steps of one side the other may take any number. */
module RingInterleaving {
  import opened Bytes
  import opened JackRing
  import opened Wrappers

  /** Where the writer is inside ringbuffer_cwrite. */
  datatype Writer =
    | WIdle
    | WSpace(m: Msg)            // about to look at the space
    | WHdr(m: Msg, i: nat)      // `i` header bytes copied
    | WData(m: Msg, i: nat)     // header published, `i` data bytes copied

  /** Where the reader is inside ringbuffer_cread or ringbuffer_cread_advance. */
  datatype Reader =
    | RIdle
    | RPeek(h: seq<byte>)                  // header bytes copied so far
    | RSpace(hdr: Hdr)                     // about to look for the data
    | RData(hdr: Hdr, d: seq<byte>)        // data bytes copied so far
    | RDrop(hdr: Hdr)                      // about to advance without copying

  datatype State = State(
    buf: seq<byte>, w: nat, r: nat,
    writer: Writer, reader: Reader,
    sent: seq<Msg>,    // messages written completely
    got: seq<Msg>,     // messages read or dropped, in that order
    peeked: Option<Msg>)   // what a peek has shown since the last advance

  ghost predicate Init(s: State) {
    && |s.buf| > 0 && s.w == 0 && s.r == 0
    && s.writer.WIdle? && s.reader.RIdle? && s.sent == [] && s.got == [] && s.peeked.None?
  }

  function ReadSpace(s: State): nat
    requires s.w < |s.buf| && s.r < |s.buf|
  {
    ReadSpaceOf(s.w, s.r, |s.buf|)
  }

  function WriteSpace(s: State): nat
    requires s.w < |s.buf| && s.r < |s.buf|
  {
    WriteSpaceOf(s.w, s.r, |s.buf|)
  }

  function HdrOf(m: Msg): Hdr
    requires WellFormed(m)
  {
    Hdr(m.tag, |m.data|)
  }

  ghost predicate InBounds(s: State) {
    && s.w < |s.buf| && s.r < |s.buf|
    && (!s.writer.WIdle? ==> WellFormed(s.writer.m))
  }

  // ---- the steps -----------------------------------------------------------------

  /** A call of ringbuffer_cwrite. */
  ghost predicate WriteCall(s: State, s': State)
    requires InBounds(s)
  {
    s.writer.WIdle? && exists m: Msg :: WellFormed(m) && s' == s.(writer := WSpace(m))
  }

  ghost predicate WriteCheck(s: State, s': State)
    requires InBounds(s)
  {
    && s.writer.WSpace?
    && s' == s.(writer := if HDR + |s.writer.m.data| > WriteSpace(s) then WIdle else WHdr(s.writer.m, 0))
  }

  ghost predicate WriteHdrByte(s: State, s': State)
    requires InBounds(s)
  {
    && s.writer.WHdr? && s.writer.i < HDR && s.w + s.writer.i < 2 * |s.buf|
    && s' == s.(buf := s.buf[Wrap(s.w + s.writer.i, |s.buf|) := EncodeHdr(HdrOf(s.writer.m))[s.writer.i]],
                writer := WHdr(s.writer.m, s.writer.i + 1))
  }

  /** The header is published; a message without data is then complete. */
  ghost predicate WriteHdrAdvance(s: State, s': State)
    requires InBounds(s)
  {
    && s.writer.WHdr? && s.writer.i == HDR && s.w + HDR < 2 * |s.buf|
    && s' == s.(w := Wrap(s.w + HDR, |s.buf|),
                writer := if s.writer.m.data == [] then WIdle else WData(s.writer.m, 0),
                sent := if s.writer.m.data == [] then s.sent + [s.writer.m] else s.sent)
  }

  ghost predicate WriteDataByte(s: State, s': State)
    requires InBounds(s)
  {
    && s.writer.WData? && s.writer.i < |s.writer.m.data| && s.w + s.writer.i < 2 * |s.buf|
    && s' == s.(buf := s.buf[Wrap(s.w + s.writer.i, |s.buf|) := s.writer.m.data[s.writer.i]],
                writer := WData(s.writer.m, s.writer.i + 1))
  }

  ghost predicate WriteDataAdvance(s: State, s': State)
    requires InBounds(s)
  {
    && s.writer.WData? && s.writer.i == |s.writer.m.data| && s.w + s.writer.i < 2 * |s.buf|
    && s' == s.(w := Wrap(s.w + s.writer.i, |s.buf|), writer := WIdle, sent := s.sent + [s.writer.m])
  }

  /** A call of ringbuffer_cread or ringbuffer_cread_advance, which look for eight bytes first. */
  ghost predicate ReadCall(s: State, s': State)
    requires InBounds(s)
  {
    s.reader.RIdle? && s' == s.(reader := if ReadSpace(s) < HDR then RIdle else RPeek([]))
  }

  ghost predicate ReadHdrByte(s: State, s': State)
    requires InBounds(s)
  {
    && s.reader.RPeek? && |s.reader.h| < HDR && s.r + |s.reader.h| < 2 * |s.buf|
    && s' == s.(reader := RPeek(s.reader.h + [s.buf[Wrap(s.r + |s.reader.h|, |s.buf|)]]))
  }

  ghost predicate ReadHdrDone(s: State, s': State)
    requires InBounds(s)
  {
    s.reader.RPeek? && |s.reader.h| == HDR && s' == s.(reader := RSpace(DecodeHdr(s.reader.h)))
  }

  /** The second look at the space: without all of the data there is no message. */
  ghost predicate ReadCheck(s: State, s': State)
    requires InBounds(s)
  {
    && s.reader.RSpace?
    && s' == s.(reader := if ReadSpace(s) < HDR + s.reader.hdr.len then RIdle else RData(s.reader.hdr, []))
  }

  /** The same look at the space in ringbuffer_cread_advance. */
  ghost predicate DropCheck(s: State, s': State)
    requires InBounds(s)
  {
    && s.reader.RSpace?
    && s' == s.(reader := if ReadSpace(s) < HDR + s.reader.hdr.len then RIdle else RDrop(s.reader.hdr))
  }

  /** The message whose bytes an advance of `n` data bytes passes over. */
  function Passed(s: State, hdr: Hdr): Msg
    requires InBounds(s) && s.r + HDR < 2 * |s.buf| && hdr.len <= |s.buf|
  {
    Msg(hdr.tag, Circ(s.buf, Wrap(s.r + HDR, |s.buf|), hdr.len))
  }

  /** The advance itself: the bytes of the message are passed over, whatever they are. */
  ghost predicate Drop(s: State, s': State)
    requires InBounds(s)
  {
    && s.reader.RDrop? && s.r + HDR + s.reader.hdr.len < 2 * |s.buf| && s.reader.hdr.len <= |s.buf|
    && s' == s.(r := Wrap(s.r + HDR + s.reader.hdr.len, |s.buf|), reader := RIdle,
                got := s.got + [Passed(s, s.reader.hdr)], peeked := None)
  }

  ghost predicate ReadDataByte(s: State, s': State)
    requires InBounds(s)
  {
    && s.reader.RData? && |s.reader.d| < s.reader.hdr.len && s.r + HDR + |s.reader.d| < 2 * |s.buf|
    && s' == s.(reader := s.reader.(d := s.reader.d + [s.buf[Wrap(s.r + HDR + |s.reader.d|, |s.buf|)]]))
  }

  /** A read that advances: the message is delivered. */
  ghost predicate ReadAdvance(s: State, s': State)
    requires InBounds(s)
  {
    && s.reader.RData? && |s.reader.d| == s.reader.hdr.len && s.r + HDR + |s.reader.d| < 2 * |s.buf|
    && s' == s.(r := Wrap(s.r + HDR + |s.reader.d|, |s.buf|), reader := RIdle,
                got := s.got + [Msg(s.reader.hdr.tag, s.reader.d)], peeked := None)
  }

  /** A reader that leaves without advancing: a peek that has shown the message, or, before any
      byte is copied, a buffer that is too small. */
  ghost predicate ReadLeave(s: State, s': State)
    requires InBounds(s)
  {
    && s.reader.RData? && (s.reader.d == [] || |s.reader.d| == s.reader.hdr.len)
    && s' == s.(reader := RIdle,
                peeked := if |s.reader.d| == s.reader.hdr.len then Some(Msg(s.reader.hdr.tag, s.reader.d)) else s.peeked)
  }

  ghost predicate WriterStep(s: State, s': State)
    requires InBounds(s)
  {
    || WriteCall(s, s') || WriteCheck(s, s') || WriteHdrByte(s, s') || WriteHdrAdvance(s, s')
    || WriteDataByte(s, s') || WriteDataAdvance(s, s')
  }

  ghost predicate ReaderStep(s: State, s': State)
    requires InBounds(s)
  {
    || ReadCall(s, s') || ReadHdrByte(s, s') || ReadHdrDone(s, s') || ReadCheck(s, s')
    || ReadDataByte(s, s') || ReadAdvance(s, s') || ReadLeave(s, s')
    || DropCheck(s, s') || Drop(s, s')
  }

  ghost predicate Step(s: State, s': State) {
    InBounds(s) && (WriterStep(s, s') || ReaderStep(s, s'))
  }

  // ---- what every reachable state satisfies ------------------------------------------

  /** A state without the ring's geometry: the bytes the reader can see, the bytes the
      writer has copied but not published, and the number of free cells. */
  datatype View = View(
    readable: seq<byte>, staged: seq<byte>, free: nat,
    writer: Writer, reader: Reader, sent: seq<Msg>, got: seq<Msg>)

  function Copied(w: Writer): nat {
    match w
    case WHdr(_, i) => i
    case WData(_, i) => i
    case _ => 0
  }

  function ViewOf(s: State): View
    requires InBounds(s) && Copied(s.writer) <= |s.buf|
  {
    View(Circ(s.buf, s.r, ReadSpace(s)), Circ(s.buf, s.w, Copied(s.writer)), WriteSpace(s),
         s.writer, s.reader, s.sent, s.got)
  }

  /** The published part of a message that is still being written. */
  function Partial(w: Writer): seq<byte>
    requires w.WData? ==> WellFormed(w.m)
  {
    if w.WData? then EncodeHdr(HdrOf(w.m)) else []
  }

  /** Deliveries are a prefix of the completed messages, and what is readable is the
      frames of the others followed by at most one published header. */
  ghost predicate Delivered(readable: seq<byte>, writer: Writer, sent: seq<Msg>, got: seq<Msg>) {
    && (!writer.WIdle? ==> WellFormed(writer.m))
    && AllWellFormed(sent) && got <= sent
    && readable == Frames(sent[|got|..]) + Partial(writer)
  }

  ghost predicate WriterOk(writer: Writer, staged: seq<byte>, free: nat) {
    match writer
    case WHdr(m, i) =>
      WellFormed(m) && i <= HDR && HDR + |m.data| <= free && staged == EncodeHdr(HdrOf(m))[..i]
    case WData(m, i) =>
      m.data != [] && i <= |m.data| <= free && staged == m.data[..i]
    case _ => staged == []
  }

  ghost predicate ReaderOk(reader: Reader, readable: seq<byte>) {
    match reader
    case RPeek(h) => |h| <= HDR <= |readable| && h == readable[..|h|]
    case RSpace(hdr) => HDR <= |readable| && hdr == DecodeHdr(readable[..HDR])
    case RData(hdr, d) =>
      && HDR + hdr.len <= |readable| && |d| <= hdr.len
      && hdr == DecodeHdr(readable[..HDR]) && d == readable[HDR..HDR + |d|]
    case RDrop(hdr) => HDR + hdr.len <= |readable| && hdr == DecodeHdr(readable[..HDR])
    case RIdle => true
  }

  ghost predicate ViewInv(v: View) {
    && Delivered(v.readable, v.writer, v.sent, v.got)
    && WriterOk(v.writer, v.staged, v.free) && ReaderOk(v.reader, v.readable)
  }

  ghost predicate Inv(s: State) {
    InBounds(s) && Copied(s.writer) <= WriteSpace(s) && ViewInv(ViewOf(s))
  }

  // ---- from cells to views: what a step does, seen without the geometry -----------------

  lemma WriteByteFrame(b: seq<byte>, w: nat, r: nat, i: nat, x: byte)
    requires w < |b| && r < |b| && i < WriteSpaceOf(w, r, |b|)
    ensures var b' := b[Wrap(w + i, |b|) := x];
            && Circ(b', r, ReadSpaceOf(w, r, |b|)) == Circ(b, r, ReadSpaceOf(w, r, |b|))
            && Circ(b', w, i + 1) == Circ(b, w, i) + [x]
  {
    var b' := b[Wrap(w + i, |b|) := x];
    CircFrame(b, b', r, ReadSpaceOf(w, r, |b|));
    CircFrame(b, b', w, i);
    CircTake(b', w, i + 1, i);
    CircAt(b', w, i + 1);
    var c := Circ(b', w, i + 1);
    assert c == c[..i] + [c[i]];
  }

  lemma WriteByteView(s: State, s': State)
    requires InBounds(s) && Copied(s.writer) < WriteSpace(s) && (WriteHdrByte(s, s') || WriteDataByte(s, s'))
    ensures var v := ViewOf(s);
            var x := if s.writer.WHdr? then EncodeHdr(HdrOf(s.writer.m))[s.writer.i] else s.writer.m.data[s.writer.i];
            InBounds(s') && ViewOf(s') == v.(staged := v.staged + [x], writer := s'.writer)
  {
    hide Circ, Frames, EncodeHdr;
    var x := if s.writer.WHdr? then EncodeHdr(HdrOf(s.writer.m))[s.writer.i] else s.writer.m.data[s.writer.i];
    WriteByteFrame(s.buf, s.w, s.r, s.writer.i, x);
  }

  lemma PublishView(s: State, s': State)
    requires InBounds(s) && Copied(s.writer) <= WriteSpace(s) && (WriteHdrAdvance(s, s') || WriteDataAdvance(s, s'))
    ensures var v := ViewOf(s); var n := Copied(s.writer);
            InBounds(s') && Copied(s'.writer) == 0
            && ViewOf(s') == v.(readable := v.readable + v.staged, staged := [], free := v.free - n,
                                writer := s'.writer, sent := s'.sent)
  {
    Published(s.buf, s.w, s.r, Copied(s.writer));
  }

  lemma ReadAdvanceView(s: State, s': State)
    requires InBounds(s) && Copied(s.writer) <= WriteSpace(s) && ReadAdvance(s, s')
    requires HDR + |s.reader.d| <= ReadSpace(s)
    ensures var v := ViewOf(s); var n := HDR + |s.reader.d|;
            InBounds(s') && n <= |v.readable|
            && ViewOf(s') == v.(readable := v.readable[n..], free := v.free + n, reader := RIdle, got := s'.got)
  {
    hide Circ, Frames;
    CircDrop(s.buf, s.r, ReadSpace(s), HDR + |s.reader.d|);
  }

  lemma DropView(s: State, s': State)
    requires InBounds(s) && Copied(s.writer) <= WriteSpace(s) && Drop(s, s')
    requires HDR + s.reader.hdr.len <= ReadSpace(s)
    ensures var v := ViewOf(s); var n := s.reader.hdr.len;
            && InBounds(s') && HDR + n <= |v.readable|
            && Passed(s, s.reader.hdr) == Msg(s.reader.hdr.tag, v.readable[HDR..HDR + n])
            && ViewOf(s') == v.(readable := v.readable[HDR + n..], free := v.free + HDR + n, reader := RIdle, got := s'.got)
  {
    hide Circ;
    CircDrop(s.buf, s.r, ReadSpace(s), HDR + s.reader.hdr.len);
    CircSlice(s.buf, s.r, ReadSpace(s), s.reader.hdr.len);
  }

  /** The data behind a header. */
  lemma CircSlice(b: seq<byte>, r: nat, space: nat, n: nat)
    requires r < |b| && HDR + n <= space < |b|
    ensures Circ(b, Wrap(r + HDR, |b|), n) == Circ(b, r, space)[HDR..HDR + n]
  {
    hide Circ;
    CircDrop(b, r, space, HDR);
    CircTake(b, Wrap(r + HDR, |b|), space - HDR, n);
    var c := Circ(b, r, space);
    assert c[HDR..][..n] == c[HDR..HDR + n];
  }

  lemma ReadByteAt(s: State, i: nat)
    requires InBounds(s) && i < ReadSpace(s)
    ensures s.buf[Wrap(s.r + i, |s.buf|)] == Circ(s.buf, s.r, ReadSpace(s))[i]
  {
    CircAt(s.buf, s.r, ReadSpace(s));
  }

  // ---- the writer keeps the invariant ------------------------------------------------------

  lemma StageInv(v: View, v': View, x: byte)
    requires ViewInv(v) && (v.writer.WHdr? || v.writer.WData?)
    requires v.writer.WHdr? ==> v.writer.i < HDR && x == EncodeHdr(HdrOf(v.writer.m))[v.writer.i]
    requires v.writer.WData? ==> v.writer.i < |v.writer.m.data| && x == v.writer.m.data[v.writer.i]
    requires v' == v.(staged := v.staged + [x], writer := v.writer.(i := v.writer.i + 1))
    ensures ViewInv(v')
  {
    hide Frames, ReaderOk, DecodeHdr, AllWellFormed;
  }

  /** A publication makes what is readable longer; nobody's bytes change. */
  lemma ReaderSeesMore(reader: Reader, a: seq<byte>, b: seq<byte>)
    requires ReaderOk(reader, a) && a <= b
    ensures ReaderOk(reader, b)
  {
    assert forall n :: 0 <= n <= |a| ==> a[..n] == b[..n];
  }

  lemma PendingSnoc(v: View, m: Msg)
    requires v.got <= v.sent && AllWellFormed(v.sent) && WellFormed(m)
    ensures Frames((v.sent + [m])[|v.got|..]) == Frames(v.sent[|v.got|..]) + EncodeHdr(HdrOf(m)) + m.data
  {
    FramesSnoc(v.sent[|v.got|..], m);
    assert (v.sent + [m])[|v.got|..] == v.sent[|v.got|..] + [m];
  }

  lemma PublishHdrInv(v: View, v': View)
    requires ViewInv(v) && v.writer.WHdr? && v.writer.i == HDR && v.writer.m.data != []
    requires v' == v.(readable := v.readable + v.staged, staged := [], free := v.free - HDR, writer := WData(v.writer.m, 0))
    ensures ViewInv(v')
  {
    ReaderSeesMore(v.reader, v.readable, v'.readable);
  }

  lemma CompleteInv(v: View, v': View)
    requires ViewInv(v) && (v.writer.WHdr? || v.writer.WData?)
    requires v.writer.WHdr? ==> v.writer.i == HDR && v.writer.m.data == []
    requires v.writer.WData? ==> v.writer.i == |v.writer.m.data|
    requires v' == v.(readable := v.readable + v.staged, staged := [], free := v.free - v.writer.i,
                      writer := WIdle, sent := v.sent + [v.writer.m])
    ensures ViewInv(v')
  {
    ReaderSeesMore(v.reader, v.readable, v'.readable);
    PendingSnoc(v, v.writer.m);
    assert v.readable + v.staged == Frames(v.sent[|v.got|..]) + EncodeHdr(HdrOf(v.writer.m)) + v.writer.m.data;
  }

  lemma WriterPreserves(s: State, s': State)
    requires Inv(s) && WriterStep(s, s')
    ensures Inv(s')
  {
    hide Circ; hide Frames; hide DecodeHdr;
    var v := ViewOf(s);
    if WriteHdrByte(s, s') || WriteDataByte(s, s') {
      assert WriterOk(v.writer, v.staged, v.free);
      WriteByteView(s, s');
      var x := if s.writer.WHdr? then EncodeHdr(HdrOf(s.writer.m))[s.writer.i] else s.writer.m.data[s.writer.i];
      StageInv(v, ViewOf(s'), x);
    } else if WriteHdrAdvance(s, s') || WriteDataAdvance(s, s') {
      PublishView(s, s');
      if s'.writer.WData? {
        PublishHdrInv(v, ViewOf(s'));
      } else {
        CompleteInv(v, ViewOf(s'));
      }
    } else {
      assert ViewOf(s') == v.(writer := s'.writer);
    }
  }

  // ---- the reader keeps the invariant ------------------------------------------------------

  /** A published header alone is not taken for a message: its data are still missing. */
  lemma SomethingPending(v: View, hdr: Hdr)
    requires Delivered(v.readable, v.writer, v.sent, v.got) && WriterOk(v.writer, v.staged, v.free)
    requires HDR + hdr.len <= |v.readable| && hdr == DecodeHdr(v.readable[..HDR])
    ensures |v.got| < |v.sent|
  {
    if |v.got| == |v.sent| {
      var h := HdrOf(v.writer.m);
      assert v.sent[|v.got|..] == [] && Frames([]) == [];
      assert v.readable == EncodeHdr(h);
      assert v.readable[..HDR] == EncodeHdr(h);
      HdrRoundTrip(h);
    }
  }

  lemma SplitFrame(f: seq<byte>, p: seq<byte>, n: nat)
    requires HDR + n <= |f|
    ensures (f + p)[..HDR] == f[..HDR] && (f + p)[HDR..HDR + n] == f[HDR..HDR + n]
    ensures (f + p)[HDR + n..] == f[HDR + n..] + p
  {
  }

  /** A reader that has found header and data in the ring has found the next message. */
  lemma FoundIsNext(v: View, hdr: Hdr)
    requires Delivered(v.readable, v.writer, v.sent, v.got) && WriterOk(v.writer, v.staged, v.free)
    requires HDR + hdr.len <= |v.readable| && hdr == DecodeHdr(v.readable[..HDR])
    ensures |v.got| < |v.sent| && var m := v.sent[|v.got|];
            hdr == HdrOf(m) && m.data == v.readable[HDR..HDR + hdr.len]
            && v.readable[HDR + hdr.len..] == Frames(v.sent[|v.got| + 1..]) + Partial(v.writer)
  {
    SomethingPending(v, hdr);
    hide WriterOk; hide DecodeHdr; hide Frames;
    var pending := v.sent[|v.got|..];
    assert pending[1..] == v.sent[|v.got| + 1..];
    FirstFrame(pending);
    SplitFrame(Frames(pending), Partial(v.writer), |pending[0].data|);
  }

  lemma ReadHdrByteInv(v: View, v': View)
    requires ViewInv(v) && v.reader.RPeek? && |v.reader.h| < HDR
    requires v' == v.(reader := RPeek(v.reader.h + [v.readable[|v.reader.h|]]))
    ensures ViewInv(v')
  {
    hide Delivered; hide WriterOk;
  }

  lemma ReadDataByteInv(v: View, v': View)
    requires ViewInv(v) && v.reader.RData? && |v.reader.d| < v.reader.hdr.len
    requires v' == v.(reader := v.reader.(d := v.reader.d + [v.readable[HDR + |v.reader.d|]]))
    ensures ViewInv(v')
  {
    hide Delivered, WriterOk, DecodeHdr;
  }

  /** Passing over the message found delivers it. */
  lemma TakeInv(v: View, v': View, hdr: Hdr)
    requires ViewInv(v) && HDR + hdr.len <= |v.readable| && hdr == DecodeHdr(v.readable[..HDR])
    requires var n := HDR + hdr.len;
             v' == v.(readable := v.readable[n..], free := v.free + n, reader := RIdle,
                      got := v.got + [Msg(hdr.tag, v.readable[HDR..n])])
    ensures ViewInv(v')
  {
    hide DecodeHdr, Frames;
    FoundIsNext(v, hdr);
    assert v.sent == v.got + v.sent[|v.got|..];
  }

  lemma ReaderLooks(v: View, v': View)
    requires ViewInv(v) && v' == v.(reader := v'.reader)
    requires || v'.reader.RIdle?
             || (v'.reader == RPeek([]) && HDR <= |v.readable|)
             || (v.reader.RPeek? && |v.reader.h| == HDR && v'.reader == RSpace(DecodeHdr(v.reader.h)))
             || (v.reader.RSpace? && HDR + v.reader.hdr.len <= |v.readable| && (v'.reader == RData(v.reader.hdr, []) || v'.reader == RDrop(v.reader.hdr)))
    ensures ViewInv(v')
  {
  }

  lemma CopyPreserves(s: State, s': State)
    requires Inv(s) && (ReadHdrByte(s, s') || ReadDataByte(s, s'))
    ensures Inv(s')
  {
    hide Circ; hide Frames; hide DecodeHdr;
    var v := ViewOf(s);
    if ReadHdrByte(s, s') {
      ReadByteAt(s, |s.reader.h|);
      ReadHdrByteInv(v, v.(reader := s'.reader));
    } else {
      ReadByteAt(s, HDR + |s.reader.d|);
      ReadDataByteInv(v, v.(reader := s'.reader));
    }
  }

  lemma TakePreserves(s: State, s': State)
    requires Inv(s) && (ReadAdvance(s, s') || Drop(s, s'))
    ensures Inv(s')
  {
    hide Circ; hide Frames; hide DecodeHdr; hide Delivered; hide WriterOk;
    if ReadAdvance(s, s') {
      ReadAdvanceView(s, s');
    } else {
      DropView(s, s');
    }
    TakeInv(ViewOf(s), ViewOf(s'), s.reader.hdr);
  }

  lemma ReaderPreserves(s: State, s': State)
    requires Inv(s) && ReaderStep(s, s')
    ensures Inv(s')
  {
    hide Circ; hide Frames; hide DecodeHdr;
    if ReadHdrByte(s, s') || ReadDataByte(s, s') {
      CopyPreserves(s, s');
    } else if ReadAdvance(s, s') || Drop(s, s') {
      TakePreserves(s, s');
    } else {
      var v := ViewOf(s);
      ReaderLooks(v, v.(reader := s'.reader));
    }
  }

  // ---- whole runs ------------------------------------------------------------------------

  ghost predicate Run(run: seq<State>) {
    run != [] && Init(run[0]) && forall i :: 0 <= i < |run| - 1 ==> Step(run[i], run[i + 1])
  }

  lemma {:induction false} RunInv(run: seq<State>, i: nat)
    requires Run(run) && i < |run|
    ensures Inv(run[i])
  {
    if i == 0 {
      assert Frames([]) == [];
    } else {
      RunInv(run, i - 1);
      assert Step(run[i - 1], run[i]);
      if WriterStep(run[i - 1], run[i]) {
        WriterPreserves(run[i - 1], run[i]);
      } else {
        ReaderPreserves(run[i - 1], run[i]);
      }
    }
  }

  /** Whatever the interleaving: at every moment the messages delivered are a prefix of the
      messages written completely, tags, lengths and bytes intact; and a reader about to hand
      over a message, read or only peeked at, holds the next one of them, whole. */
  lemma Safety(run: seq<State>, i: nat)
    requires Run(run) && i < |run|
    ensures run[i].got <= run[i].sent
    ensures var s := run[i]; s.reader.RData? && |s.reader.d| == s.reader.hdr.len ==>
              |s.got| < |s.sent| && s.sent[|s.got|] == Msg(s.reader.hdr.tag, s.reader.d)
  {
    RunInv(run, i);
    HeldIsNext(run[i]);
  }

  lemma HeldIsNext(s: State)
    requires Inv(s)
    ensures s.reader.RData? && |s.reader.d| == s.reader.hdr.len ==>
              |s.got| < |s.sent| && s.sent[|s.got|] == Msg(s.reader.hdr.tag, s.reader.d)
  {
    if s.reader.RData? && |s.reader.d| == s.reader.hdr.len {
      FoundIsNext(ViewOf(s), s.reader.hdr);
    }
  }

  /** A peek shows the next message to be delivered; a read that fails for a small buffer shows
      nothing new, and neither takes anything out of the ring. */
  lemma PeekShows(run: seq<State>, i: nat, s': State)
    requires Run(run) && i < |run|
    ensures Inv(run[i])
    ensures var s := run[i]; ReadLeave(s, s') ==>
              && s'.got == s.got && s'.r == s.r && s'.reader.RIdle?
              && if |s.reader.d| == s.reader.hdr.len
                 then |s.got| < |s.sent| && s'.peeked == Some(s.sent[|s.got|])
                 else s.reader.d == [] && s'.peeked == s.peeked
  {
    RunInv(run, i);
    HeldIsNext(run[i]);
  }

  /** What was peeked at is still the next message to be delivered. */
  ghost predicate PeekedIsNext(s: State) {
    s.peeked.Some? ==> |s.got| < |s.sent| && s.sent[|s.got|] == s.peeked.value
  }

  lemma PeekKept(s: State, s': State)
    requires Inv(s) && Step(s, s') && PeekedIsNext(s)
    ensures PeekedIsNext(s')
  {
    if ReadLeave(s, s') {
      HeldIsNext(s);
    }
  }

  lemma NothingPeeked(s: State)
    requires Init(s)
    ensures PeekedIsNext(s)
  {
  }

  lemma {:induction false} PeekInv(run: seq<State>, i: nat)
    requires Run(run) && i < |run|
    ensures PeekedIsNext(run[i])
  {
    hide Inv, PeekedIsNext, WriterStep, ReaderStep;
    if i == 0 {
      NothingPeeked(run[0]);
    } else {
      PeekInv(run, i - 1);
      RunInv(run, i - 1);
      assert Step(run[i - 1], run[i]);
      PeekKept(run[i - 1], run[i]);
    }
  }

  /** Peek, then advance: whatever the writer has done in between, the message that leaves the
      ring next, dropped unseen or read again, is the one the peek has shown. */
  lemma PeekThenAdvance(run: seq<State>, i: nat)
    requires Run(run) && i + 1 < |run|
    requires run[i].peeked.Some? && |run[i + 1].got| > |run[i].got|
    ensures run[i + 1].got == run[i].got + [run[i].peeked.value]
  {
    PeekInv(run, i);
    assert Step(run[i], run[i + 1]);
    Safety(run, i + 1);
  }

  // ---- nothing is missed -------------------------------------------------------------------

  /** The first of the undelivered messages lies in the ring from end to end. */
  lemma PendingWhole(s: State)
    requires Inv(s) && |s.got| < |s.sent|
    ensures var m := s.sent[|s.got|];
            HDR + |m.data| <= ReadSpace(s)
            && DecodeHdr(Circ(s.buf, s.r, ReadSpace(s))[..HDR]) == Hdr(m.tag, |m.data|)
  {
    var v := ViewOf(s);
    var pending := v.sent[|v.got|..];
    assert WellFormed(pending[0]);
    FirstFrame(pending);
    hide Frames, DecodeHdr, Circ;
    SplitFrame(Frames(pending), Partial(v.writer), |pending[0].data|);
    assert |v.readable| == ReadSpace(s);
  }

  /** A reader's look at the ring finds a message if and only if one is complete and undelivered:
      the first look, for eight bytes, whenever there is one, and the second look, for the rest,
      exactly then, be it to copy the message or to drop it. */
  lemma LookFinds(s: State, s': State)
    requires Inv(s)
    ensures ReadCall(s, s') && |s.got| < |s.sent| ==> s'.reader.RPeek?
    ensures ReadCheck(s, s') ==> (s'.reader.RData? <==> |s.got| < |s.sent|)
    ensures DropCheck(s, s') ==> (s'.reader.RDrop? <==> |s.got| < |s.sent|)
  {
    if |s.got| < |s.sent| {
      PendingWhole(s);
    } else {
      assert ReaderOk(s.reader, ViewOf(s).readable);
      if s.reader.RSpace? && HDR + s.reader.hdr.len <= ReadSpace(s) {
        SomethingPending(ViewOf(s), s.reader.hdr);
      }
    }
    hide Frames, Circ, DecodeHdr;
  }

  lemma LooksFind(run: seq<State>, i: nat, s': State)
    requires Run(run) && i < |run|
    ensures Inv(run[i])
    ensures var s := run[i]; ReadCall(s, s') && |s.got| < |s.sent| ==> s'.reader.RPeek?
    ensures var s := run[i]; ReadCheck(s, s') ==> (s'.reader.RData? <==> |s.got| < |s.sent|)
    ensures var s := run[i]; DropCheck(s, s') ==> (s'.reader.RDrop? <==> |s.got| < |s.sent|)
  {
    RunInv(run, i);
    LookFinds(run[i], s');
  }

  /** Steps of one side only, the other at rest. */
  ghost predicate ReadsOn(run: seq<State>) {
    run != [] && forall j :: 0 <= j < |run| - 1 ==> InBounds(run[j]) && ReaderStep(run[j], run[j + 1])
  }

  ghost predicate WritesOn(run: seq<State>) {
    run != [] && forall j :: 0 <= j < |run| - 1 ==> InBounds(run[j]) && WriterStep(run[j], run[j + 1])
  }

  /** What the copying reader does next, once it has found a message. */
  ghost function NextRead(s: State): State
    requires Inv(s) && |s.got| < |s.sent| && !s.reader.RDrop? && s.r + ReadSpace(s) < 2 * |s.buf|
  {
    match s.reader
    case RPeek(h) =>
      if |h| < HDR then s.(reader := RPeek(h + [s.buf[Wrap(s.r + |h|, |s.buf|)]]))
      else s.(reader := RSpace(DecodeHdr(h)))
    case RSpace(hdr) => s.(reader := RData(hdr, []))
    case RData(hdr, d) =>
      if |d| < hdr.len then s.(reader := RData(hdr, d + [s.buf[Wrap(s.r + HDR + |d|, |s.buf|)]]))
      else s.(r := Wrap(s.r + HDR + |d|, |s.buf|), reader := RIdle, got := s.got + [Msg(hdr.tag, d)], peeked := None)
    case _ => s.(reader := RPeek([]))
  }

  lemma Bounded(s: State)
    requires Inv(s)
    ensures InBounds(s)
  {
  }

  function Phase(r: Reader): nat {
    match r
    case RIdle => 3
    case RPeek(_) => 2
    case RSpace(_) => 1
    case _ => 0
  }

  function Missing(r: Reader): nat {
    match r
    case RPeek(h) => if |h| < HDR then HDR - |h| else 0
    case RData(hdr, d) => if |d| < hdr.len then hdr.len - |d| else 0
    case _ => 0
  }

  lemma NextReadSteps(s: State)
    requires Inv(s) && |s.got| < |s.sent| && !s.reader.RDrop?
    ensures s.r + ReadSpace(s) < 2 * |s.buf| && ReaderStep(s, NextRead(s)) && Inv(NextRead(s))
    ensures var s' := NextRead(s);
            s'.sent == s.sent && s'.writer == s.writer && !s'.reader.RDrop? &&
            if s'.reader.RIdle? then s'.got == s.got + [s.sent[|s.got|]]
            else s'.got == s.got && (Phase(s'.reader) < Phase(s.reader)
                                     || (Phase(s'.reader) == Phase(s.reader) && Missing(s'.reader) < Missing(s.reader)))
  {
    HeldIsNext(s);
    var s' := NextRead(s);
    assert ReaderOk(s.reader, ViewOf(s).readable);
    assert |ViewOf(s).readable| == ReadSpace(s);
    PendingWhole(s);
    hide Circ, Frames, DecodeHdr;
    if s.reader.RSpace? {
      var checked := s.(reader := if ReadSpace(s) < HDR + s.reader.hdr.len then RIdle else RData(s.reader.hdr, []));
      LookFinds(s, checked);
      assert ReadCheck(s, checked);
    }
    ReaderPreserves(s, s');
  }

  /** A reader that has a message before it can always read on, to the end: it delivers that
      message, whatever the writer is in the midst of. */
  lemma {:induction false} ReadsThrough(s: State) returns (run: seq<State>)
    requires Inv(s) && |s.got| < |s.sent| && !s.reader.RDrop?
    ensures ReadsOn(run) && run[0] == s
    ensures var e := run[|run| - 1];
            e.reader.RIdle? && e.got == s.got + [s.sent[|s.got|]] && e.sent == s.sent && e.writer == s.writer && Inv(e)
    decreases Phase(s.reader), Missing(s.reader)
  {
    hide Inv, ReaderStep, InBounds, NextRead, Phase, Missing;
    NextReadSteps(s);
    assert InBounds(s) by {
      Bounded(s);
    }
    var s' := NextRead(s);
    if s'.reader.RIdle? {
      run := [s, s'];
    } else {
      var rest := ReadsThrough(s');
      run := [s] + rest;
    }
  }

  /** An advance that has found a message can drop it, and drops just that one. */
  lemma DropsNext(s: State) returns (s': State)
    requires Inv(s) && s.reader.RDrop?
    ensures Drop(s, s') && Inv(s') && |s.got| < |s.sent| && s'.got == s.got + [s.sent[|s.got|]]
  {
    hide Circ, Frames, DecodeHdr;
    assert ReaderOk(s.reader, ViewOf(s).readable);
    assert |ViewOf(s).readable| == ReadSpace(s);
    var hdr := s.reader.hdr;
    FoundIsNext(ViewOf(s), hdr);
    s' := s.(r := Wrap(s.r + HDR + hdr.len, |s.buf|), reader := RIdle, got := s.got + [Passed(s, hdr)], peeked := None);
    TakePreserves(s, s');
    assert s'.got <= s'.sent;
  }

  /** So a reader with a message before it never goes away empty-handed: it is idle again only by
      taking the message, by dropping it, or by leaving it to a later read. */
  lemma NeverEmptyHanded(run: seq<State>, i: nat)
    requires Run(run) && i + 1 < |run|
    requires |run[i].got| < |run[i].sent| && InBounds(run[i]) && ReaderStep(run[i], run[i + 1]) && run[i + 1].reader.RIdle?
    ensures var s, s' := run[i], run[i + 1];
            || s'.got == s.got + [s.sent[|s.got|]]
            || (s.reader.RData? && s' == s.(reader := RIdle, peeked := s'.peeked))
  {
    LooksFind(run, i, run[i + 1]);
    Safety(run, i + 1);
    assert Step(run[i], run[i + 1]);
  }

  /** The bytes that can be read are those of the undelivered messages, eight a message more. */
  lemma HeldBytes(s: State)
    requires Inv(s) && !s.writer.WData?
    ensures ReadSpace(s) == |Frames(s.sent[|s.got|..])|
  {
    assert |ViewOf(s).readable| == ReadSpace(s);
  }

  /** The writer's look at the space accepts the message, and that message, if and only if header
      and data fit beside the undelivered messages with one cell to spare. */
  lemma LookAccepts(run: seq<State>, i: nat, s': State)
    requires Run(run) && i < |run|
    ensures Inv(run[i])
    ensures var s := run[i]; WriteCheck(s, s') ==>
              var fits := HDR + |s.writer.m.data| + |Frames(s.sent[|s.got|..])| < |s.buf|;
              s' == s.(writer := if fits then WHdr(s.writer.m, 0) else WIdle)
  {
    RunInv(run, i);
    if run[i].writer.WSpace? {
      HeldBytes(run[i]);
    }
  }

  /** What the writer does next, once its message is known to fit. */
  ghost function NextWrite(s: State): State
    requires Inv(s) && !s.writer.WIdle?
  {
    var m, n := s.writer.m, |s.buf|;
    match s.writer
    case WHdr(_, i) =>
      if i < HDR then
        s.(buf := s.buf[Wrap(s.w + i, n) := EncodeHdr(HdrOf(m))[i]], writer := WHdr(m, i + 1))
      else
        s.(w := Wrap(s.w + HDR, n), writer := if m.data == [] then WIdle else WData(m, 0),
           sent := if m.data == [] then s.sent + [m] else s.sent)
    case WData(_, i) =>
      if i < |m.data| then
        s.(buf := s.buf[Wrap(s.w + i, n) := m.data[i]], writer := WData(m, i + 1))
      else
        s.(w := Wrap(s.w + i, n), writer := WIdle, sent := s.sent + [m])
    case WSpace(_) => s.(writer := WHdr(m, 0))
    case WIdle => s
  }

  /** A message at the writer's hands fits. */
  ghost predicate Fits(s: State)
    requires Inv(s)
  {
    s.writer.WSpace? ==> HDR + |s.writer.m.data| + |Frames(s.sent[|s.got|..])| < |s.buf|
  }

  function Stage(w: Writer): nat {
    match w
    case WSpace(_) => 2
    case WHdr(_, _) => 1
    case _ => 0
  }

  function Uncopied(w: Writer): nat {
    match w
    case WHdr(_, i) => if i < HDR then HDR - i else 0
    case WData(m, i) => if i < |m.data| then |m.data| - i else 0
    case _ => 0
  }

  lemma WriterWithin(s: State)
    requires Inv(s)
    ensures s.writer.WHdr? ==> s.writer.i <= HDR
    ensures s.writer.WData? ==> s.writer.i <= |s.writer.m.data|
  {
    assert WriterOk(s.writer, ViewOf(s).staged, ViewOf(s).free);
  }

  lemma NextWriteEnabled(s: State)
    requires Inv(s) && !s.writer.WIdle? && Fits(s)
    ensures WriterStep(s, NextWrite(s))
  {
    assert WriterOk(s.writer, ViewOf(s).staged, ViewOf(s).free);
    if s.writer.WSpace? {
      HeldBytes(s);
    }
    hide Circ, Frames, DecodeHdr;
  }

  lemma NextWriteSteps(s: State)
    requires Inv(s) && !s.writer.WIdle? && Fits(s)
    ensures WriterStep(s, NextWrite(s)) && Inv(NextWrite(s))
    ensures var s' := NextWrite(s);
            s'.got == s.got && s'.reader == s.reader && !s'.writer.WSpace? &&
            if s'.writer.WIdle? then s'.sent == s.sent + [s.writer.m]
            else s'.sent == s.sent && s'.writer.m == s.writer.m
                 && (Stage(s'.writer) < Stage(s.writer)
                     || (Stage(s'.writer) == Stage(s.writer) && Uncopied(s'.writer) < Uncopied(s.writer)))
  {
    hide Inv, WriterStep;
    NextWriteEnabled(s);
    WriterPreserves(s, NextWrite(s));
    WriterWithin(s);
  }

  /** A writer whose message fits can always write on, to the end: the message is sent, whatever the
      reader is in the midst of. */
  lemma {:induction false} WritesThrough(s: State) returns (run: seq<State>)
    requires Inv(s) && !s.writer.WIdle? && Fits(s)
    ensures WritesOn(run) && run[0] == s
    ensures var e := run[|run| - 1];
            e.writer.WIdle? && e.sent == s.sent + [s.writer.m] && e.got == s.got && e.reader == s.reader && Inv(e)
    decreases Stage(s.writer), Uncopied(s.writer)
  {
    hide Inv, WriterStep, InBounds, NextWrite, Stage, Uncopied;
    NextWriteSteps(s);
    Bounded(s);
    var s' := NextWrite(s);
    if s'.writer.WIdle? {
      run := [s, s'];
    } else {
      var rest := WritesThrough(s');
      run := [s] + rest;
    }
  }

  /** A message accepted is the message sent: the writer keeps it until it is complete, and nothing
      else is ever added to what has been sent. */
  lemma SentIsAccepted(s: State, s': State)
    requires Step(s, s')
    ensures s'.sent == s.sent || (!s.writer.WIdle? && s'.sent == s.sent + [s.writer.m])
    ensures !s.writer.WIdle? && !s'.writer.WIdle? ==> s'.writer.m == s.writer.m && s'.sent == s.sent
    ensures !s.writer.WIdle? && s'.writer.WIdle? ==> s'.sent == s.sent + [s.writer.m] || s.writer.WSpace?
  {
  }
}
