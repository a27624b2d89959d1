/** Whole histories of one ring buffer: any sequence of writes, reads, peeks and advances
    does what the same operations do to a plain queue of messages. */
module RingRuns {
  import opened Bytes
  import opened Ringbuffer
  import opened Wrappers

  datatype Op =
    | Write(tag: uint32, data: Option<seq<byte>>)
    | Read(bufsz: nat)
    | Peek(bufsz: nat)
    | Advance

  datatype Obs =
    | Wrote(ok: bool)
    | Seen(res: ReadResult, bytes: seq<byte>)
    | Advanced(ok: bool)

  function Look(held: seq<Msg>, bufsz: nat): Obs {
    if held == [] then Seen(NoMessage, [])
    else if |held[0].data| > bufsz then Seen(TooSmall(|held[0].data|), [])
    else Seen(Got(held[0].tag, |held[0].data|), held[0].data)
  }

  /** One operation on the plain queue. Space is counted in bytes, eight a message more. */
  function Apply(size: nat, held: seq<Msg>, op: Op): (r: (seq<Msg>, Obs))
    requires AllWellFormed(held)
    ensures AllWellFormed(r.0)
  {
    match op
    case Write(tag, data) =>
      if HDR + HdrLen(data) + |Frames(held)| < size then (held + [Sent(tag, data)], Wrote(true))
      else (held, Wrote(false))
    case Read(bufsz) =>
      var o := Look(held, bufsz);
      (if o.res.Got? then held[1..] else held, o)
    case Peek(bufsz) => (held, Look(held, bufsz))
    case Advance => if held == [] then (held, Advanced(false)) else (held[1..], Advanced(true))
  }

  function ApplyAll(size: nat, held: seq<Msg>, ops: seq<Op>): (r: (seq<Msg>, seq<Obs>))
    requires AllWellFormed(held)
    ensures AllWellFormed(r.0) && |r.1| == |ops|
    decreases |ops|
  {
    if ops == [] then (held, [])
    else
      var (held1, o) := Apply(size, held, ops[0]);
      var (held2, os) := ApplyAll(size, held1, ops[1..]);
      (held2, [o] + os)
  }

  // ---- what a history shows ------------------------------------------------------------

  /** What one operation puts in: the message that a write has accepted. */
  function AcceptedBy(op: Op, o: Obs): seq<Msg> {
    if op.Write? && o == Wrote(true) then [Sent(op.tag, op.data)] else []
  }

  /** What one operation takes out: a message that a read returned, or one that an advance
      dropped, of which nothing is to be seen. */
  function RemovedBy(op: Op, o: Obs): seq<Option<Msg>> {
    if op.Read? && o.Seen? && o.res.Got? then [Some(Msg(o.res.tag, o.bytes))]
    else if op.Advance? && o == Advanced(true) then [None]
    else []
  }

  /** Of a history: what is accepted are the data of writes that succeed, what is taken the messages of
      reads that return one and, unseen, those that advances drop; a peek takes nothing. */
  lemma Meanings(tag: uint32, data: seq<byte>, bufsz: nat, got: uint32, bytes: seq<byte>)
    requires |data| < 0x1_0000_0000
    ensures AcceptedBy(Write(tag, Some(data)), Wrote(true)) == [Msg(tag, data)]
    ensures AcceptedBy(Write(tag, None), Wrote(true)) == [Msg(tag, [])]
    ensures AcceptedBy(Write(tag, Some(data)), Wrote(false)) == []
    ensures RemovedBy(Read(bufsz), Seen(Got(got, |bytes|), bytes)) == [Some(Msg(got, bytes))]
    ensures RemovedBy(Advance, Advanced(true)) == [None]
    ensures RemovedBy(Peek(bufsz), Seen(Got(got, |bytes|), bytes)) == []
    ensures RemovedBy(Read(bufsz), Seen(NoMessage, [])) == [] && RemovedBy(Advance, Advanced(false)) == []
  {
    SentExactly(tag, data);
  }

  function Accepted(ops: seq<Op>, obs: seq<Obs>): seq<Msg>
    requires |ops| == |obs|
  {
    if ops == [] then [] else AcceptedBy(ops[0], obs[0]) + Accepted(ops[1..], obs[1..])
  }

  function Removed(ops: seq<Op>, obs: seq<Obs>): seq<Option<Msg>>
    requires |ops| == |obs|
  {
    if ops == [] then [] else RemovedBy(ops[0], obs[0]) + Removed(ops[1..], obs[1..])
  }

  /** What has left are the oldest messages in their order, and what is held are the others. */
  predicate Splits(all: seq<Msg>, removed: seq<Option<Msg>>, held: seq<Msg>) {
    && |removed| <= |all| && held == all[|removed|..]
    && forall k :: 0 <= k < |removed| && removed[k].Some? ==> removed[k].value == all[k]
  }

  lemma SplitsOne(size: nat, held: seq<Msg>, op: Op)
    requires AllWellFormed(held)
    ensures var (held1, o) := Apply(size, held, op);
            Splits(held + AcceptedBy(op, o), RemovedBy(op, o), held1)
  {
  }

  lemma SplitsOn(all: seq<Msg>, removed: seq<Option<Msg>>, held: seq<Msg>,
                 more: seq<Msg>, gone: seq<Option<Msg>>, held': seq<Msg>)
    requires Splits(all, removed, held) && Splits(held + more, gone, held')
    ensures Splits(all + more, removed + gone, held')
  {
    var n := |removed|;
    assert (all + more)[n..] == held + more;
    assert (all + more)[n..][|gone|..] == (all + more)[n + |gone|..];
    forall k | n <= k < n + |gone| && gone[k - n].Some? ensures gone[k - n].value == (all + more)[k] {
      assert (held + more)[k - n] == (all + more)[k];
    }
  }

  /** Nothing is lost, repeated, reordered or made up: what has left are the oldest of the
      messages accepted, and what is still held are all the others. */
  lemma {:induction false} Conservation(size: nat, held: seq<Msg>, ops: seq<Op>)
    requires AllWellFormed(held)
    ensures var (held', obs) := ApplyAll(size, held, ops);
            Splits(held + Accepted(ops, obs), Removed(ops, obs), held')
    decreases |ops|
  {
    hide Apply, ApplyAll, AllWellFormed, AcceptedBy, RemovedBy, Accepted, Removed;
    if ops == [] {
      NoOps(size, held);
      assert held + [] == held;
    } else {
      var one := Apply(size, held, ops[0]);
      var rest := ApplyAll(size, one.0, ops[1..]);
      SplitsOne(size, held, ops[0]);
      Conservation(size, one.0, ops[1..]);
      OneMore(size, held, ops);
      var a, more := AcceptedBy(ops[0], one.1), Accepted(ops[1..], rest.1);
      hide Splits;
      SplitsOn(held + a, RemovedBy(ops[0], one.1), one.0, more, Removed(ops[1..], rest.1), rest.0);
      assert held + a + more == held + (a + more);
    }
  }

  lemma OneMore(size: nat, held: seq<Msg>, ops: seq<Op>)
    requires AllWellFormed(held) && ops != []
    ensures var one := Apply(size, held, ops[0]); var rest := ApplyAll(size, one.0, ops[1..]);
            var obs := [one.1] + rest.1;
            && ApplyAll(size, held, ops) == (rest.0, obs)
            && Accepted(ops, obs) == AcceptedBy(ops[0], one.1) + Accepted(ops[1..], rest.1)
            && Removed(ops, obs) == RemovedBy(ops[0], one.1) + Removed(ops[1..], rest.1)
  {
    hide Apply, AcceptedBy, RemovedBy, AllWellFormed;
    var one := Apply(size, held, ops[0]);
    var rest := ApplyAll(size, one.0, ops[1..]);
    assert ([one.1] + rest.1)[1..] == rest.1;
  }

  lemma NoOps(size: nat, held: seq<Msg>)
    requires AllWellFormed(held)
    ensures ApplyAll(size, held, []) == (held, []) && Accepted([], []) == [] && Removed([], []) == []
  {
  }

  // ---- the real ring ---------------------------------------------------------------------

  /** One operation on the real ring. */
  method Do(rb: Ringbuffer, op: Op) returns (o: Obs)
    requires rb.Valid()
    modifies rb`msgs, rb.ring, rb.ring.buf
    ensures rb.Valid() && (rb.msgs, o) == Apply(rb.ring.size, old(rb.msgs), op)
  {
    match op
    case Write(tag, data) =>
      var ok := rb.CWrite(tag, data);
      o := Wrote(ok);
    case Read(bufsz) =>
      var dest := new byte[bufsz];
      var res := rb.CRead(dest, bufsz, true);
      o := Seen(res, if res.Got? then dest[..res.len] else []);
    case Peek(bufsz) =>
      var dest := new byte[bufsz];
      var res := rb.CRead(dest, bufsz, false);
      o := Seen(res, if res.Got? then dest[..res.len] else []);
    case Advance =>
      var ok := rb.CReadAdvance();
      o := Advanced(ok);
  }

  /** Any history on a new ring of any size shows what the plain queue shows; so the messages
      that left the ring are the oldest ones accepted, and the ring holds the others. */
  method History(size: nat, ops: seq<Op>) returns (rb: Ringbuffer, obs: seq<Obs>)
    requires size > 0
    ensures rb.Valid() && (rb.msgs, obs) == ApplyAll(size, [], ops)
    ensures Splits(Accepted(ops, obs), Removed(ops, obs), rb.msgs)
  {
    hide Apply, ApplyAll, Accepted, Removed, Splits;
    rb := new Ringbuffer(size);
    obs := [];
    ghost var all := ApplyAll(size, [], ops);
    assert ops[0..] == ops && all.1 == [] + all.1;
    for i := 0 to |ops|
      invariant fresh(rb) && fresh(rb.ring) && fresh(rb.ring.buf)
      invariant rb.Valid() && rb.ring.size == size
      invariant ApplyAll(size, [], ops).0 == ApplyAll(size, rb.msgs, ops[i..]).0
      invariant ApplyAll(size, [], ops).1 == obs + ApplyAll(size, rb.msgs, ops[i..]).1
    {
      Unfold(size, rb.msgs, ops, i, obs);
      var o := Do(rb, ops[i]);
      obs := obs + [o];
    }
    assert ops[|ops|..] == [] && obs + [] == obs;
    NoOps(size, rb.msgs);
    Conservation(size, [], ops);
    assert [] + Accepted(ops, obs) == Accepted(ops, obs);
  }

  lemma Unfold(size: nat, held: seq<Msg>, ops: seq<Op>, i: nat, obs: seq<Obs>)
    requires AllWellFormed(held) && i < |ops|
    ensures var (held1, o) := Apply(size, held, ops[i]);
            && ApplyAll(size, held, ops[i..]).0 == ApplyAll(size, held1, ops[i + 1..]).0
            && obs + ApplyAll(size, held, ops[i..]).1 == obs + [o] + ApplyAll(size, held1, ops[i + 1..]).1
  {
    assert ops[i..][1..] == ops[i + 1..];
  }

  /** On the real ring, too, a peek changes nothing, and a peek that sees a message followed by
      an advance does what a read does. */
  method PeekThenAdvance(rb: Ringbuffer, bufsz: nat) returns (o: Obs)
    requires rb.Valid()
    modifies rb`msgs, rb.ring, rb.ring.buf
    ensures rb.Valid() && (rb.msgs, o) == Apply(rb.ring.size, old(rb.msgs), Read(bufsz))
  {
    o := Do(rb, Peek(bufsz));
    assert rb.msgs == old(rb.msgs);
    if o.res.Got? {
      var o' := Do(rb, Advance);
      assert o' == Advanced(true);
    }
  }
}
