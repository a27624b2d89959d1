/** The event queue of src/evt.c with its wake-up pipe (src/syncpipe.c), operation by
    operation, and callback_flush of src/callback.c. EventProtocol has the interleavings. */
module EventQueue {
  import opened EventProtocol

  predicate Raises(v: Verdict) {
    v.Raised? || v.Unknown? || v.BadReply?
  }

  /** The first `k` of the batches of events that other threads insert, one batch after each
      event that is handled. */
  function Batches(batch: nat -> seq<Event>, k: nat): seq<Event> {
    if k == 0 then [] else Batches(batch, k - 1) + batch(k - 1)
  }

  /** What a flush of the events `q` handles: all of them, or those up to the first whose
      handling raises an error. */
  function Handled(verdict: Event -> Verdict, q: seq<Event>): seq<Event> {
    if q == [] then []
    else if Raises(verdict(q[0])) then [q[0]]
    else [q[0]] + Handled(verdict, q[1..])
  }

  lemma {:induction false} HandledPrefix(verdict: Event -> Verdict, q: seq<Event>)
    ensures Handled(verdict, q) <= q
    ensures Handled(verdict, q) == q <==> forall i :: 0 <= i < |q| - 1 ==> !Raises(verdict(q[i]))
    ensures forall i :: 0 <= i < |Handled(verdict, q)| - 1 ==> !Raises(verdict(q[i]))
    ensures Handled(verdict, q) != q ==> Raises(verdict(q[|Handled(verdict, q)| - 1]))
  {
    if q != [] {
      HandledPrefix(verdict, q[1..]);
      var h := Handled(verdict, q);
      if !Raises(verdict(q[0])) {
        assert q == [q[0]] + q[1..];
        assert h[1..] == Handled(verdict, q[1..]);
        if h == q {
          assert Handled(verdict, q[1..]) == q[1..];
          forall i | 0 <= i < |q| - 1 ensures !Raises(verdict(q[i])) {
            assert i > 0 ==> q[i] == q[1..][i - 1];
          }
        }
        forall i | 0 <= i < |h| - 1 ensures !Raises(verdict(q[i])) {
          assert i > 0 ==> q[i] == q[1..][i - 1];
        }
      } else {
        assert |q| > 1 ==> Raises(verdict(q[0]));
      }
    }
  }

  /** All callbacks close their clients or return. */
  ghost predicate Orderly(verdict: Event -> Verdict, q: seq<Event>) {
    forall i :: 0 <= i < |q| ==> verdict(q[i]).Closed? || verdict(q[i]).Returned?
  }

  /** An event whose callback closed its client or returned is followed by the next; one whose
      callback raised an error, whose type is unknown or whose reply is bad is the last. */
  lemma {:induction false} HandledUpTo(verdict: Event -> Verdict, q: seq<Event>, k: nat)
    requires k <= |q| && Orderly(verdict, q[..k])
    ensures k == |q| ==> Handled(verdict, q) == q
    ensures k < |q| && (verdict(q[k]).Raised? || verdict(q[k]).Unknown? || verdict(q[k]).BadReply?) ==>
              Handled(verdict, q) == q[..k + 1]
  {
    if k > 0 {
      assert q[..k][0] == q[0] && q[1..][..k - 1] == q[..k][1..];
      HandledUpTo(verdict, q[1..], k - 1);
      assert q == [q[0]] + q[1..];
      assert k < |q| ==> q[..k + 1] == [q[0]] + q[1..][..k];
    }
  }

  /** The verdict on event `k` is the first that ends a flush. */
  ghost predicate EndsAt(verdict: Event -> Verdict, q: seq<Event>, k: nat) {
    k < |q| && (verdict(q[k]).Raised? || verdict(q[k]).Unknown? || verdict(q[k]).BadReply?) && Orderly(verdict, q[..k])
  }

  /** What a flush of `q` comes to: where all callbacks close or return, all events are handled and
      freed, in order and without an error; otherwise those up to the first that does not, with an
      error, and that one is freed unless its reply was bad. */
  ghost predicate Outcome(verdict: Event -> Verdict, q: seq<Event>, handled: seq<Event>, freed: seq<Event>, raised: bool) {
    && (Orderly(verdict, q) ==> handled == freed == q && !raised)
    && forall k :: 0 <= k < |q| && EndsAt(verdict, q, k) ==>
         raised && handled == q[..k + 1] && freed == if verdict(q[k]).BadReply? then q[..k] else q[..k + 1]
  }

  /** Of what a flush handles, the last event alone can have ended it. */
  lemma FlushMeans(verdict: Event -> Verdict, q: seq<Event>, handled: seq<Event>, freed: seq<Event>, raised: bool)
    requires handled == Handled(verdict, q)
    requires raised <==> handled != [] && Raises(verdict(handled[|handled| - 1]))
    requires freed == if raised && verdict(handled[|handled| - 1]).BadReply? then handled[..|handled| - 1] else handled
    ensures Outcome(verdict, q, handled, freed, raised)
  {
    hide Handled;
    if Orderly(verdict, q) {
      assert q[..|q|] == q;
      HandledUpTo(verdict, q, |q|);
      assert handled != [] ==> !Raises(verdict(q[|q| - 1]));
    }
    forall k | 0 <= k < |q| && EndsAt(verdict, q, k)
      ensures raised && handled == q[..k + 1] && freed == if verdict(q[k]).BadReply? then q[..k] else q[..k + 1]
    {
      HandledUpTo(verdict, q, k);
      assert handled[k] == q[k] && q[..k + 1][..k] == q[..k];
    }
  }

  /** A flush of the first `n` events of `q` after `k` of them, none of which raised. */
  ghost predicate Midway(verdict: Event -> Verdict, batch: nat -> seq<Event>, q: seq<Event>, n: nat, k: nat,
                         handled: seq<Event>, head: seq<Event>)
  {
    && k <= n <= |q| && handled == q[..k] && head == q[k..] + Batches(batch, k)
    && Handled(verdict, q[..n]) == q[..k] + Handled(verdict, q[k..n])
    && (k > 0 ==> !Raises(verdict(q[k - 1])))
  }

  /** The same flush when it is over. */
  ghost predicate Over(verdict: Event -> Verdict, batch: nat -> seq<Event>, q: seq<Event>, n: nat,
                       handled: seq<Event>, head: seq<Event>)
  {
    && n <= |q| && handled == Handled(verdict, q[..n]) && |handled| <= |q|
    && head == q[|handled|..] + Batches(batch, |handled|)
  }

  lemma MidwayStart(verdict: Event -> Verdict, batch: nat -> seq<Event>, q: seq<Event>, n: nat)
    requires n <= |q|
    ensures Midway(verdict, batch, q, n, 0, [], q)
  {
    assert q[0..n] == q[..n] && q[0..] + [] == q;
  }

  lemma MidwayStep(verdict: Event -> Verdict, batch: nat -> seq<Event>, q: seq<Event>, n: nat, k: nat,
                   handled: seq<Event>, head: seq<Event>)
    requires Midway(verdict, batch, q, n, k, handled, head) && k < n
    ensures head != [] && head[0] == q[k]
    ensures var (handled', head') := (handled + [q[k]], head[1..] + batch(k));
            if Raises(verdict(q[k])) then Over(verdict, batch, q, n, handled', head')
            else Midway(verdict, batch, q, n, k + 1, handled', head')
  {
    assert q[k..n][0] == q[k] && q[k..n][1..] == q[k + 1..n];
    assert q[..k] + [q[k]] == q[..k + 1];
    assert head[1..] + batch(k) == q[k + 1..] + Batches(batch, k + 1);
  }

  lemma MidwayEnd(verdict: Event -> Verdict, batch: nat -> seq<Event>, q: seq<Event>, n: nat,
                  handled: seq<Event>, head: seq<Event>)
    requires Midway(verdict, batch, q, n, n, handled, head)
    ensures Over(verdict, batch, q, n, handled, head)
    ensures handled != [] ==> !Raises(verdict(handled[|handled| - 1]))
  {
  }

  class EvtQueue {
    const capacity: nat
    var head: seq<Event>
    var counter: nat
    var pipe: nat

    constructor (capacity: nat)
      ensures Valid() && head == [] && this.capacity == capacity
    {
      this.capacity := capacity;
      head, counter, pipe := [], 0, 0;
    }

    ghost predicate Valid()
      reads this
    {
      counter == |head| % WIDTH && pipe <= capacity && pipe <= |head|
    }

    /** syncpipe_write: a full pipe is left as it is. */
    method PipeWrite()
      modifies this`pipe
      ensures pipe == if old(pipe) < capacity then old(pipe) + 1 else old(pipe)
    {
      if pipe < capacity {
        pipe := pipe + 1;
      }
    }

    /** syncpipe_read: an empty pipe is left as it is. */
    method PipeRead()
      modifies this`pipe
      ensures pipe == if old(pipe) > 0 then old(pipe) - 1 else 0
    {
      if pipe > 0 {
        pipe := pipe - 1;
      }
    }

    /** evt_insert. */
    method Insert(evt: Event)
      requires Valid()
      modifies this
      ensures Valid() && head == old(head) + [evt] && counter == |head| % 0x1_0000_0000
      ensures pipe == if old(pipe) < capacity then old(pipe) + 1 else old(pipe)
      ensures old(pipe) == |old(head)| < capacity ==> pipe == |head|
    {
      AddMod(|head|, 1);
      head := head + [evt];
      counter := (counter + 1) % WIDTH;
      PipeWrite();
    }

    /** evt_remove, with null for no event. */
    method Remove() returns (found: bool, evt: Event)
      requires Valid()
      modifies this
      ensures Valid() && (found <==> old(head) != [])
      ensures found ==> evt == old(head)[0] && head == old(head)[1..] && counter == |head| % 0x1_0000_0000
      ensures found ==> pipe == if old(pipe) > 0 then old(pipe) - 1 else 0
      ensures !found ==> unchanged(this)
    {
      found, evt := false, 0;
      if head != [] {
        AddMod(|head|, WIDTH - 1);
        ModShift(|head| - 1, 1);
        found, evt := true, head[0];
        head := head[1..];
        PipeRead();
        counter := (counter + WIDTH - 1) % WIDTH;
      }
    }

    /** evt_free_all: every queued event is freed, in order, and both counts are back to zero. */
    method FreeAll() returns (freed: seq<Event>)
      requires Valid()
      modifies this
      ensures Valid() && head == [] && counter == 0 && pipe == 0 && freed == old(head)
    {
      freed := [];
      var found, evt := Remove();
      while found
        invariant Valid() && (!found ==> head == [])
        invariant freed + (if found then [evt] else []) + head == old(head)
        decreases |head|, found
      {
        freed := freed + [evt];
        found, evt := Remove();
      }
    }

    /** What other threads insert while an event is handled. */
    method InsertAll(batch: seq<Event>)
      requires Valid()
      modifies this
      ensures Valid() && head == old(head) + batch
    {
      for i := 0 to |batch|
        invariant Valid() && head == old(head) + batch[..i]
      {
        Insert(batch[i]);
      }
      assert batch[..|batch|] == batch;
    }

    /** A removal, and what other threads insert before the event is disposed of. */
    method Round(batch: seq<Event>) returns (evt: Event)
      requires Valid() && head != []
      modifies this
      ensures Valid() && evt == old(head)[0] && head == old(head)[1..] + batch
    {
      var found;
      found, evt := Remove();
      InsertAll(batch);
    }

    /** The loop of callback_flush. */
    method FlushLoop(verdict: Event -> Verdict, batch: nat -> seq<Event>)
      returns (handled: seq<Event>, freed: seq<Event>, raised: bool)
      requires Valid()
      modifies this
      ensures Valid()
      ensures old(counter) <= |old(head)| && handled == Handled(verdict, old(head)[..old(counter)])
      ensures |handled| <= |old(head)|
      ensures head == old(head)[|handled|..] + Batches(batch, |handled|)
      ensures raised <==> handled != [] && Raises(verdict(handled[|handled| - 1]))
      ensures freed == if raised && verdict(handled[|handled| - 1]).BadReply? then handled[..|handled| - 1] else handled
    {
      ghost var q, n0, k := head, counter, 0;
      MidwayStart(verdict, batch, q, n0);
      hide Midway, Handled, Batches;
      var n := counter;
      handled, freed, raised := [], [], false;
      while n > 0
        invariant Valid() && k + n == n0 && handled == freed && |handled| == k && !raised
        invariant Midway(verdict, batch, q, n0, k, handled, head)
        decreases n
      {
        MidwayStep(verdict, batch, q, n0, k, handled, head);
        var evt := Round(batch(|handled|));
        handled := handled + [evt];
        n, k := n - 1, k + 1;
        var v := verdict(evt);
        if v.BadReply? {
          raised := true;
          return;
        }
        freed := freed + [evt];
        if Raises(v) {
          raised := true;
          return;
        }
      }
      MidwayEnd(verdict, batch, q, n0, handled, head);
    }

    /** callback_flush: the events counted at the start are handled in their order, and no
        other, up to the first error; what is inserted meanwhile stays queued behind the rest.
        An event is freed unless its handler raised before freeing it. */
    method Flush(verdict: Event -> Verdict, batch: nat -> seq<Event>)
      returns (handled: seq<Event>, freed: seq<Event>, raised: bool)
      requires Valid()
      modifies this
      ensures Valid()
      ensures old(counter) <= |old(head)| && handled == Handled(verdict, old(head)[..old(counter)])
      ensures Outcome(verdict, old(head)[..old(counter)], handled, freed, raised)
      ensures |handled| <= |old(head)|
      ensures head == old(head)[|handled|..] + Batches(batch, |handled|)
      ensures raised <==> handled != [] && Raises(verdict(handled[|handled| - 1]))
      ensures freed == if raised && verdict(handled[|handled| - 1]).BadReply? then handled[..|handled| - 1] else handled
    {
      hide Handled, Raises, Outcome;
      handled, freed, raised := FlushLoop(verdict, batch);
      FlushMeans(verdict, old(head)[..old(counter)], handled, freed, raised);
    }
  }
}
