/** The cursor over an audio port's buffer (src/buffer.c). */
module Buffer {
  import opened Entries
  import opened Sequences
  import opened Wrappers

  /** A Lua argument, as far as AudioWrite looks at it. */
  datatype Arg = Num(x: real) | Other

  const WIDTH: int := 0x1_0000_0000

  /** How many of the arguments are numbers, up to the first that is not. */
  function Leading(args: seq<Arg>): (n: nat)
    ensures n <= |args|
    ensures forall i :: 0 <= i < n ==> args[i].Num?
    ensures n < |args| ==> args[n].Other?
  {
    if args == [] || args[0].Other? then 0 else 1 + Leading(args[1..])
  }

  function Least(a: nat, b: nat): (m: nat)
    ensures m <= a && m <= b && (m == a || m == b)
  {
    if a < b then a else b
  }

  function Numbers(args: seq<Arg>): (xs: seq<real>)
    requires forall i :: 0 <= i < |args| ==> args[i].Num?
    ensures |xs| == |args|
  {
    seq(|args|, i requires 0 <= i < |args| && args[i].Num? => args[i].x)
  }

  lemma {:induction false} LeadingPast(args: seq<Arg>, n: nat)
    requires n < |args| && n <= Leading(args)
    ensures args[n].Num? <==> n + 1 <= Leading(args)
  {
    if n > 0 {
      LeadingPast(args[1..], n - 1);
    }
  }

  lemma WrittenAt(args: seq<Arg>, n: nat)
    requires n <= Leading(args)
    ensures forall k :: 0 <= k < n ==> args[k].Num? && Numbers(args[..n])[k] == args[k].x
  {
  }

  lemma NumbersSnoc(args: seq<Arg>, n: nat)
    requires n < Leading(args)
    ensures Numbers(args[..n + 1]) == Numbers(args[..n]) + [args[n].x]
  {
  }

  lemma SliceSnoc(s: seq<real>, i: nat, j: nat)
    requires i <= j < |s|
    ensures s[i..j + 1] == s[i..j] + [s[j]]
  {
  }

  lemma OverwrittenAt(s: seq<real>, at: nat, xs: seq<real>)
    requires at + |xs| <= |s|
    ensures forall k :: 0 <= k < |s| ==> Overwritten(s, at, xs)[k] == if at <= k < at + |xs| then xs[k - at] else s[k]
  {
  }

  lemma OverwrittenSnoc(s: seq<real>, at: nat, xs: seq<real>, x: real)
    requires at + |xs| < |s|
    ensures Overwritten(s, at, xs)[at + |xs| := x] == Overwritten(s, at, xs + [x])
  {
  }

  class Port {
    const output: bool
    var buf: array?<real>
    var nframes: nat
    var bufp: nat

    constructor (output: bool)
      ensures this.output == output && buf == null && nframes == 0 && bufp == 0
    {
      this.output := output;
      buf, nframes, bufp := null, 0, 0;
    }

    /** The cursor never leaves the buffer. */
    ghost predicate Valid()
      reads this
    {
      bufp <= nframes && if buf == null then bufp == 0 else nframes <= buf.Length
    }

    /** The samples of the current period, and those before the cursor. */
    ghost function Samples(): (s: seq<real>)
      requires Valid() && buf != null
      reads this, buf
    {
      buf[..nframes]
    }

    function Avail(): (n: nat)
      reads this
      ensures Valid() ==> bufp + n == nframes
    {
      if nframes >= bufp then nframes - bufp else 0
    }

    /** GetBuffer, for an audio port: `b` is what JACK hands out for this period. */
    method GetBuffer(b: array?<real>, n: nat) returns (r: Result<nat>)
      requires Valid() && (b != null ==> n <= b.Length)
      modifies this
      ensures Valid()
      ensures old(buf) != null ==> r.Error? && unchanged(this)
      ensures old(buf) == null && b != null ==> r == Ok(n) && buf == b && nframes == n && bufp == 0
      ensures old(buf) == null && b == null ==> r.Error? && buf == null
    {
      if buf != null {
        return Error("buffer already retrieved");
      }
      nframes := n;
      buf := b;
      if buf == null {
        return Error("cannot get port buffer");
      }
      bufp := 0;
      return Ok(n);
    }

    /** What buffer_drop_all does to one port. */
    method Drop()
      modifies this
      ensures Valid() && buf == null && nframes == 0 && bufp == 0
    {
      buf, nframes, bufp := null, 0, 0;
    }

    /** AudioWrite: of the leading numbers, as many as there is room for are stored from the
        cursor on, which moves past them; the rest is dropped. */
    method Write(args: seq<Arg>) returns (r: Result<nat>)
      requires Valid()
      modifies this`bufp, buf
      ensures Valid() && (r.Error? <==> buf == null || !output)
      ensures r.Error? ==> bufp == old(bufp)
      ensures r.Ok? ==> r.value == Least(Leading(args), old(Avail())) && bufp == old(bufp) + r.value
      ensures r.Ok? ==> buf[..] == Overwritten(old(buf[..]), old(bufp), Numbers(args[..r.value]))
      ensures r.Ok? ==> r.value <= |args| && bufp <= nframes && forall k :: 0 <= k < r.value ==> args[k].Num?
      ensures r.Ok? ==> bufp == nframes || r.value == |args| || args[r.value].Other?
      ensures r.Ok? ==> forall k :: 0 <= k < buf.Length ==>
                buf[k] == if old(bufp) <= k < bufp then args[k - old(bufp)].x else old(buf[k])
    {
      if buf == null {
        return Error("missing get_buffer() call?");
      }
      if !output {
        return Error("operation allowed only on output ports");
      }
      var n := Store(buf, bufp, Avail(), args);
      OverwrittenAt(old(buf[..]), bufp, Numbers(args[..n]));
      WrittenAt(args, n);
      hide Overwritten, Numbers, Leading;
      bufp := bufp + n;
      assert forall k :: 0 <= k < buf.Length ==> buf[k] == buf[..][k];
      return Ok(n);
    }

    /** The loop of AudioWrite. */
    static method Store(a: array<real>, at: nat, space: nat, args: seq<Arg>) returns (n: nat)
      requires at + space <= a.Length
      modifies a
      ensures n == Least(Leading(args), space)
      ensures a[..] == Overwritten(old(a[..]), at, Numbers(args[..n]))
    {
      assert Numbers(args[..0]) == [];
      hide Numbers, Leading;
      n := 0;
      while n < |args| && args[n].Num? && n < space
        invariant n <= space && n <= Leading(args)
        invariant a[..] == Overwritten(old(a[..]), at, Numbers(args[..n]))
      {
        LeadingPast(args, n);
        NumbersSnoc(args, n);
        OverwrittenSnoc(old(a[..]), at, Numbers(args[..n]), args[n].x);
        a[at + n] := args[n].x;
        n := n + 1;
      }
      if n < |args| && args[n].Other? {
        LeadingPast(args, n);
      }
    }

    /** AudioClear, with a count that wraps to 32 bits; without one, up to the end. */
    method Clear(hasCount: bool, arg: int) returns (r: Result<nat>)
      requires Valid()
      modifies this`bufp, buf
      ensures Valid() && (r.Error? <==> buf == null || !output)
      ensures r.Error? ==> bufp == old(bufp)
      ensures r.Ok? ==> r.value == (if hasCount then Least(arg % 0x1_0000_0000, old(Avail())) else old(Avail()))
      ensures r.Ok? ==> bufp == old(bufp) + r.value
      ensures r.Ok? ==> buf[..] == Overwritten(old(buf[..]), old(bufp), seq(r.value, _ => 0.0))
      ensures r.Ok? ==> forall k :: 0 <= k < buf.Length ==> buf[k] == if old(bufp) <= k < bufp then 0.0 else old(buf[k])
    {
      if buf == null {
        return Error("missing get_buffer() call?");
      }
      if !output {
        return Error("operation allowed only on output ports");
      }
      var space := Avail();
      var n := if hasCount then arg % WIDTH else space;
      n := if n < space then n else space;
      forall i | bufp <= i < bufp + n {
        buf[i] := 0.0;
      }
      bufp := bufp + n;
      return Ok(n);
    }

    /** AudioRead: nothing at the end of the buffer, else as many samples as are asked for and
        left, in order from the cursor. */
    method Read(arg: int) returns (r: Result<seq<real>>, nil: bool)
      requires Valid()
      modifies this`bufp
      ensures Valid() && (r.Error? <==> buf == null || output)
      ensures r.Error? ==> bufp == old(bufp)
      ensures r.Ok? ==> nil == (old(Avail()) == 0)
      ensures r.Ok? ==> bufp == old(bufp) + Least(arg % 0x1_0000_0000, old(Avail())) && r.value == Samples()[old(bufp)..bufp]
    {
      nil := false;
      if buf == null {
        return Error("missing get_buffer() call?"), nil;
      }
      if output {
        return Error("operation allowed only on input ports"), nil;
      }
      var avail, count := Avail(), arg % WIDTH;
      if avail == 0 {
        return Ok([]), true;
      }
      count := if count <= avail then count else avail;
      var values, n := [], 0;
      ghost var s := Samples();
      while n < count
        invariant 0 <= n <= count <= avail && bufp == old(bufp) && values == s[bufp..bufp + n]
      {
        SliceSnoc(s, bufp, bufp + n);
        assert s[bufp + n] == buf[bufp + n];
        values := values + [buf[bufp + n]];
        n := n + 1;
      }
      bufp := bufp + n;
      return Ok(values), false;
    }

    /** AudioSeek: a position beyond the end, which a negative one is, is refused. */
    method Seek(hasPos: bool, pos: int) returns (r: Result<(nat, nat)>)
      requires Valid()
      modifies this`bufp
      ensures Valid()
      ensures r.Error? <==> buf == null || (hasPos && !(0 <= pos <= nframes))
      ensures bufp == if r.Ok? && hasPos then pos else old(bufp)
      ensures r.Ok? ==> r.value == (bufp, nframes - bufp)
    {
      if buf == null {
        return Error("missing get_buffer() call?");
      }
      if hasPos {
        if pos < 0 || pos > nframes {
          return Error("position is out of range");
        }
        bufp := pos;
      }
      return Ok((bufp, Avail()));
    }
  }

  /** buffer_drop_all: every port in the client's queue loses its buffer, so that the next
      period has to retrieve it again. `ports` gives the part of a queued record that this
      module is about. */
  method DropAll(fifo: Fifo, ports: map<Entry, Port>)
    requires fifo.Valid() && forall e :: e in fifo.q ==> e in ports
    modifies set e | e in fifo.q :: ports[e]
    ensures forall e :: e in fifo.q ==> var p := ports[e]; p.buf == null && p.nframes == 0 && p.bufp == 0 && p.Valid()
  {
    var pud := fifo.first;
    ghost var i := 0;
    while pud != null
      invariant i <= |fifo.q| && pud == At(fifo.q, i)
      invariant forall k :: 0 <= k < i ==> var p := ports[fifo.q[k]]; p.buf == null && p.nframes == 0 && p.bufp == 0
      decreases |fifo.q| - i
    {
      ports[pud].Drop();
      pud := pud.next;
      i := i + 1;
    }
  }
}
