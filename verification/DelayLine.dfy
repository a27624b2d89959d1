/** The echo examples' delay lines: the two-pointer line of the C modules and the one-pointer
    line of the Lua script, against one function of the whole input. */
module DelayLine {

  /** The tape a delay line reads from: what the line holds, with the input written over it
      from position `d` on, and silence after both. */
  function Tape(line: seq<real>, d: nat, xs: seq<real>, p: nat): real {
    if d <= p < d + |xs| then xs[p - d]
    else if p < |line| then line[p]
    else 0.0
  }

  /** The delayed samples: one position of the tape for each input sample. */
  function Outs(line: seq<real>, d: nat, xs: seq<real>): (ys: seq<real>)
    ensures |ys| == |xs|
  {
    seq(|xs|, k requires k >= 0 => Tape(line, d, xs, k))
  }

  /** What the line then holds. */
  function After(line: seq<real>, d: nat, xs: seq<real>): seq<real> {
    seq(|line|, k requires k >= 0 => Tape(line, d, xs, |xs| + k))
  }

  /** An output sample of the echo. */
  function Echoed(gain: real, x: real, y: real): real {
    x + gain * y
  }

  /** The echo: each sample with its delayed companion. */
  function Mix(gain: real, xs: seq<real>, ys: seq<real>): (out: seq<real>)
    requires |xs| == |ys|
    ensures |out| == |xs|
  {
    seq(|xs|, k requires 0 <= k < |xs| => Echoed(gain, xs[k], ys[k]))
  }

  function Silence(n: nat): seq<real> {
    seq(n, _ => 0.0)
  }

  // ---- what the tape says -------------------------------------------------------------

  /** Whatever the line held, from the `d`th on its outputs are the inputs `d` samples ago. */
  lemma Delayed(line: seq<real>, d: nat, xs: seq<real>, k: nat)
    requires 0 < d <= |line| && k < |xs|
    ensures Outs(line, d, xs)[k] == if k < d then line[k] else xs[k - d]
  {
    assert Outs(line, d, xs)[k] == Tape(line, d, xs, k);
  }

  /** Cutting the input in two changes nothing. */
  lemma Cut(line: seq<real>, d: nat, xs: seq<real>, ys: seq<real>)
    requires 0 < d <= |line|
    ensures Outs(line, d, xs + ys) == Outs(line, d, xs) + Outs(After(line, d, xs), d, ys)
    ensures After(line, d, xs + ys) == After(After(line, d, xs), d, ys)
  {
    var l1 := After(line, d, xs);
    forall p | 0 <= p < |ys| + |line| ensures Tape(line, d, xs + ys, |xs| + p) == Tape(l1, d, ys, p) {
      if d <= p < d + |ys| {
        assert (xs + ys)[|xs| + p - d] == ys[p - d];
      } else if p < |line| {
        assert l1[p] == Tape(line, d, xs, |xs| + p);
        assert p < d ==> |xs| + p < d || (xs + ys)[|xs| + p - d] == xs[|xs| + p - d];
      }
    }
    forall k | 0 <= k < |xs| ensures Tape(line, d, xs + ys, k) == Tape(line, d, xs, k) {
    }
  }

  lemma AfterNone(line: seq<real>, d: nat)
    ensures After(line, d, []) == line && Outs(line, d, []) == []
  {
    forall k | 0 <= k < |line| ensures After(line, d, [])[k] == line[k] {
      assert After(line, d, [])[k] == Tape(line, d, [], k);
    }
  }

  lemma MixNone(gain: real)
    ensures Mix(gain, [], []) == []
  {
  }

  lemma MixSnoc(gain: real, xs: seq<real>, ys: seq<real>, x: real, y: real)
    requires |xs| == |ys|
    ensures Mix(gain, xs + [x], ys + [y]) == Mix(gain, xs, ys) + [Echoed(gain, x, y)]
  {
    forall k | 0 <= k <= |xs|
      ensures Mix(gain, xs + [x], ys + [y])[k] == (Mix(gain, xs, ys) + [Echoed(gain, x, y)])[k]
    {
    }
  }

  /** Each output sample is the input sample and `gain` times what the line held for it, or the input
      `d` samples ago. */
  ghost predicate IsEcho(out: seq<real>, gain: real, line: seq<real>, d: nat, xs: seq<real>)
    requires 0 < d <= |line|
  {
    && |out| == |xs|
    && forall k :: 0 <= k < |xs| ==> out[k] == xs[k] + gain * (if k < d then line[k] else xs[k - d])
  }

  lemma MixIsEcho(gain: real, line: seq<real>, d: nat, xs: seq<real>)
    requires 0 < d <= |line|
    ensures IsEcho(Mix(gain, xs, Outs(line, d, xs)), gain, line, d, xs)
  {
    var ys := Outs(line, d, xs);
    forall k | 0 <= k < |xs|
      ensures Mix(gain, xs, ys)[k] == xs[k] + gain * (if k < d then line[k] else xs[k - d])
    {
      Delayed(line, d, xs, k);
    }
  }

  /** What the line holds afterwards, for the next samples: what it held further on, or the last
      inputs, the rest being silence. */
  lemma Remains(line: seq<real>, d: nat, xs: seq<real>, k: nat)
    requires 0 < d <= |line| && k < |line|
    ensures var p := |xs| + k;
            After(line, d, xs)[k] == if d <= p < d + |xs| then xs[p - d] else if p < |line| then line[p] else 0.0
  {
    assert After(line, d, xs)[k] == Tape(line, d, xs, |xs| + k);
  }

  /** The echo of a stream cut in two, from what has been put out on. */
  lemma MixCut(gain: real, line: seq<real>, d: nat, xs: seq<real>, ys: seq<real>, done: seq<real>)
    requires 0 < d <= |line|
    ensures done + Mix(gain, xs + ys, Outs(line, d, xs + ys))
         == done + Mix(gain, xs, Outs(line, d, xs)) + Mix(gain, ys, Outs(After(line, d, xs), d, ys))
  {
    Cut(line, d, xs, ys);
    var a, b := Outs(line, d, xs), Outs(After(line, d, xs), d, ys);
    hide Outs, After, Echoed;
    var p, q := Mix(gain, xs, a), Mix(gain, ys, b);
    assert Mix(gain, xs + ys, a + b) == p + q;
    hide Mix;
    assert done + (p + q) == done + p + q;
  }

  function Concat(blocks: seq<seq<real>>): seq<real> {
    if blocks == [] then [] else blocks[0] + Concat(blocks[1..])
  }

  /** The delayed samples of a stream that comes in blocks, each starting from what the one
      before has left. */
  function BlockOuts(line: seq<real>, d: nat, blocks: seq<seq<real>>): seq<real>
    decreases |blocks|
  {
    if blocks == [] then [] else
      Outs(line, d, blocks[0]) + BlockOuts(After(line, d, blocks[0]), d, blocks[1..])
  }

  /** However a stream is cut into blocks, its delayed samples are those of the whole. */
  lemma {:induction false} BlocksIrrelevant(line: seq<real>, d: nat, blocks: seq<seq<real>>)
    requires 0 < d <= |line|
    ensures BlockOuts(line, d, blocks) == Outs(line, d, Concat(blocks))
    decreases |blocks|
  {
    if blocks != [] {
      BlocksIrrelevant(After(line, d, blocks[0]), d, blocks[1..]);
      Cut(line, d, blocks[0], Concat(blocks[1..]));
    }
  }

  /** The line holds silence but for its first `d` samples. */
  predicate Clear(line: seq<real>, d: nat) {
    forall k :: d <= k < |line| ==> line[k] == 0.0
  }

  /** A line that is clear beyond its delay stays so, and any line is clear once it has taken as
      many samples as it can hold beyond its delay. */
  lemma ClearKept(line: seq<real>, d: nat, xs: seq<real>)
    requires 0 < d <= |line|
    requires Clear(line, d) || |xs| + d >= |line|
    ensures Clear(After(line, d, xs), d)
  {
    var l' := After(line, d, xs);
    forall k | d <= k < |l'| ensures l'[k] == 0.0 {
      assert l'[k] == Tape(line, d, xs, |xs| + k);
    }
  }

  /** Moving from a delay to a longer one: the stream goes on with the samples it still owes,
      then exactly as much silence as the delay has grown, then the new input. */
  lemma Lengthened(line: seq<real>, d: nat, d': nat, xs: seq<real>, ys: seq<real>)
    requires 0 < d <= d' <= |line| && Clear(line, d) && |xs| >= d && |ys| >= d'
    ensures Outs(After(line, d, xs), d', ys) == xs[|xs| - d..] + Silence(d' - d) + ys[..|ys| - d']
  {
    var l1 := After(line, d, xs);
    var out := Outs(l1, d', ys);
    ClearKept(line, d, xs);
    forall k | 0 <= k < |ys|
      ensures out[k] == (xs[|xs| - d..] + Silence(d' - d) + ys[..|ys| - d'])[k]
    {
      assert out[k] == Tape(l1, d', ys, k);
      assert k < |line| ==> l1[k] == Tape(line, d, xs, |xs| + k);
    }
  }

  /** From a silent line the long two-pointer line and a line just as long as the delay give
      the same samples. */
  lemma LengthIrrelevant(n: nat, d: nat, xs: seq<real>)
    requires 0 < d <= n
    ensures Outs(Silence(n), d, xs) == Outs(Silence(d), d, xs)
  {
  }

  // ---- the line in C ---------------------------------------------------------------------

  const MAX_DELAY := 10

  /** `i` places on from `p` in a ring of `n`. */
  function Wrap(p: nat, i: nat, n: nat): (r: nat)
    requires p < n && i <= n
    ensures r < n && r == (p + i) % n
  {
    WrapMod(p + i, n);
    if p + i < n then p + i else p + i - n
  }

  lemma WrapMod(x: nat, n: nat)
    requires 0 < n && x < 2 * n
    ensures x % n == if x < n then x else x - n
  {
    if x >= n {
      assert (x - n + n) % n == (x - n) % n by {
        assert x == n * 1 + (x - n);
      }
    }
  }

  /** A ring's contents from position `p` on. */
  function Rotated(ring: seq<real>, p: nat): seq<real>
    requires p <= |ring|
  {
    ring[p..] + ring[..p]
  }

  lemma RotatedAt(ring: seq<real>, p: nat, i: nat)
    requires p < |ring| && i < |ring|
    ensures Rotated(ring, p)[i] == ring[Wrap(p, i, |ring|)]
  {
  }

  /** Reading and silencing one place, writing another `m` places on and stepping over the first
      is one sample through a line that delays by `m`, or by its whole length where `m` is zero. */
  lemma TickLine(ring: seq<real>, p: nat, m: nat, x: real)
    requires p < |ring| && m < |ring|
    ensures var ring' := ring[p := 0.0][Wrap(p, m, |ring|) := x]; var d := if m == 0 then |ring| else m;
            && Rotated(ring', Wrap(p, 1, |ring|)) == After(Rotated(ring, p), d, [x])
            && Outs(Rotated(ring, p), d, [x]) == [ring[p]]
  {
    var n := |ring|;
    var d := if m == 0 then n else m;
    var ring' := ring[p := 0.0][Wrap(p, m, n) := x];
    forall k | 0 <= k < n
      ensures Rotated(ring', Wrap(p, 1, n))[k] == After(Rotated(ring, p), d, [x])[k]
    {
      TickAt(ring, p, m, x, k);
    }
    RotatedAt(ring, p, 0);
  }

  lemma TickAt(ring: seq<real>, p: nat, m: nat, x: real, k: nat)
    requires p < |ring| && m < |ring| && k < |ring|
    ensures var ring' := ring[p := 0.0][Wrap(p, m, |ring|) := x]; var d := if m == 0 then |ring| else m;
            Rotated(ring', Wrap(p, 1, |ring|))[k] == After(Rotated(ring, p), d, [x])[k]
  {
    var n := |ring|;
    var d := if m == 0 then n else m;
    var ring' := ring[p := 0.0][Wrap(p, m, n) := x];
    RotatedAt(ring', Wrap(p, 1, n), k);
    assert Wrap(Wrap(p, 1, n), k, n) == Wrap(p, k + 1, n);
    assert After(Rotated(ring, p), d, [x])[k] == Tape(Rotated(ring, p), d, [x], 1 + k);
    if k + 1 < n {
      RotatedAt(ring, p, k + 1);
      assert Wrap(p, k + 1, n) == Wrap(p, m, n) <==> k + 1 == m;
      assert Wrap(p, k + 1, n) != p;
    } else {
      assert Wrap(p, n, n) == p;
      assert Wrap(p, m, n) == p <==> m == 0;
    }
  }

  lemma WrapNext(p: nat, m: nat, n: nat)
    requires p < n && m < n
    ensures (Wrap(p, m, n) + 1) % n == Wrap((p + 1) % n, m, n)
  {
    WrapMod(p + 1, n);
    WrapMod(Wrap(p, m, n) + 1, n);
  }

  /** The delay asked for, in seconds and at most ten. */
  function Cap(delay: real): real {
    if delay > MAX_DELAY as real then MAX_DELAY as real else delay
  }

  /** A delay in whole samples. */
  function Whole(delay: real, fs: nat): int {
    (delay * fs as real).Floor
  }

  function Samples(delay: real, fs: nat): int {
    Whole(Cap(delay), fs)
  }

  /** The `m` whole samples of a delay. */
  ghost predicate IsWhole(m: int, delay: real, fs: nat) {
    m as real <= delay * fs as real < m as real + 1.0
  }

  lemma WholeIs(delay: real, fs: nat)
    ensures IsWhole(Whole(delay, fs), delay, fs)
  {
    FloorNear(delay * fs as real);
  }

  lemma FloorNear(x: real)
    ensures x.Floor as real <= x < x.Floor as real + 1.0
  {
  }

  lemma SamplesFit(delay: real, fs: nat)
    requires delay > 0.0
    ensures 0 <= Samples(delay, fs) <= MAX_DELAY * fs
    ensures Samples(delay, fs) >= 1 <==> Cap(delay) * fs as real >= 1.0
  {
    var x := Cap(delay) * fs as real;
    Scaled(Cap(delay), MAX_DELAY as real, fs as real);
    assert MAX_DELAY as real * fs as real == (MAX_DELAY * fs) as real;
    FloorOf(x, MAX_DELAY * fs);
    assert Samples(delay, fs) == x.Floor;
  }

  lemma Scaled(c: real, b: real, f: real)
    requires 0.0 <= c <= b && f >= 0.0
    ensures 0.0 <= c * f <= b * f
  {
  }

  lemma FloorOf(x: real, n: int)
    requires 0.0 <= x <= n as real
    ensures 0 <= x.Floor <= n && (x.Floor >= 1 <==> x >= 1.0)
  {
  }

  /** The module's static variables. */
  class CLine {
    const fs: nat
    const mmax: nat
    const dline: array<real>
    var ptr1: nat
    var ptr2: nat
    var m: nat
    var gain: real
    var delay: real

    /** InitDelayLine; the pointers and the parameters start at zero. */
    constructor (fs: nat)
      ensures Valid() && this.fs == fs && fresh(dline)
      ensures gain == 0.0 && Line() == Silence(mmax)
    {
      this.fs := fs;
      mmax := MAX_DELAY * fs + 1;
      dline := new real[MAX_DELAY * fs + 1](_ => 0.0);
      ptr1, ptr2, m := 0, 0, 0;
      gain, delay := 0.0, 0.0;
    }

    ghost predicate Valid()
      reads this`ptr1, this`ptr2, this`m
    {
      && mmax == MAX_DELAY * fs + 1 == dline.Length
      && ptr1 < mmax && ptr2 < mmax && m < mmax && ptr2 == Wrap(ptr1, m, mmax)
    }

    /** What the line holds, from the read pointer on. */
    ghost function Line(): (s: seq<real>)
      requires Valid()
      reads this`ptr1, this`ptr2, this`m, dline
      ensures |s| == mmax
    {
      Rotated(dline[..], ptr1)
    }

    /** By how much the samples are delayed: a line tuned to no delay at all stores the sample
        where it has just read, and gives it back only after a whole turn. */
    ghost function Delay(): nat
      reads this`m
    {
      if m == 0 then mmax else m
    }

    /** DelayLine. */
    method Tick(x: real) returns (y: real)
      requires Valid()
      modifies this`ptr1, this`ptr2, dline
      ensures Valid() && m == old(m)
      ensures Outs(old(Line()), Delay(), [x]) == [y] && Line() == After(old(Line()), Delay(), [x])
    {
      hide Rotated, Outs, After;
      TickLine(dline[..], ptr1, m, x);
      WrapNext(ptr1, m, mmax);
      WrapMod(ptr1 + 1, mmax);
      y := dline[ptr1];
      dline[ptr1] := 0.0;
      dline[ptr2] := x;
      ptr1 := (ptr1 + 1) % mmax;
      ptr2 := (ptr2 + 1) % mmax;
    }

    /** Off. */
    method Off()
      requires Valid()
      modifies this`gain, this`delay
      ensures Valid() && gain == 0.0 && delay == 0.0
    {
      gain, delay := 0.0, 0.0;
    }

    /** On: what the line holds is left as it is. The samples come out delayed by the delay asked
        for, cut to ten seconds and to whole samples, if and only if that is a sample or more. */
    method On(gain0: real, delay0: real)
      requires Valid()
      modifies this
      ensures Valid() && Line() == old(Line())
      ensures gain == (if gain0 <= 0.0 || delay0 <= 0.0 then 0.0 else if gain0 > 1.0 then 1.0 else gain0)
      ensures if gain == 0.0 then m == old(m) && delay == 0.0 else delay == (if delay0 > 10.0 then 10.0 else delay0)
      ensures gain != 0.0 ==> IsWhole(m, delay, fs)
      ensures gain != 0.0 ==> (Delay() == Samples(delay0, fs) <==> Cap(delay0) * fs as real >= 1.0)
      ensures gain != 0.0 && Samples(delay0, fs) == 0 ==> Delay() == mmax
    {
      hide Whole, IsWhole, Line;
      if gain0 <= 0.0 || delay0 <= 0.0 {
        Off();
        return;
      }
      SamplesFit(delay0, fs);
      WholeIs(Cap(delay0), fs);
      gain := if gain0 > 1.0 then 1.0 else gain0;
      delay := Cap(delay0);
      Tune(Whole(delay, fs));
    }

    method Tune(n: nat)
      requires Valid() && n < mmax
      modifies this`m, this`ptr2
      ensures Valid() && m == n && Line() == old(Line())
    {
      m := n;
      ptr2 := (ptr1 + m) % mmax;
    }

    /** Process, after it has read its messages. Without a gain the input is passed on and the
        line is left alone. */
    method Process(bufIn: array<real>, bufOut: array<real>, nframes: nat)
      requires Valid() && nframes <= bufIn.Length && nframes <= bufOut.Length
      requires bufOut != dline && bufOut != bufIn && bufIn != dline
      modifies this`ptr1, this`ptr2, dline, bufOut
      ensures Valid() && m == old(m) && gain == old(gain)
      ensures gain == 0.0 ==> bufOut[..nframes] == bufIn[..nframes] && Line() == old(Line())
      ensures var xs := bufIn[..nframes];
              gain != 0.0 ==> bufOut[..nframes] == Mix(gain, xs, Outs(old(Line()), Delay(), xs))
      ensures gain != 0.0 ==> IsEcho(bufOut[..nframes], gain, old(Line()), Delay(), bufIn[..nframes])
      ensures gain != 0.0 ==> Line() == After(old(Line()), Delay(), bufIn[..nframes])
      ensures bufOut[nframes..] == old(bufOut[nframes..])
    {
      if gain == 0.0 {
        forall i | 0 <= i < nframes {
          bufOut[i] := bufIn[i];
        }
      } else {
        MixIsEcho(gain, Line(), Delay(), bufIn[..nframes]);
        hide Mix, Outs, After, IsEcho, Line;
        Echo(bufIn, bufOut, nframes);
      }
    }

    /** The loop of Process. */
    method Echo(bufIn: array<real>, bufOut: array<real>, nframes: nat)
      requires Valid() && nframes <= bufIn.Length && nframes <= bufOut.Length
      requires bufOut != dline && bufOut != bufIn && bufIn != dline
      modifies this`ptr1, this`ptr2, dline, bufOut
      ensures Valid() && m == old(m)
      ensures var xs := bufIn[..nframes]; bufOut[..nframes] == Mix(gain, xs, Outs(old(Line()), Delay(), xs))
      ensures Line() == After(old(Line()), Delay(), bufIn[..nframes])
      ensures bufOut[nframes..] == old(bufOut[nframes..])
    {
      ghost var line := Line();
      AfterNone(line, Delay());
      ghost var ys := [];
      hide After, Outs, Mix, Line, Echoed;
      assert Mix(gain, [], []) == [] by {
        MixNone(gain);
      }
      for i := 0 to nframes
        invariant Valid() && ys == Outs(line, Delay(), bufIn[..i]) && |ys| == i
        invariant Line() == After(line, Delay(), bufIn[..i])
        invariant bufOut[..i] == Mix(gain, bufIn[..i], ys)
        invariant bufOut[nframes..] == old(bufOut[nframes..])
      {
        var x := bufIn[i];
        var y := Tick(x);
        var e := Echoed(gain, x, y);
        bufOut[i] := e;
        Cut(line, Delay(), bufIn[..i], [x]);
        MixSnoc(gain, bufIn[..i], ys, x, y);
        assert bufIn[..i + 1] == bufIn[..i] + [x];
        assert bufOut[..i + 1] == bufOut[..i] + [e];
        ys := ys + [y];
      }
    }
  }

  /** Any stream through the real line, however it is cut into blocks: the echo of the whole. */
  method EchoBlocks(line: CLine, blocks: seq<seq<real>>) returns (output: seq<real>)
    requires line.Valid() && line.gain != 0.0
    modifies line`ptr1, line`ptr2, line.dline
    ensures line.Valid()
    ensures IsEcho(output, line.gain, old(line.Line()), line.Delay(), Concat(blocks))
    ensures var xs := Concat(blocks);
            && output == Mix(line.gain, xs, Outs(old(line.Line()), line.Delay(), xs))
            && line.Line() == After(old(line.Line()), line.Delay(), xs)
  {
    ghost var start, d, xs := line.Line(), line.Delay(), Concat(blocks);
    output := [];
    assert blocks[0..] == blocks;
    assert output + Mix(line.gain, xs, Outs(start, d, xs)) == Mix(line.gain, xs, Outs(start, d, xs));
    hide After, Outs, Mix, Echoed, IsEcho;
    for i := 0 to |blocks|
      invariant line.Valid() && line.m == old(line.m)
      invariant var rest := Concat(blocks[i..]);
                && output + Mix(line.gain, rest, Outs(line.Line(), d, rest)) == Mix(line.gain, xs, Outs(start, d, xs))
                && After(line.Line(), d, rest) == After(start, d, xs)
    {
      var bufIn, bufOut := new real[|blocks[i]|], new real[|blocks[i]|];
      forall k | 0 <= k < |blocks[i]| {
        bufIn[k] := blocks[i][k];
      }
      assert bufIn[..] == bufIn[..|blocks[i]|] == blocks[i];
      assert blocks[i..][1..] == blocks[i + 1..];
      MixCut(line.gain, line.Line(), d, blocks[i], Concat(blocks[i + 1..]), output);
      Cut(line.Line(), d, blocks[i], Concat(blocks[i + 1..]));
      line.Process(bufIn, bufOut, |blocks[i]|);
      output := output + bufOut[..];
      assert bufOut[..] == bufOut[..|blocks[i]|];
    }
    MixIsEcho(line.gain, start, d, xs);
    assert blocks[|blocks|..] == [];
    AfterNone(line.Line(), d);
    MixNone(line.gain);
    assert output + [] == output;
  }

  // ---- the line in Lua --------------------------------------------------------------------

  /** The script's table and its one pointer, which counts from one. */
  class LuaLine {
    const length: nat
    var d: seq<real>
    var ptr: nat

    constructor (length: nat)
      requires length >= 1
      ensures Valid() && this.length == length && Line() == Silence(length)
    {
      this.length := length;
      d := seq(length, _ => 0.0);
      ptr := 1;
    }

    ghost predicate Valid()
      reads this
    {
      |d| == length && 1 <= ptr <= length
    }

    ghost function Line(): (s: seq<real>)
      requires Valid()
      reads this
      ensures |s| == length
    {
      Rotated(d, ptr - 1)
    }

    /** delayline: the same function of the input, with the delay as long as the line. */
    method Tick(x: real) returns (y: real)
      requires Valid()
      modifies this
      ensures Valid()
      ensures Outs(old(Line()), length, [x]) == [y] && Line() == After(old(Line()), length, [x])
    {
      hide Rotated, Outs, After;
      TickLine(d, ptr - 1, 0, x);
      assert d[ptr - 1 := 0.0][ptr - 1 := x] == d[ptr - 1 := x];
      y := d[ptr - 1];
      d := d[ptr - 1 := x];
      ptr := ptr + 1;
      if ptr > length {
        ptr := 1;
      }
    }

    /** The loop of process. */
    method Process(input: seq<real>, gain: real) returns (output: seq<real>)
      requires Valid()
      modifies this
      ensures Valid() && output == Mix(gain, input, Outs(old(Line()), length, input))
      ensures IsEcho(output, gain, old(Line()), length, input)
      ensures Line() == After(old(Line()), length, input)
    {
      hide After, Outs, Mix, Line, Echoed, Rotated, Tape, IsEcho;
      ghost var line := Line();
      AfterNone(line, length);
      MixIsEcho(gain, line, length, input);
      ghost var ys := [];
      MixNone(gain);
      output := [];
      for i := 0 to |input|
        invariant Valid() && ys == Outs(line, length, input[..i]) && |ys| == i
        invariant Line() == After(line, length, input[..i])
        invariant output == Mix(gain, input[..i], ys)
      {
        var x := input[i];
        Cut(line, length, input[..i], [x]);
        assert input[..i + 1] == input[..i] + [x];
        var y := Tick(x);
        MixSnoc(gain, input[..i], ys, x, y);
        output := output + [Echoed(gain, x, y)];
        ys := ys + [y];
      }
      assert input[..|input|] == input;
    }
  }

  /** The same through the script's line. */
  method EchoLuaBlocks(line: LuaLine, blocks: seq<seq<real>>, gain: real) returns (output: seq<real>)
    requires line.Valid()
    modifies line
    ensures line.Valid()
    ensures IsEcho(output, gain, old(line.Line()), line.length, Concat(blocks))
    ensures var xs := Concat(blocks);
            && output == Mix(gain, xs, Outs(old(line.Line()), line.length, xs))
            && line.Line() == After(old(line.Line()), line.length, xs)
  {
    ghost var start, d, xs := line.Line(), line.length, Concat(blocks);
    output := [];
    assert blocks[0..] == blocks;
    assert output + Mix(gain, xs, Outs(start, d, xs)) == Mix(gain, xs, Outs(start, d, xs));
    hide After, Outs, Mix, Echoed, IsEcho;
    for i := 0 to |blocks|
      invariant line.Valid()
      invariant var rest := Concat(blocks[i..]);
                && output + Mix(gain, rest, Outs(line.Line(), d, rest)) == Mix(gain, xs, Outs(start, d, xs))
                && After(line.Line(), d, rest) == After(start, d, xs)
    {
      assert blocks[i..][1..] == blocks[i + 1..];
      MixCut(gain, line.Line(), d, blocks[i], Concat(blocks[i + 1..]), output);
      Cut(line.Line(), d, blocks[i], Concat(blocks[i + 1..]));
      var block := line.Process(blocks[i], gain);
      output := output + block;
    }
    MixIsEcho(gain, start, d, xs);
    assert blocks[|blocks|..] == [];
    AfterNone(line.Line(), d);
    MixNone(gain);
    assert output + [] == output;
  }

  /** One sample, then silence for the rest of ten seconds at 441 samples a second. */
  function Click(): (xs: seq<real>)
    ensures |xs| == 4412
  {
    [1.0] + Silence(4411)
  }

  lemma Clicked()
    ensures var out := Mix(1.0, Click(), Outs(Silence(4411), 4411, Click()));
            && |out| == 4412 && out[4411] == 1.0
            && forall k :: 0 < k < 4411 ==> out[k] == 0.0
  {
    var xs := Click();
    var ys := Outs(Silence(4411), 4411, xs);
    Delayed(Silence(4411), 4411, xs, 4411);
    forall k | 0 < k < 4411 ensures Mix(1.0, xs, ys)[k] == 0.0 {
      Delayed(Silence(4411), 4411, xs, k);
    }
  }

  /** The sub-sample case of On, on a concrete line: asked for a delay of a millisecond, less than
      a sample, the real line gives the sample back only when the whole line has gone by. */
  method LateEcho() returns (line: CLine, output: seq<real>)
    ensures line.fs == 441 && line.delay == 0.001 && line.gain == 1.0
    ensures Cap(0.001) * 441.0 < 1.0
    ensures |output| == 4412 && output[4411] == 1.0
    ensures forall k :: 0 < k < 4411 ==> output[k] == 0.0
  {
    line := new CLine(441);
    line.On(1.0, 0.001);
    output := ClickThrough(line);
  }

  method ClickThrough(line: CLine) returns (output: seq<real>)
    requires line.Valid() && line.gain == 1.0 && line.Delay() == 4411 && line.Line() == Silence(4411)
    modifies line`ptr1, line`ptr2, line.dline
    ensures line.Valid() && |output| == 4412 && output[4411] == 1.0
    ensures forall k :: 0 < k < 4411 ==> output[k] == 0.0
  {
    hide Click, Silence, Outs, Mix, After, IsEcho, CLine.Line;
    ghost var xs := Click();
    OneBlock(xs);
    output := EchoBlocks(line, [Click()]);
    assert output == Mix(1.0, xs, Outs(Silence(4411), 4411, xs));
    Clicked();
  }

  lemma OneBlock(xs: seq<real>)
    ensures Concat([xs]) == xs
  {
    assert [xs][1..] == [] && Concat([]) == [] && xs + [] == xs;
  }
}
