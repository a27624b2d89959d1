/** The metronome's process callback (examples/metro.lua) on the output port's buffer. */
module Metro {
  import opened Buffer
  import opened Sequences

  /** `n` samples of the endless repetition of the wave, from place `p` of it on. */
  function Emitted(wave: seq<real>, p: nat, n: nat): (s: seq<real>)
    requires |wave| > 0
    ensures |s| == n
  {
    seq(n, k requires k >= 0 => wave[(p + k) % |wave|])
  }

  /** Quotient and remainder are unique. */
  lemma ModIs(x: int, n: int, q: int, r: int)
    requires 0 <= r < n && x == n * q + r
    ensures x % n == r
  {
    var d := x / n - q;
    assert n * d == n * (x / n) - n * q == r - x % n;
    assert d >= 1 ==> n * d >= n;
    assert d <= -1 ==> n * d <= -n;
  }

  lemma ModAdd(a: nat, b: nat, n: nat)
    requires n > 0
    ensures (a % n + b) % n == (a + b) % n
  {
    var x := a % n + b;
    var q := a / n + x / n;
    assert n * q == n * (a / n) + n * (x / n);
    ModIs(a + b, n, q, x % n);
  }

  /** Emission goes on where it stopped. */
  lemma EmittedOn(wave: seq<real>, p: nat, n: nat, m: nat)
    requires |wave| > 0
    ensures Emitted(wave, p, n + m) == Emitted(wave, p, n) + Emitted(wave, (p + n) % |wave|, m)
  {
    hide Emitted;
    var whole, first, rest := Emitted(wave, p, n + m), Emitted(wave, p, n), Emitted(wave, (p + n) % |wave|, m);
    forall k | 0 <= k < n ensures whole[k] == first[k] {
      EmittedAt(wave, p, n + m, k);
      EmittedAt(wave, p, n, k);
    }
    forall k | 0 <= k < m ensures whole[n + k] == rest[k] {
      EmittedLater(wave, p, n, m, k);
    }
    assert whole == first + rest;
  }

  lemma EmittedLater(wave: seq<real>, p: nat, n: nat, m: nat, k: nat)
    requires |wave| > 0 && k < m
    ensures Emitted(wave, p, n + m)[n + k] == Emitted(wave, (p + n) % |wave|, m)[k]
  {
    hide Emitted;
    EmittedAt(wave, p, n + m, n + k);
    ModAdd(p + n, k, |wave|);
    EmittedAt(wave, (p + n) % |wave|, m, k);
  }

  lemma EmittedAt(wave: seq<real>, p: nat, n: nat, k: nat)
    requires |wave| > 0 && k < n
    ensures Emitted(wave, p, n)[k] == wave[(p + k) % |wave|]
  {
  }

  /** Within one turn of the wave, what is emitted is a stretch of the table. */
  lemma EmittedStretch(wave: seq<real>, p: nat, n: nat)
    requires p + n <= |wave| && p < |wave|
    ensures Emitted(wave, p, n) == wave[p..p + n]
  {
    forall k | 0 <= k < n ensures Emitted(wave, p, n)[k] == wave[p..p + n][k] {
      ModIs(p + k, |wave|, 0, p + k);
    }
  }

  /** The samples of a run of periods, one after the other. */
  function Periods(wave: seq<real>, p: nat, sizes: seq<nat>): seq<real>
    requires |wave| > 0
    decreases |sizes|
  {
    if sizes == [] then []
    else Emitted(wave, p, sizes[0]) + Periods(wave, (p + sizes[0]) % |wave|, sizes[1..])
  }

  function Total(sizes: seq<nat>): nat {
    if sizes == [] then 0 else sizes[0] + Total(sizes[1..])
  }

  /** Whatever the sizes of the periods, their concatenation is the endless wave. */
  lemma {:induction false} PeriodsIrrelevant(wave: seq<real>, p: nat, sizes: seq<nat>)
    requires |wave| > 0
    ensures Periods(wave, p, sizes) == Emitted(wave, p, Total(sizes))
    decreases |sizes|
  {
    hide Emitted;
    if sizes == [] {
      assert Emitted(wave, p, 0) == [];
    } else {
      PeriodsIrrelevant(wave, (p + sizes[0]) % |wave|, sizes[1..]);
      EmittedOn(wave, p, sizes[0], Total(sizes[1..]));
    }
  }

  /** The loop of process_audio goes on from here. */
  predicate Again(waveLength: int, offset: int, framesLeft: int) {
    waveLength - offset < framesLeft
  }

  /** Of one turn of the loop: the frames then left. */
  function Left(waveLength: int, offset: int, framesLeft: int): int {
    framesLeft - (waveLength - offset + 1)
  }

  /** The loop's variables after `k` turns. */
  function Turns(waveLength: int, offset: int, framesLeft: int, k: nat): (int, int)
    decreases k
  {
    if k == 0 then (offset, framesLeft)
    else Turns(waveLength, 1, Left(waveLength, offset, framesLeft), k - 1)
  }

  /** With a wave of at least one sample the loop ends; with an empty one it would never end. */
  lemma {:induction false} EndsExactly(waveLength: int, frames: nat)
    requires waveLength >= 0
    ensures waveLength >= 1 <==>
            exists k: nat :: !Again(waveLength, Turns(waveLength, 1, frames, k).0, Turns(waveLength, 1, frames, k).1)
  {
    if waveLength >= 1 {
      TurnsFrom(waveLength, frames, frames + 1);
      var (o, l) := Turns(waveLength, 1, frames, frames + 1);
      assert waveLength * (frames + 1) >= frames + 1;
      assert !Again(waveLength, o, l);
    } else {
      forall k: nat ensures Again(waveLength, Turns(waveLength, 1, frames, k).0, Turns(waveLength, 1, frames, k).1) {
        TurnsFrom(waveLength, frames, k);
      }
    }
  }

  lemma {:induction false} TurnsFrom(waveLength: int, frames: int, k: nat)
    ensures Turns(waveLength, 1, frames, k) == (1, frames - waveLength * k)
    decreases k
  {
    if k > 0 {
      TurnsFrom(waveLength, frames - waveLength, k - 1);
    }
  }

  /** The script: the wave table, as long as the wave, and the place to go on from, which
      counts from one. */
  class Metronome {
    const wave: seq<real>
    var offset: nat

    constructor (wave: seq<real>)
      requires |wave| >= 1
      ensures Valid() && this.wave == wave && offset == 1
    {
      this.wave := wave;
      offset := 1;
    }

    ghost predicate Valid()
      reads this
    {
      1 <= offset <= |wave|
    }

    /** table.unpack of the wave table. */
    function Unpack(i: nat, j: nat): (args: seq<Arg>)
      requires 1 <= i <= j + 1 && j <= |wave|
      ensures |args| == j + 1 - i && Leading(args) == |args|
      ensures forall k :: 0 <= k < |args| ==> args[k] == Num(wave[i - 1 + k])
    {
      var args := seq(j + 1 - i, k requires 0 <= k < j + 1 - i => Num(wave[i - 1 + k]));
      AllLeading(args);
      args
    }

    /** process_audio on a buffer just retrieved: the period is filled with the wave from where
        the last period left it. The last write offers one sample too many, which the port drops. */
    method ProcessAudio(out: Port, nframes: nat)
      requires Valid() && out.Valid() && out.output && out.buf != null && out.nframes == nframes && out.bufp == 0
      modifies this, out`bufp, out.buf
      ensures Valid() && out.Valid() && out.bufp == nframes
      ensures out.Samples() == Emitted(wave, old(offset) - 1, nframes)
      ensures forall k :: 0 <= k < nframes ==> out.buf[k] == wave[(old(offset) - 1 + k) % |wave|]
      ensures offset == (old(offset) - 1 + nframes) % |wave| + 1
    {
      ghost var p := offset - 1;
      var framesLeft := nframes;
      ModIs(p, |wave|, 0, p);
      while Again(|wave|, offset, framesLeft)
        invariant Valid() && out.Valid() && out.bufp + framesLeft == nframes
        invariant out.Samples()[..out.bufp] == Emitted(wave, p, out.bufp)
        invariant offset - 1 == (p + out.bufp) % |wave|
        decreases framesLeft
      {
        ghost var n := |wave| - offset + 1;
        Emit(out, |wave|, n, p);
        framesLeft := Left(|wave|, offset, framesLeft);
        NextPlace(p, out.bufp - n, n, |wave|);
        offset := 1;
      }
      if framesLeft > 0 {
        Emit(out, offset + framesLeft, framesLeft, p);
        NextPlace(p, out.bufp - framesLeft, framesLeft, |wave|);
        offset := offset + framesLeft;
      }
    }

    /** One write of the wave table from the offset to `j`, of which `n` samples fit. */
    method Emit(out: Port, j: nat, ghost n: nat, ghost p: nat)
      requires Valid() && out.Valid() && out.output && out.buf != null && offset <= j <= |wave|
      requires offset - 1 + n <= |wave| && n == Least(j + 1 - offset, out.Avail())
      requires out.Samples()[..out.bufp] == Emitted(wave, p, out.bufp) && offset - 1 == (p + out.bufp) % |wave|
      modifies out`bufp, out.buf
      ensures out.Valid() && out.bufp == old(out.bufp) + n
      ensures out.Samples()[..out.bufp] == Emitted(wave, p, out.bufp)
    {
      hide Emitted, Numbers, Leading, Unpack, Overwritten;
      ghost var b := out.bufp;
      EmittedOn(wave, p, b, n);
      EmittedStretch(wave, offset - 1, n);
      var args := Unpack(offset, j);
      NumbersOf(wave, offset - 1, args, n);
      ghost var whole := out.buf[..];
      var r := out.Write(args);
      FrontOf(whole, b, Numbers(args[..n]), out.nframes);
    }
  }

  /** One period: the port's buffer is retrieved, filled by process_audio and dropped again. */
  method Period(m: Metronome, out: Port, n: nat) returns (samples: seq<real>)
    requires m.Valid() && out.output && out.Valid() && out.buf == null
    modifies m, out
    ensures m.Valid() && out.Valid() && out.buf == null
    ensures samples == Emitted(m.wave, old(m.offset) - 1, n)
    ensures m.offset == (old(m.offset) - 1 + n) % |m.wave| + 1
  {
    hide Emitted;
    var b := new real[n];
    var _ := out.GetBuffer(b, n);
    m.ProcessAudio(out, n);
    samples := b[..n];
    assert samples == out.Samples();
    out.Drop();
  }

  /** The output of the script over any periods, one after the other: the endless wave from its
      start. */
  method Play(wave: seq<real>, sizes: seq<nat>) returns (output: seq<real>)
    requires |wave| >= 1
    ensures output == Emitted(wave, 0, Total(sizes))
    ensures forall k :: 0 <= k < |output| ==> output[k] == wave[k % |wave|]
  {
    var m := new Metronome(wave);
    var out := new Port(true);
    hide Emitted, Periods, Total, Played;
    output := [];
    PlayedNone(wave, sizes);
    for i := 0 to |sizes|
      invariant fresh(m) && fresh(out) && m.wave == wave && m.Valid()
      invariant out.output && out.Valid() && out.buf == null
      invariant Played(wave, sizes, i, m.offset - 1, output)
    {
      PlayedNext(wave, sizes, i, m.offset - 1, output);
      var samples := Period(m, out, sizes[i]);
      output := output + samples;
    }
    PlayedAll(wave, sizes, m.offset - 1, output);
    forall k | 0 <= k < |output| ensures output[k] == wave[k % |wave|] {
      EmittedAt(wave, 0, |output|, k);
    }
  }

  /** After `i` periods: what is still to come, from place `p` of the wave on, completes what
      has been put out. */
  ghost predicate Played(wave: seq<real>, sizes: seq<nat>, i: nat, p: nat, done: seq<real>)
    requires |wave| > 0 && i <= |sizes|
  {
    done + Periods(wave, p, sizes[i..]) == Periods(wave, 0, sizes)
  }

  lemma PlayedNone(wave: seq<real>, sizes: seq<nat>)
    requires |wave| > 0
    ensures Played(wave, sizes, 0, 0, [])
  {
    assert sizes[0..] == sizes;
  }

  lemma PlayedNext(wave: seq<real>, sizes: seq<nat>, i: nat, p: nat, done: seq<real>)
    requires |wave| > 0 && i < |sizes| && Played(wave, sizes, i, p, done)
    ensures Played(wave, sizes, i + 1, (p + sizes[i]) % |wave|, done + Emitted(wave, p, sizes[i]))
  {
    hide Emitted;
    assert sizes[i..][1..] == sizes[i + 1..];
    var x, y := Emitted(wave, p, sizes[i]), Periods(wave, (p + sizes[i]) % |wave|, sizes[i + 1..]);
    assert done + (x + y) == done + x + y;
  }

  lemma PlayedAll(wave: seq<real>, sizes: seq<nat>, p: nat, done: seq<real>)
    requires |wave| > 0 && Played(wave, sizes, |sizes|, p, done)
    ensures done == Emitted(wave, 0, Total(sizes))
  {
    hide Emitted;
    assert done + [] == done;
    PeriodsIrrelevant(wave, 0, sizes);
  }

  lemma NextPlace(p: nat, b: nat, n: nat, w: nat)
    requires w > 0 && (p + b) % w + n <= w
    ensures (p + b + n) % w == if (p + b) % w + n == w then 0 else (p + b) % w + n
  {
    var x := p + b;
    if x % w + n == w {
      assert w * (x / w + 1) == w * (x / w) + w;
      ModIs(x + n, w, x / w + 1, 0);
    } else {
      ModIs(x + n, w, x / w, x % w + n);
    }
  }

  lemma NumbersOf(wave: seq<real>, i: nat, args: seq<Arg>, n: nat)
    requires n <= |args| && i + |args| <= |wave| && forall k :: 0 <= k < |args| ==> args[k] == Num(wave[i + k])
    ensures Numbers(args[..n]) == wave[i..i + n]
  {
  }

  lemma FrontOf(s: seq<real>, at: nat, xs: seq<real>, frames: nat)
    requires at + |xs| <= frames <= |s|
    ensures Overwritten(s, at, xs)[..frames][..at + |xs|] == s[..frames][..at] + xs
  {
  }

  lemma {:induction false} AllLeading(args: seq<Arg>)
    requires forall k :: 0 <= k < |args| ==> args[k].Num?
    ensures Leading(args) == |args|
  {
    if args != [] {
      AllLeading(args[1..]);
    }
  }
}
