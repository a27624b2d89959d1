/** A client thread, the thread that creates it and any number of threads that signal it
    (src/thread.c), one shared access a step. Cancellation is not part of this model. */
module ThreadHandshake {

  datatype Status = Configuring | Ready | Running | Done | Failed

  /** Where ThreadCreate_ is. */
  datatype Creator = CStart | CConfigured | CCreated | CReady | CGaveUp

  /** Where ThreadFunc is, and inside the script whether it is in Wait. */
  datatype Client =
    | TNone       // not created yet
    | TStart      // about to take the lock
    | TSpin       // in the loop that waits for the creator
    | TLeave      // out of that loop
    | TScript     // the script's code runs
    | TBlocked    // in Wait, the lock released
    | TWaking     // in Wait, woken, without the lock
    | TEnding     // the script is over, the lock not yet released
    | TGone

  /** Where a call of thread_signal is. */
  datatype Signaller = SOut | SPassed | SLocked | SSignalled

  datatype Holder = Free | ByClient | By(p: nat)

  datatype State = State(status: Status, lock: Holder, creator: Creator, client: Client, sig: map<nat, Signaller>)

  function Initial(threads: set<nat>): State {
    State(Configuring, Free, CStart, TNone, map p | p in threads :: SOut)
  }

  datatype Step =
    | Configure | Create(ok: bool) | Publish
    | TakeLock | Spin | StartScript | WaitCall | Spurious | WaitReturn | Finish(ok: bool) | Release
    | Test(p: nat) | TryLock(p: nat) | CondSignal(p: nat) | Unlock(p: nat)

  predicate Enabled(s: State, a: Step) {
    match a
    case Configure => s.creator.CStart?
    case Create(_) => s.creator.CConfigured?
    case Publish => s.creator.CCreated?
    case TakeLock => s.client.TStart? && s.lock.Free?
    case Spin => s.client.TSpin?
    case StartScript => s.client.TLeave?
    case WaitCall => s.client.TScript?
    case Spurious => s.client.TBlocked?
    case WaitReturn => s.client.TWaking? && s.lock.Free?
    case Finish(_) => s.client.TScript?
    case Release => s.client.TEnding?
    case Test(p) => p in s.sig && s.sig[p].SOut?
    case TryLock(p) => p in s.sig && s.sig[p].SPassed?
    case CondSignal(p) => p in s.sig && s.sig[p].SLocked?
    case Unlock(p) => p in s.sig && s.sig[p].SSignalled?
  }

  /** One step. Waiting releases the lock; a wait can also end without a signal. */
  function Do(s: State, a: Step): State
    requires Enabled(s, a)
  {
    match a
    case Configure => s.(status := Configuring, creator := CConfigured)
    case Create(ok) => if ok then s.(creator := CCreated, client := TStart) else s.(creator := CGaveUp)
    case Publish => s.(status := Ready, creator := CReady)
    case TakeLock => s.(client := TSpin, lock := ByClient)
    case Spin => if s.status.Configuring? then s else s.(client := TLeave)
    case StartScript => s.(status := Running, client := TScript)
    case WaitCall => s.(client := TBlocked, lock := Free)
    case Spurious => s.(client := TWaking)
    case WaitReturn => s.(client := TScript, lock := ByClient)
    case Finish(ok) => s.(status := if ok then Done else Failed, client := TEnding)
    case Release => s.(client := TGone, lock := Free)
    case Test(p) => if s.status.Running? then s.(sig := s.sig[p := SPassed]) else s
    case TryLock(p) =>
      if s.lock.Free? then s.(sig := s.sig[p := SLocked], lock := By(p)) else s.(sig := s.sig[p := SOut])
    case CondSignal(p) =>
      s.(sig := s.sig[p := SSignalled], client := if s.client.TBlocked? then TWaking else s.client)
    case Unlock(p) => s.(sig := s.sig[p := SOut], lock := Free)
  }

  predicate Runs(s: State, run: seq<Step>)
    decreases |run|
  {
    run == [] || (Enabled(s, run[0]) && Runs(Do(s, run[0]), run[1..]))
  }

  function Exec(s: State, run: seq<Step>): State
    requires Runs(s, run)
    decreases |run|
  {
    if run == [] then s else Exec(Do(s, run[0]), run[1..])
  }

  // ---- the invariant ---------------------------------------------------------------

  predicate HoldsLock(c: Client) {
    c.TSpin? || c.TLeave? || c.TScript? || c.TEnding?
  }

  ghost predicate LockInv(s: State) {
    && (s.lock.ByClient? <==> HoldsLock(s.client))
    && (s.lock.By? ==> s.lock.p in s.sig)
    && (forall p :: p in s.sig ==> (s.lock == By(p) <==> s.sig[p].SLocked? || s.sig[p].SSignalled?))
  }

  /** What the status says of the creator and of the client thread. */
  predicate StatusInv(s: State) {
    match s.client
    case TNone => s.status.Configuring? && !s.creator.CCreated? && !s.creator.CReady?
    case TStart => if s.creator.CReady? then s.status.Ready? else s.creator.CCreated? && s.status.Configuring?
    case TSpin => if s.creator.CReady? then s.status.Ready? else s.creator.CCreated? && s.status.Configuring?
    case TLeave => s.creator.CReady? && s.status.Ready?
    case TScript => s.creator.CReady? && s.status.Running?
    case TBlocked => s.creator.CReady? && s.status.Running?
    case TWaking => s.creator.CReady? && s.status.Running?
    case TEnding => s.creator.CReady? && (s.status.Done? || s.status.Failed?)
    case TGone => s.creator.CReady? && (s.status.Done? || s.status.Failed?)
  }

  function Rank(s: Status): nat {
    match s
    case Configuring => 0
    case Ready => 1
    case Running => 2
    case Done => 3
    case Failed => 3
  }

  ghost predicate SignalInv(s: State) {
    && (forall p :: p in s.sig && !s.sig[p].SOut? ==> Rank(s.status) >= 2)
    && (forall p :: p in s.sig && s.sig[p].SSignalled? ==> !s.client.TBlocked?)
  }

  ghost predicate Inv(s: State) {
    LockInv(s) && StatusInv(s) && SignalInv(s)
  }

  lemma InvInitial(threads: set<nat>)
    ensures Inv(Initial(threads))
  {
  }

  lemma InvStep(s: State, a: Step)
    requires Inv(s) && Enabled(s, a)
    ensures Inv(Do(s, a))
  {
    var s' := Do(s, a);
    assert LockInv(s');
    assert StatusInv(s');
  }

  lemma {:induction false} InvRun(s: State, run: seq<Step>)
    requires Inv(s) && Runs(s, run)
    ensures Inv(Exec(s, run))
    decreases |run|
  {
    if run != [] {
      InvStep(s, run[0]);
      InvRun(Do(s, run[0]), run[1..]);
    }
  }

  // ---- what every interleaving keeps ---------------------------------------------------

  /** A step leaves the status alone or moves it to the next one; Done and Failed are final. */
  lemma StatusStep(s: State, a: Step)
    requires Inv(s) && Enabled(s, a)
    ensures var (x, y) := (s.status, Do(s, a).status); y == x || Rank(y) == Rank(x) + 1
  {
  }

  /** Over a run the status climbs from Configuring through Ready and Running to one of Done and
      Failed, and takes each of the states between its first and its last value. */
  lemma {:induction false} StatusClimbs(s: State, run: seq<Step>, via: Status)
    requires Inv(s) && Runs(s, run)
    ensures Rank(s.status) <= Rank(Exec(s, run).status)
    ensures Rank(s.status) == Rank(Exec(s, run).status) ==> s.status == Exec(s, run).status
    ensures Rank(s.status) <= Rank(via) < Rank(Exec(s, run).status) && via.Ready? ==> Visits(s, run, via)
    ensures Rank(s.status) <= Rank(via) < Rank(Exec(s, run).status) && via.Running? ==> Visits(s, run, via)
    decreases |run|
  {
    if run != [] {
      StatusStep(s, run[0]);
      InvStep(s, run[0]);
      StatusClimbs(Do(s, run[0]), run[1..], via);
    }
  }

  lemma EndStep(s: State, a: Step)
    requires Inv(s) && Enabled(s, a)
    ensures Do(s, a).status.Done? <==> s.status.Done? || a == Finish(true)
    ensures Do(s, a).status.Failed? <==> s.status.Failed? || a == Finish(false)
  {
  }

  lemma {:induction false} EndsFrom(s: State, run: seq<Step>)
    requires Inv(s) && Runs(s, run)
    ensures Exec(s, run).status.Done? <==> s.status.Done? || Finish(true) in run
    ensures Exec(s, run).status.Failed? <==> s.status.Failed? || Finish(false) in run
    decreases |run|
  {
    if run != [] {
      EndStep(s, run[0]);
      InvStep(s, run[0]);
      EndsFrom(Do(s, run[0]), run[1..]);
      assert run == [run[0]] + run[1..];
    }
  }

  /** On every interleaving the thread is Done exactly if its script has ended without an error, and
      Failed exactly if it has ended with one; so it does not end in both ways. */
  lemma EndsAs(threads: set<nat>, run: seq<Step>)
    requires Runs(Initial(threads), run)
    ensures Exec(Initial(threads), run).status.Done? <==> Finish(true) in run
    ensures Exec(Initial(threads), run).status.Failed? <==> Finish(false) in run
  {
    InvInitial(threads);
    EndsFrom(Initial(threads), run);
  }

  /** Some state of the run has the status. */
  predicate Visits(s: State, run: seq<Step>, st: Status)
    requires Runs(s, run)
    decreases |run|
  {
    s.status == st || (run != [] && Visits(Do(s, run[0]), run[1..], st))
  }

  lemma Reached(threads: set<nat>, run: seq<Step>) returns (s: State)
    requires Runs(Initial(threads), run)
    ensures s == Exec(Initial(threads), run) && Inv(s)
  {
    InvInitial(threads);
    InvRun(Initial(threads), run);
    s := Exec(Initial(threads), run);
  }

  /** On every interleaving: a thread that signals holds the lock only while the client thread is
      inside Wait or its script is over, never while script code runs, and holds it alone. */
  lemma SignallerAlone(threads: set<nat>, run: seq<Step>, p: nat)
    requires Runs(Initial(threads), run)
    ensures var s := Exec(Initial(threads), run);
            p in s.sig && (s.sig[p].SLocked? || s.sig[p].SSignalled?) ==>
              && (s.client.TBlocked? || s.client.TWaking? || s.client.TGone?)
              && forall q :: q in s.sig && q != p ==> !s.sig[q].SLocked? && !s.sig[q].SSignalled?
  {
    var s := Reached(threads, run);
    assert p in s.sig && (s.sig[p].SLocked? || s.sig[p].SSignalled?) ==> s.lock == By(p);
  }

  /** On every interleaving the test of a signaller passes exactly while the script runs, waiting
      included; so a signal to a running thread is tried. */
  lemma TestFinds(threads: set<nat>, run: seq<Step>, p: nat)
    requires Runs(Initial(threads), run) && Enabled(Exec(Initial(threads), run), Test(p))
    ensures var s := Exec(Initial(threads), run);
            Do(s, Test(p)).sig[p].SPassed? <==> s.client.TScript? || s.client.TBlocked? || s.client.TWaking?
  {
    var s := Reached(threads, run);
  }

  /** A thread that could not be created never runs. */
  lemma NotCreated(threads: set<nat>, run: seq<Step>)
    requires Runs(Initial(threads), run)
    ensures var s := Exec(Initial(threads), run); s.creator.CGaveUp? ==> s.client.TNone? && s.status.Configuring?
  {
    var s := Reached(threads, run);
  }

  /** On every interleaving: having passed the Running test, a signaller that tries the lock gets
      it only with the client thread in Wait or gone, and never while the script runs. */
  lemma TryLockFinds(threads: set<nat>, run: seq<Step>, p: nat)
    requires Runs(Initial(threads), run) && Enabled(Exec(Initial(threads), run), TryLock(p))
    ensures var s := Exec(Initial(threads), run);
            var s' := Do(s, TryLock(p));
            (s'.sig[p].SLocked? ==> s.client.TBlocked? || s.client.TWaking? || s.client.TGone?) &&
            (s.client.TScript? ==> s'.sig[p].SOut?)
  {
    var s := Reached(threads, run);
  }

  /** On every interleaving no signal is lost to a waiting thread: where a signaller finds the
      lock taken although the client thread is blocked in Wait, the holder is another signaller
      that is about to wake it. */
  lemma NoLostSignal(threads: set<nat>, run: seq<Step>, p: nat)
    requires Runs(Initial(threads), run) && Enabled(Exec(Initial(threads), run), TryLock(p))
    ensures var s := Exec(Initial(threads), run);
            s.client.TBlocked? && !Do(s, TryLock(p)).sig[p].SLocked? ==>
              s.lock.By? && s.lock.p != p && Enabled(s, CondSignal(s.lock.p)) &&
              Do(s, CondSignal(s.lock.p)).client.TWaking?
  {
    var s := Reached(threads, run);
  }

  /** The script starts only after its creator has published the thread, and nobody touches
      the thread's lock but the thread itself before the script has started. */
  lemma NothingBeforeStart(threads: set<nat>, run: seq<Step>)
    requires Runs(Initial(threads), run)
    ensures var s := Exec(Initial(threads), run);
            (Rank(s.status) < 2 ==> forall p :: p in s.sig ==> s.sig[p].SOut?) &&
            (!s.creator.CReady? ==> Rank(s.status) == 0 && (s.client.TNone? || s.client.TStart? || s.client.TSpin?))
  {
    var s := Reached(threads, run);
  }

  /** The client thread can always go on, or the holder of the lock it waits for can; only in
      Wait does it depend on a signal, and in its first loop on its creator. */
  lemma NeverStuck(threads: set<nat>, run: seq<Step>)
    requires Runs(Initial(threads), run)
    ensures var s := Exec(Initial(threads), run);
            ((s.client.TStart? || s.client.TWaking?) && !s.lock.Free? ==>
              s.lock.By? && (Enabled(s, CondSignal(s.lock.p)) || Enabled(s, Unlock(s.lock.p)))) &&
            (s.client.TSpin? ==> if s.status.Configuring? then Enabled(s, Publish) else Do(s, Spin).client.TLeave?)
  {
    var s := Reached(threads, run);
  }

  // ---- one whole life --------------------------------------------------------------------

  lemma Chain(s: State, a: Step, rest: seq<Step>)
    requires Enabled(s, a) && Runs(Do(s, a), rest)
    ensures Runs(s, [a] + rest) && Exec(s, [a] + rest) == Exec(Do(s, a), rest)
  {
    assert ([a] + rest)[1..] == rest;
  }

  lemma Single(s: State, a: Step)
    requires Enabled(s, a)
    ensures Runs(s, [a]) && Exec(s, [a]) == Do(s, a)
  {
  }

  function Birth(): seq<Step> {
    [Configure, Create(true), Publish, TakeLock, Spin, StartScript]
  }

  /** A thread that is created starts its script, with the lock. */
  lemma Born(threads: set<nat>)
    ensures Runs(Initial(threads), Birth())
    ensures Exec(Initial(threads), Birth()) == State(Running, ByClient, CReady, TScript, Initial(threads).sig)
  {
    hide Runs, Exec;
    var s := Initial(threads);
    var s1 := Do(s, Configure);
    var s2 := Do(s1, Create(true));
    var s3 := Do(s2, Publish);
    var s4 := Do(s3, TakeLock);
    var s5 := Do(s4, Spin);
    Single(s5, StartScript);
    var r := [StartScript];
    Chain(s4, Spin, r);
    r := [Spin] + r;
    Chain(s3, TakeLock, r);
    r := [TakeLock] + r;
    Chain(s2, Publish, r);
    r := [Publish] + r;
    Chain(s1, Create(true), r);
    r := [Create(true)] + r;
    Chain(s, Configure, r);
    r := [Configure] + r;
    assert r == Birth();
  }

  function WaitAndWake(p: nat): seq<Step> {
    [WaitCall, Test(p), TryLock(p), CondSignal(p), Unlock(p), WaitReturn]
  }

  /** A thread that waits and is signalled goes on, with the lock, and the signaller is done. */
  lemma Woken(s: State, p: nat)
    requires s.status.Running? && s.client.TScript? && s.lock.ByClient? && p in s.sig && s.sig[p].SOut?
    ensures Runs(s, WaitAndWake(p)) && Exec(s, WaitAndWake(p)) == s
  {
    hide Runs, Exec;
    var s1 := s.(client := TBlocked, lock := Free);
    var s2 := s1.(sig := s.sig[p := SPassed]);
    var s3 := s2.(sig := s2.sig[p := SLocked], lock := By(p));
    var s4 := s3.(sig := s3.sig[p := SSignalled], client := TWaking);
    var s5 := s4.(sig := s4.sig[p := SOut], lock := Free);
    assert s5.sig == s.sig;
    Single(s5, WaitReturn);
    var r := [WaitReturn];
    Chain(s4, Unlock(p), r);
    r := [Unlock(p)] + r;
    Chain(s3, CondSignal(p), r);
    r := [CondSignal(p)] + r;
    Chain(s2, TryLock(p), r);
    r := [TryLock(p)] + r;
    Chain(s1, Test(p), r);
    r := [Test(p)] + r;
    Chain(s, WaitCall, r);
    r := [WaitCall] + r;
    assert r == WaitAndWake(p);
  }

  /** And at its end it leaves its status and the lock behind. */
  lemma Ended(s: State, ok: bool)
    requires s.client.TScript?
    ensures Runs(s, [Finish(ok), Release])
    ensures Exec(s, [Finish(ok), Release]) == s.(status := if ok then Done else Failed, client := TGone, lock := Free)
  {
    var s1 := Do(s, Finish(ok));
    Single(s1, Release);
    var r := [Release];
    Chain(s, Finish(ok), r);
    r := [Finish(ok)] + r;
    assert r == [Finish(ok), Release];
  }
}
