/** `_execute_gh_attestation_command` on POSIX: a process, two reader threads that drain its output
    into bounded buffers, and the main thread, interleaved in every possible way.  Each call of the
    main thread may fail; the model leaves the choice open. */
module VerifierDriver {
  import opened Wrappers
  import opened Chunks

  /** A reader thread: never started, draining, returned at end of file, or returned after a read error
      that it has recorded. */
  datatype Reader = Idle | Running | AtEnd | Broken

  /** One output pipe: everything the process writes to it, how much has been read, and the buffer. */
  datatype Pipe = Pipe(stream: Bytes, maximum: nat, pos: nat, buffer: Bytes, overflow: bool,
                       attempted: bool, reader: Reader, closed: bool)

  datatype Phase =
    | Starting      // reader threads are being started
    | Polling       // the wait loop
    | Deciding      // the loop has been left
    | Reaping       // the process exited by itself: wait()
    | Terminating   // the process tree is being terminated
    | Joining       // readers are joined and pipes closed
    | Checking      // the outcome is classified
    | Returned      // the command's bytes are returned
    | HandlingTree  // the handler owes a tree cleanup attempt, then the readers
    | HandlingReaders
    | Raised        // the original exception has been raised again

  datatype State = State(
    phase: Phase, out: Pipe, err: Pipe,
    exit: Option<int>,          // the process has exited
    timedOut: bool, interrupted: bool, returnCode: Option<int>,
    treeProven: bool, readersClosed: bool,
    treeTried: bool, readersTried: bool,
    primary: Option<int>, result: Option<Bytes>)

  // ----- the readers

  function Min(a: nat, b: nat): nat {
    if a < b then a else b
  }

  /** One iteration of `drain` for a chunk of k bytes. */
  function Receive(p: Pipe, k: nat): Pipe
    requires p.pos + k <= |p.stream|
  {
    var chunk := p.stream[p.pos..p.pos + k];
    var room := if p.maximum + 1 > |p.buffer| then p.maximum + 1 - |p.buffer| else 0;
    var buffer := p.buffer + chunk[..Min(room, k)];
    p.(pos := p.pos + k, buffer := buffer, overflow := p.overflow || |buffer| > p.maximum)
  }

  ghost predicate ReaderStep(p: Pipe, q: Pipe) {
    && p.reader.Running? && !p.closed
    && (|| (exists k: nat :: 0 < k && p.pos + k <= |p.stream| && q == Receive(p, k))
        || (p.pos == |p.stream| && q == p.(reader := AtEnd))
        || q == p.(reader := Broken))
  }

  predicate Stopped(r: Reader) {
    r.AtEnd? || r.Broken?
  }

  /** The buffer is the stream's prefix of at most maximum + 1 bytes, overflow says whether it is longer
      than the maximum, and a pipe is closed only when its attempted reader has stopped. */
  ghost predicate PipeOk(p: Pipe) {
    && p.pos <= |p.stream|
    && p.buffer == p.stream[..Min(p.pos, p.maximum + 1)]
    && (p.overflow <==> |p.buffer| > p.maximum)
    && (p.reader.AtEnd? ==> p.pos == |p.stream|)
    && (!p.reader.Idle? ==> p.attempted)
    && (p.closed ==> !p.attempted || Stopped(p.reader))
  }

  lemma ReceiveOk(p: Pipe, k: nat)
    requires PipeOk(p) && p.reader.Running? && !p.closed && p.pos + k <= |p.stream|
    ensures PipeOk(Receive(p, k))
  {
    var m := p.maximum + 1;
    var chunk := p.stream[p.pos..p.pos + k];
    if p.pos < m {
      var take := Min(m - p.pos, k);
      assert p.stream[..p.pos] + chunk[..take] == p.stream[..p.pos + take];
    } else {
      assert p.buffer + chunk[..0] == p.buffer;
    }
  }

  lemma ReaderKeepsPipe(p: Pipe, q: Pipe)
    requires PipeOk(p) && ReaderStep(p, q)
    ensures PipeOk(q)
  {
    if exists k: nat :: 0 < k && p.pos + k <= |p.stream| && q == Receive(p, k) {
      var k: nat :| 0 < k && p.pos + k <= |p.stream| && q == Receive(p, k);
      ReceiveOk(p, k);
    }
  }

  // ----- `_join_and_close_gh_readers`

  /** One pipe under the bounded join: it may be closed only if its attempted reader has stopped. */
  predicate PipeJoined(p: Pipe, q: Pipe) {
    && q == p.(closed := q.closed)
    && (p.closed ==> q.closed)
    && (q.closed && !p.closed ==> !p.attempted || Stopped(p.reader))
  }

  /** The join; true only when every attempted reader has stopped and every pipe is closed. */
  predicate Joined(s: State, out: Pipe, err: Pipe, ok: bool) {
    && PipeJoined(s.out, out) && PipeJoined(s.err, err)
    && (ok ==> && out.closed && err.closed
               && (s.out.attempted ==> Stopped(s.out.reader)) && (s.err.attempted ==> Stopped(s.err.reader)))
  }

  // ----- the main thread

  predicate ReadError(s: State) {
    s.out.reader.Broken? || s.err.reader.Broken?
  }

  predicate Overflow(s: State) {
    s.out.overflow || s.err.overflow
  }

  /** Any call may raise: the exception becomes the primary and the handler takes over. */
  ghost predicate Raise(s: State, t: State) {
    && s.phase in {Starting, Polling, Deciding, Reaping, Terminating, Joining, Checking}
    && t.primary.Some?
    && t == s.(phase := HandlingTree, primary := t.primary, treeProven := t.treeProven)
    && (t.treeProven == s.treeProven || s.phase.Reaping?)   // a failed wait() tries the tree once at once
  }

  /** An attempted start: the thread runs, or start() failed, perhaps after the thread existed. */
  predicate StartAttempt(p: Pipe, q: Pipe) {
    !p.attempted && (q.reader.Idle? || q.reader.Running?) && q == p.(attempted := true, reader := q.reader)
  }

  ghost predicate StartOut(s: State, t: State) {
    && s.phase.Starting? && StartAttempt(s.out, t.out)
    && (|| (t.out.reader.Running? && t == s.(out := t.out))
        || (t.primary.Some? && t == s.(out := t.out, phase := HandlingTree, primary := t.primary)))
  }

  ghost predicate StartErr(s: State, t: State) {
    && s.phase.Starting? && s.out.attempted && StartAttempt(s.err, t.err)
    && (|| (t.err.reader.Running? && t == s.(err := t.err, phase := Polling))
        || (t.primary.Some? && t == s.(err := t.err, phase := HandlingTree, primary := t.primary)))
  }

  ghost predicate Start(s: State, t: State) {
    StartOut(s, t) || StartErr(s, t)
  }

  ghost predicate Poll(s: State, t: State) {
    && s.phase.Polling?
    && (|| ((ReadError(s) || Overflow(s)) && t == s.(phase := Deciding))
        || (s.exit.Some? && t == s.(phase := Deciding))
        || t == s.(phase := Deciding, timedOut := true))
  }

  ghost predicate Decide(s: State, t: State) {
    && s.phase.Deciding?
    && var interrupted := s.timedOut || ReadError(s) || Overflow(s);
       t == s.(interrupted := interrupted, phase := if interrupted then Terminating else Reaping)
  }

  ghost predicate Reap(s: State, t: State) {
    s.phase.Reaping? && s.exit.Some? && t == s.(returnCode := s.exit, phase := Terminating)
  }

  /** The tree must be proven gone; an interrupted process reports whatever exit code it has. */
  ghost predicate Terminate(s: State, t: State) {
    && s.phase.Terminating?
    && t == s.(treeProven := true, phase := Joining, returnCode := if s.interrupted then s.exit else s.returnCode)
  }

  ghost predicate Join(s: State, t: State) {
    && s.phase.Joining?
    && (|| (Joined(s, t.out, t.err, true)
            && t == s.(out := t.out, err := t.err, readersClosed := true, phase := Checking))
        || (t.primary.Some? && Joined(s, t.out, t.err, false)
            && t == s.(out := t.out, err := t.err, phase := HandlingTree, primary := t.primary)))
  }

  /** Overflow, timeout, read errors and a nonzero or missing exit code are errors; otherwise the buffer is
      returned. */
  ghost predicate Check(s: State, t: State) {
    && s.phase.Checking?
    && !Overflow(s) && !s.timedOut && !ReadError(s) && s.returnCode == Some(0)
    && t == s.(phase := Returned, result := Some(s.out.buffer))
  }

  ghost predicate HandleTree(s: State, t: State) {
    && s.phase.HandlingTree?
    && t == if s.treeProven then s.(phase := HandlingReaders)
            else s.(phase := HandlingReaders, treeTried := true, treeProven := t.treeProven)
  }

  ghost predicate HandleReaders(s: State, t: State) {
    && s.phase.HandlingReaders?
    && if s.readersClosed then t == s.(phase := Raised)
       else && Joined(s, t.out, t.err, t.readersClosed)
            && t == s.(out := t.out, err := t.err, readersTried := true, readersClosed := t.readersClosed,
                       phase := Raised)
  }

  ghost predicate MainStep(s: State, t: State) {
    || Raise(s, t) || Start(s, t) || Poll(s, t) || Decide(s, t) || Reap(s, t) || Terminate(s, t)
    || Join(s, t) || Check(s, t) || HandleTree(s, t) || HandleReaders(s, t)
  }

  ghost predicate Next(s: State, t: State) {
    || (ReaderStep(s.out, t.out) && t == s.(out := t.out))
    || (ReaderStep(s.err, t.err) && t == s.(err := t.err))
    || (s.exit.None? && t.exit.Some? && t == s.(exit := t.exit))
    || MainStep(s, t)
  }

  function Fresh(stream: Bytes, maximum: nat): Pipe {
    Pipe(stream, maximum, 0, [], false, false, Idle, false)
  }

  /** The state after a successful spawn. */
  function Spawned(stdout: Bytes, stderr: Bytes, maxOut: nat, maxErr: nat): State {
    State(Starting, Fresh(stdout, maxOut), Fresh(stderr, maxErr), None, false, false, None,
          false, false, false, false, None, None)
  }

  // ----- what every reachable state satisfies

  predicate Handled(s: State) {
    s.phase in {HandlingTree, HandlingReaders, Raised}
  }

  ghost predicate Inv(s: State) {
    && PipeOk(s.out) && PipeOk(s.err)
    && (s.phase.Starting? ==> !s.out.closed && !s.err.closed && !s.err.attempted)
    && (s.readersClosed ==> s.out.closed && s.err.closed)
    && (s.readersClosed && !Handled(s) ==> Stopped(s.out.reader) && Stopped(s.err.reader))
    && (s.phase !in {Starting} && !Handled(s) ==> s.out.attempted && s.err.attempted)
    && (s.phase.Checking? ==> s.readersClosed && s.treeProven)
    && (s.phase.Joining? ==> s.treeProven)
    && (s.primary.Some? <==> Handled(s))
    && (s.result.Some? <==> s.phase.Returned?)
    && (s.phase.HandlingReaders? || s.phase.Raised? ==> s.treeProven || s.treeTried)
    && (s.phase.Raised? ==> s.readersClosed || s.readersTried)
    && (s.returnCode.Some? ==> s.exit == s.returnCode)
    && (s.phase.Returned? ==> Complete(s))
  }

  /** What a returned result means. */
  ghost predicate Complete(s: State) {
    && s.result == Some(s.out.stream) && |s.out.stream| <= s.out.maximum && |s.err.stream| <= s.err.maximum
    && s.returnCode == Some(0) && s.exit == Some(0) && !s.timedOut && !Overflow(s) && !ReadError(s)
    && s.readersClosed && s.treeProven
    && s.out.reader.AtEnd? && s.err.reader.AtEnd? && s.err.buffer == s.err.stream
  }

  lemma InitialInv(stdout: Bytes, stderr: Bytes, maxOut: nat, maxErr: nat)
    ensures Inv(Spawned(stdout, stderr, maxOut, maxErr))
  {
  }

  /** The process's output and the limits are no step's to change. */
  ghost predicate SameStreams(s: State, t: State) {
    && t.out.stream == s.out.stream && t.out.maximum == s.out.maximum
    && t.err.stream == s.err.stream && t.err.maximum == s.err.maximum
  }

  lemma ReadersKeepInv(s: State, t: State)
    requires Inv(s)
    requires (ReaderStep(s.out, t.out) && t == s.(out := t.out)) || (ReaderStep(s.err, t.err) && t == s.(err := t.err))
    ensures Inv(t) && SameStreams(s, t)
  {
    if ReaderStep(s.out, t.out) && t == s.(out := t.out) {
      ReaderKeepsPipe(s.out, t.out);
    } else {
      ReaderKeepsPipe(s.err, t.err);
    }
  }

  lemma CheckCompletes(s: State, t: State)
    requires Inv(s) && Check(s, t)
    ensures Inv(t) && Complete(t) && SameStreams(s, t)
  {
    WholeStream(s.out);
    WholeStream(s.err);
  }

  lemma WholeStream(p: Pipe)
    requires PipeOk(p) && Stopped(p.reader) && !p.reader.Broken? && !p.overflow
    ensures p.buffer == p.stream && |p.stream| <= p.maximum
  {
    assert p.stream[..|p.stream|] == p.stream;
  }

  lemma RaiseKeepsInv(s: State, t: State)
    requires Inv(s) && Raise(s, t)
    ensures Inv(t) && SameStreams(s, t)
  {
  }

  lemma StartKeepsPipe(p: Pipe, q: Pipe)
    requires PipeOk(p) && !p.closed && StartAttempt(p, q)
    ensures PipeOk(q) && q.stream == p.stream && q.maximum == p.maximum && !q.closed
  {
  }

  lemma StartOutKeepsInv(s: State, t: State)
    requires Inv(s) && StartOut(s, t)
    ensures Inv(t) && SameStreams(s, t)
  {
    StartKeepsPipe(s.out, t.out);
  }

  lemma StartErrKeepsInv(s: State, t: State)
    requires Inv(s) && StartErr(s, t)
    ensures Inv(t) && SameStreams(s, t)
  {
    StartKeepsPipe(s.err, t.err);
  }

  lemma PollKeepsInv(s: State, t: State)
    requires Inv(s) && Poll(s, t)
    ensures Inv(t) && SameStreams(s, t)
  {
  }

  lemma DecideKeepsInv(s: State, t: State)
    requires Inv(s) && Decide(s, t)
    ensures Inv(t) && SameStreams(s, t)
  {
  }

  lemma TerminateKeepsInv(s: State, t: State)
    requires Inv(s) && (Reap(s, t) || Terminate(s, t))
    ensures Inv(t) && SameStreams(s, t)
  {
  }

  lemma JoinKeepsPipes(s: State, out: Pipe, err: Pipe, ok: bool)
    requires PipeOk(s.out) && PipeOk(s.err) && Joined(s, out, err, ok)
    ensures PipeOk(out) && PipeOk(err)
    ensures out == s.out.(closed := out.closed) && err == s.err.(closed := err.closed)
  {
  }

  lemma JoinKeepsInv(s: State, t: State)
    requires Inv(s) && Join(s, t)
    ensures Inv(t) && SameStreams(s, t)
  {
    if Joined(s, t.out, t.err, true) {
      JoinKeepsPipes(s, t.out, t.err, true);
    } else {
      JoinKeepsPipes(s, t.out, t.err, false);
    }
  }

  lemma HandlerKeepsInv(s: State, t: State)
    requires Inv(s) && (HandleTree(s, t) || HandleReaders(s, t))
    ensures Inv(t) && SameStreams(s, t)
  {
  }

  lemma MainKeepsInv(s: State, t: State)
    requires Inv(s) && MainStep(s, t)
    ensures Inv(t) && SameStreams(s, t)
  {
    if Raise(s, t) { RaiseKeepsInv(s, t); }
    else if StartOut(s, t) { StartOutKeepsInv(s, t); }
    else if StartErr(s, t) { StartErrKeepsInv(s, t); }
    else if Poll(s, t) { PollKeepsInv(s, t); }
    else if Decide(s, t) { DecideKeepsInv(s, t); }
    else if Reap(s, t) || Terminate(s, t) { TerminateKeepsInv(s, t); }
    else if Join(s, t) { JoinKeepsInv(s, t); }
    else if Check(s, t) { CheckCompletes(s, t); }
    else { HandlerKeepsInv(s, t); }
  }

  lemma NextKeepsInv(s: State, t: State)
    requires Inv(s) && Next(s, t)
    ensures Inv(t) && SameStreams(s, t)
  {
    if (ReaderStep(s.out, t.out) && t == s.(out := t.out)) || (ReaderStep(s.err, t.err) && t == s.(err := t.err)) {
      ReadersKeepInv(s, t);
    } else if MainStep(s, t) {
      MainKeepsInv(s, t);
    }
  }

  /** A run: any interleaving of the readers, the process and the main thread. */
  ghost predicate IsRun(states: seq<State>) {
    && states != []
    && (exists a, b, m: nat, n: nat :: states[0] == Spawned(a, b, m, n))
    && forall i | 0 <= i < |states| - 1 :: Next(states[i], states[i + 1])
  }

  lemma {:induction false} EveryStateOk(states: seq<State>, i: nat)
    requires IsRun(states) && i < |states|
    ensures Inv(states[i])
  {
    if i == 0 {
      var a, b, m: nat, n: nat :| states[0] == Spawned(a, b, m, n);
      InitialInv(a, b, m, n);
    } else {
      EveryStateOk(states, i - 1);
      assert Next(states[i - 1], states[i - 1 + 1]);
      NextKeepsInv(states[i - 1], states[i]);
    }
  }

  /** Safety over whole runs: bounded prefixes at all times, no pipe closed under a live reader, and a
      result only when it is the complete stream of a process that exited with 0 and was fully cleaned up. */
  lemma RunsAreSafe(states: seq<State>, i: nat)
    requires IsRun(states) && i < |states|
    ensures var s := states[i];
            && s.out.buffer <= s.out.stream && |s.out.buffer| <= s.out.maximum + 1
            && s.err.buffer <= s.err.stream && |s.err.buffer| <= s.err.maximum + 1
            && (s.out.closed ==> !s.out.attempted || Stopped(s.out.reader))
            && (s.err.closed ==> !s.err.attempted || Stopped(s.err.reader))
            && (s.returnCode.Some? ==> s.exit == s.returnCode)
            && (s.result.Some? ==>
                  && s.result == Some(s.out.stream) && s.exit == Some(0) && !s.timedOut && s.primary.None?
                  && |s.out.stream| <= s.out.maximum && |s.err.stream| <= s.err.maximum
                  && s.out.reader.AtEnd? && s.err.reader.AtEnd?
                  && s.out.closed && s.err.closed && s.treeProven)
            && (s.phase.Raised? ==> (s.treeProven || s.treeTried) && (s.readersClosed || s.readersTried))
  {
    EveryStateOk(states, i);
  }

  lemma PrimaryStays(s: State, t: State)
    requires Inv(s) && Next(s, t) && s.primary.Some?
    ensures t.primary == s.primary && t.result.None?
  {
    if MainStep(s, t) { PrimaryStaysInMain(s, t); }
  }

  lemma PrimaryStaysInMain(s: State, t: State)
    requires Inv(s) && MainStep(s, t) && s.primary.Some?
    ensures t.primary == s.primary && t.result.None?
  {
    assert Handled(s);
    assert HandleTree(s, t) || HandleReaders(s, t);
  }

  /** The first exception after the spawn is the one raised in the end, whatever the cleanup does. */
  lemma {:induction false} OriginalIsRaised(states: seq<State>, i: nat, j: nat)
    requires IsRun(states) && i <= j < |states| && states[i].primary.Some?
    ensures states[j].primary == states[i].primary && states[j].result.None?
    decreases j - i
  {
    if i == j {
      EveryStateOk(states, i);
    } else {
      EveryStateOk(states, i);
      assert Next(states[i], states[i + 1]);
      PrimaryStays(states[i], states[i + 1]);
      OriginalIsRaised(states, i + 1, j);
    }
  }

  lemma TimeoutStays(s: State, t: State)
    requires Next(s, t) && s.timedOut
    ensures t.timedOut
  {
    if MainStep(s, t) { TimeoutStaysInMain(s, t); }
  }

  lemma TimeoutStaysInMain(s: State, t: State)
    requires MainStep(s, t) && s.timedOut
    ensures t.timedOut
  {
    if Raise(s, t) || Poll(s, t) || Decide(s, t) || Reap(s, t) || Terminate(s, t) || Check(s, t) {
    } else if Start(s, t) {
      TimeoutStaysInStart(s, t);
    } else if Join(s, t) {
      TimeoutStaysInJoin(s, t);
    }
  }

  lemma TimeoutStaysInStart(s: State, t: State)
    requires Start(s, t) && s.timedOut
    ensures t.timedOut
  {
  }

  lemma TimeoutStaysInJoin(s: State, t: State)
    requires Join(s, t) && s.timedOut
    ensures t.timedOut
  {
  }

  /** A call whose deadline has passed never returns a result, whatever the process and the cleanup do. */
  lemma {:induction false} TimeoutIsFinal(states: seq<State>, i: nat, j: nat)
    requires IsRun(states) && i <= j < |states| && states[i].timedOut
    ensures states[j].timedOut && states[j].result.None?
    decreases j - i
  {
    EveryStateOk(states, i);
    if i < j {
      assert Next(states[i], states[i + 1]);
      TimeoutStays(states[i], states[i + 1]);
      TimeoutIsFinal(states, i + 1, j);
    }
  }

  lemma StepKeepsStreams(states: seq<State>, i: nat)
    requires IsRun(states) && i + 1 < |states|
    ensures Streams(states[i]) == Streams(states[i + 1])
  {
    EveryStateOk(states, i);
    assert Next(states[i], states[i + 1]);
    NextKeepsInv(states[i], states[i + 1]);
  }

  /** Streams and limits never change, so a result is the process's own output. */
  lemma StreamsAreFixed(states: seq<State>, i: nat)
    requires IsRun(states) && i < |states|
    ensures SameStreams(states[0], states[i])
  {
    var all := seq(|states|, k requires 0 <= k < |states| => Streams(states[k]));
    forall k | 0 <= k < |all| - 1 ensures all[k] == all[k + 1] { StepKeepsStreams(states, k); }
    Constant(all, i);
    SameByStreams(states[0], states[i]);
  }

  function Streams(s: State): (Bytes, nat, Bytes, nat) {
    (s.out.stream, s.out.maximum, s.err.stream, s.err.maximum)
  }

  lemma SameByStreams(s: State, t: State)
    requires Streams(s) == Streams(t)
    ensures SameStreams(s, t)
  {
  }

  lemma {:induction false} Constant<T>(all: seq<T>, i: nat)
    requires i < |all| && forall k | 0 <= k < |all| - 1 :: all[k] == all[k + 1]
    ensures all[i] == all[0]
  {
    if i > 0 {
      Constant(all, i - 1);
      assert all[i - 1] == all[i - 1 + 1];
    }
  }

  // ----- a result is possible whenever the streams are within their limits

  function Last(states: seq<State>): State
    requires states != []
  {
    states[|states| - 1]
  }

  lemma Extend(states: seq<State>, t: State) returns (longer: seq<State>)
    requires IsRun(states) && Next(Last(states), t)
    ensures IsRun(longer) && longer[0] == states[0] && Last(longer) == t
  {
    longer := states + [t];
    assert longer[0] == states[0];
    forall i | 0 <= i < |longer| - 1 ensures Next(longer[i], longer[i + 1]) {
      if i < |states| - 1 { assert longer[i] == states[i] && longer[i + 1] == states[i + 1]; }
    }
  }

  /** A pipe whose reader has drained it in one read. */
  function Drained(p: Pipe): Pipe {
    p.(pos := |p.stream|, buffer := p.stream, reader := AtEnd)
  }

  lemma DrainOut(states: seq<State>) returns (longer: seq<State>)
    requires IsRun(states)
    requires var p := Last(states).out;
             && p.reader.Running? && !p.closed && p.pos == 0 && p.buffer == [] && !p.overflow
             && |p.stream| <= p.maximum
    ensures IsRun(longer) && longer[0] == states[0] && Last(longer) == Last(states).(out := Drained(Last(states).out))
  {
    longer := states;
    var s := Last(states);
    var k := |s.out.stream|;
    if k > 0 {
      WholeRead(s.out);
      assert ReaderStep(s.out, Receive(s.out, k));
      longer := Extend(states, s.(out := Receive(s.out, k)));
    }
    s := Last(longer);
    longer := Extend(longer, s.(out := s.out.(reader := AtEnd)));
  }

  lemma DrainErr(states: seq<State>) returns (longer: seq<State>)
    requires IsRun(states)
    requires var p := Last(states).err;
             && p.reader.Running? && !p.closed && p.pos == 0 && p.buffer == [] && !p.overflow
             && |p.stream| <= p.maximum
    ensures IsRun(longer) && longer[0] == states[0] && Last(longer) == Last(states).(err := Drained(Last(states).err))
  {
    longer := states;
    var s := Last(states);
    var k := |s.err.stream|;
    if k > 0 {
      WholeRead(s.err);
      assert ReaderStep(s.err, Receive(s.err, k));
      longer := Extend(states, s.(err := Receive(s.err, k)));
    }
    s := Last(longer);
    longer := Extend(longer, s.(err := s.err.(reader := AtEnd)));
  }

  lemma WholeRead(p: Pipe)
    requires p.pos == 0 && p.buffer == [] && !p.overflow && |p.stream| <= p.maximum
    ensures Receive(p, |p.stream|) == p.(pos := |p.stream|, buffer := p.stream)
  {
    assert p.stream[0..|p.stream|] == p.stream && [] + p.stream[..|p.stream|] == p.stream;
  }

  /** With RunsAreSafe: a result is returned in some run exactly when both streams fit. */
  lemma CleanRunReturns(stdout: Bytes, stderr: Bytes, maxOut: nat, maxErr: nat) returns (states: seq<State>)
    requires |stdout| <= maxOut && |stderr| <= maxErr
    ensures IsRun(states) && states[0] == Spawned(stdout, stderr, maxOut, maxErr) && Last(states).result == Some(stdout)
  {
    var s := Spawned(stdout, stderr, maxOut, maxErr);
    states := [s];
    states := Extend(states, s.(out := s.out.(attempted := true, reader := Running)));
    s := Last(states);
    states := Extend(states, s.(err := s.err.(attempted := true, reader := Running), phase := Polling));
    states := DrainOut(states);
    states := DrainErr(states);
    states := FinishRun(states);
  }

  lemma FinishRun(states: seq<State>) returns (longer: seq<State>)
    requires IsRun(states)
    requires var s := Last(states);
             && s.phase.Polling? && s.exit.None? && !s.timedOut && !Overflow(s)
             && s.out.reader.AtEnd? && s.err.reader.AtEnd?
    ensures IsRun(longer) && longer[0] == states[0] && Last(longer).result == Some(Last(states).out.buffer)
  {
    var s := Last(states);
    longer := Extend(states, s.(exit := Some(0)));
    longer := Extend(longer, Last(longer).(phase := Deciding));
    longer := Extend(longer, Last(longer).(interrupted := false, phase := Reaping));
    longer := Extend(longer, Last(longer).(returnCode := Some(0), phase := Terminating));
    longer := Extend(longer, Last(longer).(treeProven := true, phase := Joining));
    s := Last(longer);
    var out, err := s.out.(closed := true), s.err.(closed := true);
    assert Joined(s, out, err, true);
    longer := Extend(longer, s.(out := out, err := err, readersClosed := true, phase := Checking));
    s := Last(longer);
    longer := Extend(longer, s.(phase := Returned, result := Some(s.out.buffer)));
  }

  // ----- the two loops

  /** `drain` of one stream, given as the chunks that `read` returns before end of file. */
  method Drain(chunks: seq<Bytes>, maximum: nat) returns (target: Bytes, overflow: bool)
    requires forall i | 0 <= i < |chunks| :: chunks[i] != []
    ensures target == Concat(chunks)[..Min(|Concat(chunks)|, maximum + 1)]
    ensures overflow <==> |Concat(chunks)| > maximum
  {
    target, overflow := [], false;
    var i := 0;
    ghost var done: Bytes := [];
    while i < |chunks|
      invariant 0 <= i <= |chunks|
      invariant done + Concat(chunks[i..]) == Concat(chunks)
      invariant target == done[..Min(|done|, maximum + 1)]
      invariant overflow <==> |done| > maximum
    {
      var chunk := chunks[i];
      TakeMore(done, chunk, maximum);
      NextChunk(chunks, i, done);
      var remaining := maximum + 1 - |target|;
      if remaining > 0 { target := target + chunk[..Min(remaining, |chunk|)]; }
      if |target| > maximum { overflow := true; }
      done := done + chunk;
      i := i + 1;
    }
    assert chunks[i..] == [] && done + [] == done;
  }

  /** The bounded prefix grows by what still fits. */
  lemma TakeMore(done: Bytes, chunk: Bytes, maximum: nat)
    ensures var kept, next := done[..Min(|done|, maximum + 1)], done + chunk;
            next[..Min(|next|, maximum + 1)]
            == if |kept| < maximum + 1 then kept + chunk[..Min(maximum + 1 - |kept|, |chunk|)] else kept
  {
    if |done| < maximum + 1 { assert done[..|done|] == done; }
  }

  datatype JoinResult = JoinStopped | JoinAlive | JoinError
  datatype CloseResult = CloseOk | CloseOsError | CloseOther

  /** `_join_and_close_gh_readers`: readers were attempted in order, streams are given by position.
      A stream is closed only if no reader was attempted for it or its reader is proven stopped. */
  method JoinAndClose(joins: seq<JoinResult>, closes: seq<CloseResult>)
    returns (ok: bool, raised: bool, tried: seq<bool>)
    requires |joins| <= |closes|
    ensures |tried| == |closes|
    ensures forall i | 0 <= i < |closes| :: tried[i] <==> i >= |joins| || joins[i] == JoinStopped
    ensures raised <==> (|| (exists i :: 0 <= i < |joins| && joins[i] == JoinError)
                         || (exists i :: 0 <= i < |closes| && tried[i] && closes[i] == CloseOther))
    ensures ok <==> && (forall i | 0 <= i < |joins| :: joins[i] == JoinStopped)
                    && (forall i | 0 <= i < |closes| :: closes[i] == CloseOk)
  {
    var stopped: seq<bool> := [];
    var firstError := false;
    var i := 0;
    while i < |joins|
      invariant 0 <= i <= |joins| && |stopped| == i
      invariant forall k | 0 <= k < i :: stopped[k] <==> joins[k] == JoinStopped
      invariant firstError <==> exists k :: 0 <= k < i && joins[k] == JoinError
    {
      stopped := stopped + [joins[i] == JoinStopped];
      if joins[i] == JoinError { firstError := true; }
      i := i + 1;
    }
    var streamsClosed, allStopped := true, forall k | 0 <= k < |stopped| :: stopped[k];
    ghost var joinError := firstError;
    tried := [];
    var j := 0;
    while j < |closes|
      invariant 0 <= j <= |closes| && |tried| == j
      invariant forall k | 0 <= k < j :: tried[k] <==> k >= |joins| || joins[k] == JoinStopped
      invariant streamsClosed <==> forall k | 0 <= k < j :: tried[k] && closes[k] == CloseOk
      invariant firstError <==> joinError || exists k :: 0 <= k < j && tried[k] && closes[k] == CloseOther
    {
      var safe := j >= |stopped| || stopped[j];
      tried := tried + [safe];
      if !safe || closes[j] != CloseOk { streamsClosed := false; }
      if safe && closes[j] == CloseOther { firstError := true; }
      j := j + 1;
    }
    ok, raised := allStopped && streamsClosed, firstError;
  }

  // ----- the loops and the machine

  /** A reader that receives the given chunks one after the other. */
  function ReceiveAll(p: Pipe, chunks: seq<Bytes>): Pipe
    requires p.pos + |Concat(chunks)| <= |p.stream|
    decreases |chunks|
  {
    if chunks == [] then p else ReceiveAll(Receive(p, |chunks[0]|), chunks[1..])
  }

  lemma {:induction false} ReceiveAllOk(p: Pipe, chunks: seq<Bytes>)
    requires PipeOk(p) && p.reader.Running? && !p.closed && p.pos + |Concat(chunks)| <= |p.stream|
    ensures var q := ReceiveAll(p, chunks);
            PipeOk(q) && q.pos == p.pos + |Concat(chunks)| && q.stream == p.stream && q.maximum == p.maximum
    decreases |chunks|
  {
    if chunks != [] {
      ReceiveOk(p, |chunks[0]|);
      ReceiveAllOk(Receive(p, |chunks[0]|), chunks[1..]);
    }
  }

  /** `Drain` computes what the reader of the machine does with the same chunks. */
  lemma DrainIsReceive(stream: Bytes, maximum: nat, chunks: seq<Bytes>, target: Bytes, overflow: bool)
    requires Concat(chunks) <= stream
    requires target == Concat(chunks)[..Min(|Concat(chunks)|, maximum + 1)]
             && (overflow <==> |Concat(chunks)| > maximum)
    ensures var q := ReceiveAll(Fresh(stream, maximum).(attempted := true, reader := Running), chunks);
            q.buffer == target && q.overflow == overflow
  {
    var p := Fresh(stream, maximum).(attempted := true, reader := Running);
    assert PipeOk(p);
    ReceiveAllOk(p, chunks);
    var n := Min(|Concat(chunks)|, maximum + 1);
    assert stream[..n] == Concat(chunks)[..n];
  }

  /** What the join loop reports about a reader is true: a reader it calls stopped has stopped. */
  ghost predicate Truthful(s: State, joins: seq<JoinResult>) {
    && |joins| == (if s.err.attempted then 2 else if s.out.attempted then 1 else 0)
    && (s.err.attempted ==> s.out.attempted)
    && (|joins| > 0 && joins[0] == JoinStopped ==> Stopped(s.out.reader))
    && (|joins| > 1 && joins[1] == JoinStopped ==> Stopped(s.err.reader))
  }

  function Closed(p: Pipe, tried: bool, close: CloseResult): Pipe {
    p.(closed := p.closed || (tried && close == CloseOk))
  }

  /** `JoinAndClose` makes a join step of the machine: by its contract a pipe is closed only when its attempted reader
      has stopped. */
  lemma JoinAndCloseIsJoin(s: State, joins: seq<JoinResult>, closes: seq<CloseResult>, ok: bool, tried: seq<bool>)
    requires |closes| == 2 && |tried| == 2 && Truthful(s, joins)
    requires forall i | 0 <= i < |closes| :: tried[i] <==> i >= |joins| || joins[i] == JoinStopped
    requires ok <==> && (forall i | 0 <= i < |joins| :: joins[i] == JoinStopped)
                     && (forall i | 0 <= i < |closes| :: closes[i] == CloseOk)
    ensures Joined(s, Closed(s.out, tried[0], closes[0]), Closed(s.err, tried[1], closes[1]), ok)
  {
    assert tried[0] <==> 0 >= |joins| || joins[0] == JoinStopped;
    assert tried[1] <==> 1 >= |joins| || joins[1] == JoinStopped;
    if ok { assert closes[0] == CloseOk && closes[1] == CloseOk; }
  }
}
