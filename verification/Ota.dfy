/**
 The OTA session: a Python thread streams an image through a bounded buffer
 to a background task, and an eof flag ends the stream.  The two threads are
 interleaved statement by statement.
 */
module Ota {
  import opened Prelude

  datatype Outcome = Pending | Ok | Err

  /** Where the Python thread is: outside a call, in write()'s loop, or in finish(). */
  datatype Writer =
    | Ready
    | Testing(rest: seq<byte>)  // write() is about to look at `result`
    | Sending(rest: seq<byte>)  // write() is in xStreamBufferSend
    | SettingEof                // finish() has set `finished`
    | Waiting                   // finish() waits for the OTA task

  /** Where the OTA task is: in the SDK, in the read callback, or past ota_start. */
  datatype Task =
    | InSdk
    | Receiving(len: nat)       // the blocking receive, with its 50 ms timeout
    | TestingEof(len: nat)
    | Draining(len: nat)        // the final receive, which does not block
    | Giving                    // `result` is set, sem_done is not given yet
    | Gone

  /**
   `written` is every byte the stream buffer ever accepted, `delivered` every
   non-empty chunk the callback returned, `sawEof` whether it has returned 0.
   */
  datatype Session = Session(
    cap: nat, stream: seq<byte>, eof: bool, finished: bool, result: Outcome, semDone: bool,
    writer: Writer, task: Task,
    written: seq<byte>, delivered: seq<seq<byte>>, sawEof: bool)

  datatype Event =
    | CallWrite(data: seq<byte>)
    | TestResult
    | Send(count: nat)          // xStreamBufferSend returns `count` (0 after a timeout)
    | CallFinish
    | SetEof
    | Wake                      // finish() obtains sem_done
    | CallRead(len: nat)        // ota_start calls the read callback
    | Receive
    | TestEof
    | Drain
    | Finish(ok: bool)          // ota_start returns
    | Give

  function Open(cap: nat): Session {
    Session(cap, [], false, false, Pending, false, Ready, InSdk, [], [], false)
  }

  /** xStreamBufferReceive with data available: at most `len` of the oldest bytes. */
  function Chunk(s: Session, len: nat): (n: nat)
    ensures n <= |s.stream|
  {
    Min(len, |s.stream|)
  }

  function Deliver(s: Session, len: nat): Session {
    var n := Chunk(s, len);
    s.(stream := s.stream[n..], delivered := s.delivered + [s.stream[..n]], task := InSdk)
  }

  /** An event whose thread is somewhere else leaves the session as it is. */
  function Step(s: Session, e: Event): Session {
    match e
    case CallWrite(data) =>
      if s.writer.Ready? && !s.finished && s.result.Pending? && data != [] then s.(writer := Testing(data)) else s
    case TestResult =>
      if !s.writer.Testing? then s
      else s.(writer := if s.result.Pending? then Sending(s.writer.rest) else Ready)
    case Send(n) =>
      if !s.writer.Sending? || Min(|s.writer.rest|, s.cap - |s.stream|) < n then s
      else
        var rest := s.writer.rest;
        s.(stream := s.stream + rest[..n], written := s.written + rest[..n],
           writer := if n == |rest| then Ready else Testing(rest[n..]))
    case CallFinish =>
      if s.writer.Ready? && !s.finished then s.(finished := true, writer := SettingEof) else s
    case SetEof =>
      if s.writer.SettingEof? then s.(eof := true, writer := Waiting) else s
    case Wake =>
      if s.writer.Waiting? && s.semDone then s.(semDone := false, writer := Ready) else s
    case CallRead(len) =>
      if s.task.InSdk? && 0 < len then s.(task := Receiving(len)) else s
    case Receive =>
      if !s.task.Receiving? then s
      else if s.stream != [] then Deliver(s, s.task.len)
      else s.(task := TestingEof(s.task.len))
    case TestEof =>
      if !s.task.TestingEof? then s
      else s.(task := if s.eof then Draining(s.task.len) else Receiving(s.task.len))
    case Drain =>
      if !s.task.Draining? then s
      else if s.stream != [] then Deliver(s, s.task.len)
      else s.(task := InSdk, sawEof := true)
    case Finish(ok) =>
      if s.task.InSdk? then s.(result := if ok then Ok else Err, task := Giving) else s
    case Give =>
      if s.task.Giving? then s.(semDone := true, task := Gone) else s
  }

  function Run(s: Session, events: seq<Event>): Session
    decreases |events|
  {
    if events == [] then s else Step(Run(s, events[..|events| - 1]), events[|events| - 1])
  }

  ghost predicate Streaming(s: Session) {
    && |s.stream| <= s.cap
    && Flatten(s.delivered) + s.stream == s.written
    && (forall chunk | chunk in s.delivered :: chunk != [])
    && (s.finished ==> !s.writer.Testing? && !s.writer.Sending?)
    && (s.writer.SettingEof? || s.writer.Waiting? ==> s.finished)
    && (s.eof ==> s.finished && !s.writer.SettingEof?)
    && ((s.writer.Testing? || s.writer.Sending?) ==> s.writer.rest != [])
    && ((s.task.Receiving? || s.task.TestingEof? || s.task.Draining?) ==> 0 < s.task.len)
    && (s.task.Draining? ==> s.eof)
    && (s.sawEof ==> s.eof && s.stream == [])
    && (s.result.Pending? <==> !s.task.Giving? && !s.task.Gone?)
    && (s.semDone ==> s.task.Gone?)
  }

  lemma DeliverKeepsBytes(s: Session, len: nat)
    requires Flatten(s.delivered) + s.stream == s.written
    ensures Flatten(Deliver(s, len).delivered) + Deliver(s, len).stream == s.written
  {
    var n := Chunk(s, len);
    FlattenSnoc(s.delivered, s.stream[..n]);
    Assoc(Flatten(s.delivered), s.stream[..n], s.stream[n..]);
    assert s.stream[..n] + s.stream[n..] == s.stream;
  }

  lemma StepStreams(s: Session, e: Event)
    requires Streaming(s)
    ensures Streaming(Step(s, e))
  {
    hide Flatten;
    match e
    case Send(n) =>
      if s.writer.Sending? && n <= Min(|s.writer.rest|, s.cap - |s.stream|) {
        Assoc(Flatten(s.delivered), s.stream, s.writer.rest[..n]);
      }
    case Receive => if s.task.Receiving? { DeliverKeepsBytes(s, s.task.len); }
    case Drain => if s.task.Draining? { DeliverKeepsBytes(s, s.task.len); }
    case _ =>
  }

  /**
   Main result: for every schedule of partial sends, timeouts, reads and
   finish(), the chunks handed to the OTA task are a prefix of what was
   written, and when the callback has returned 0 they are all of it, finish()
   has been called, and nothing can be written any more.
   */
  lemma {:induction false} NothingLost(s: Session, events: seq<Event>)
    requires Streaming(s)
    ensures var t := Run(s, events);
      && Streaming(t)
      && Flatten(t.delivered) <= t.written
      && (t.sawEof ==> Flatten(t.delivered) == t.written && t.eof && t.finished)
    decreases |events|
  {
    if events != [] {
      NothingLost(s, events[..|events| - 1]);
      StepStreams(Run(s, events[..|events| - 1]), events[|events| - 1]);
    }
    var t := Run(s, events);
    assert t.stream == [] ==> Flatten(t.delivered) + t.stream == Flatten(t.delivered);
  }

  lemma StepAfterFinish(s: Session, e: Event)
    requires Streaming(s) && s.finished
    ensures Step(s, e).written == s.written && Step(s, e).finished
  {
    hide Flatten;
  }

  /** Once finish() has been called, no byte is accepted any more. */
  lemma {:induction false} FinishedIsFinal(s: Session, events: seq<Event>)
    requires Streaming(s) && s.finished
    ensures Run(s, events).written == s.written && Run(s, events).finished
    decreases |events|
  {
    if events != [] {
      var prefix := events[..|events| - 1];
      FinishedIsFinal(s, prefix);
      NothingLost(s, prefix);
      StepAfterFinish(Run(s, prefix), events[|events| - 1]);
    }
  }

  /**
   The OTA task is not kept waiting: after eof, the callback returns a chunk at
   most once for each byte that is still in the stream.
   */
  lemma {:induction false} EofEndsStream(s: Session, events: seq<Event>)
    requires Streaming(s) && s.eof
    ensures var t := Run(s, events);
      t.eof && |s.delivered| <= |t.delivered| && |t.delivered| - |s.delivered| + |t.stream| <= |s.stream|
    decreases |events|
  {
    if events != [] {
      var prefix := events[..|events| - 1];
      EofEndsStream(s, prefix);
      NothingLost(s, prefix);
      EofShrinks(Run(s, prefix), events[|events| - 1]);
    }
  }

  lemma EofShrinks(s: Session, e: Event)
    requires Streaming(s) && s.eof
    ensures var t := Step(s, e);
      t.eof && |s.delivered| <= |t.delivered| && |t.delivered| - |s.delivered| + |t.stream| <= |s.stream|
  {
    hide Flatten;
  }

  /** With eof set and the stream empty, the callback's next three statements return 0. */
  lemma EmptyStreamEnds(s: Session)
    requires Streaming(s) && s.eof && s.stream == [] && s.task.Receiving?
    ensures Step(Step(Step(s, Receive), TestEof), Drain).sawEof
  {
  }

  predicate InCallback(task: Task) {
    task.Receiving? || task.TestingEof? || task.Draining?
  }

  /** The callback's own next statement. */
  function Own(s: Session): Session {
    match s.task
    case Receiving(_) => Step(s, Receive)
    case TestingEof(_) => Step(s, TestEof)
    case Draining(_) => Step(s, Drain)
    case _ => s
  }

  /**
   The callback does not poll in vain: wherever it is, its next three
   statements return if and only if there is data or eof.  With data it is the
   oldest `len` bytes, or all there are; without, it is the 0 that ends the image.
   */
  lemma CallbackReturns(s: Session)
    requires Streaming(s) && InCallback(s.task)
    ensures var v := Own(Own(Own(s)));
      && (v.task.InSdk? <==> s.stream != [] || s.eof)
      && (s.stream != [] ==>
            v.delivered == s.delivered + [s.stream[..Min(s.task.len, |s.stream|)]] && v.sawEof == s.sawEof)
      && (s.stream == [] ==> v.delivered == s.delivered && (v.sawEof <==> s.sawEof || s.eof))
  {
    assert s.task.Draining? ==> s.eof;
    hide Streaming, Flatten;
  }

  lemma StepAfterResult(s: Session, e: Event)
    requires Streaming(s) && !s.result.Pending?
    ensures Step(s, e).result == s.result
    ensures !s.writer.Sending? ==> Step(s, e).written == s.written && !Step(s, e).writer.Sending?
  {
    hide Flatten;
  }

  /** The OTA task's verdict is never changed, and once it is there no pass of write() sends anything. */
  lemma {:induction false} ResultIsFinal(s: Session, ok: bool, events: seq<Event>)
    requires Streaming(s) && s.task.InSdk?
    ensures var v := Run(Step(s, Finish(ok)), events);
      && v.result == (if ok then Ok else Err)
      && (!s.writer.Sending? ==> v.written == s.written && !v.writer.Sending?)
    decreases |events|
  {
    var t := Step(s, Finish(ok));
    StepStreams(s, Finish(ok));
    if events != [] {
      var front := events[..|events| - 1];
      ResultIsFinal(s, ok, front);
      NothingLost(t, front);
      hide Streaming;
      StepAfterResult(Run(t, front), events[|events| - 1]);
    }
  }

  /** finish() gets going again with the task's last statement, and not before. */
  lemma GiveEndsFinish(s: Session)
    requires Streaming(s) && s.writer.Waiting?
    ensures !s.task.Gone? ==> Step(s, Wake) == s
    ensures s.task.Giving? ==> Step(Step(s, Give), Wake).writer.Ready?
  {
    hide Flatten;
  }

  /** A pass of write() puts into the stream what fits, and the call is over exactly if that is all of it. */
  lemma PassFillsStream(s: Session)
    requires Streaming(s) && s.writer.Testing? && s.result.Pending?
    ensures var rest := s.writer.rest; var n := Min(|rest|, s.cap - |s.stream|);
      var v := Step(Step(s, TestResult), Send(n));
      && v.stream == s.stream + rest[..n] && v.written == s.written + rest[..n]
      && (v.writer.Ready? <==> |rest| <= s.cap - |s.stream|)
      && (!v.writer.Ready? ==> |v.stream| == s.cap && v.writer == Testing(rest[n..]))
  {
    hide Flatten;
  }

  /**
   Why the callback receives once more after it has seen eof: a byte sent
   between the timed-out receive and the eof test is still in the stream.
   */
  lemma EofTestAloneLosesBytes(s: Session, b: byte)
    requires Streaming(s) && 0 < s.cap && s.stream == [] && s.task.Receiving?
    requires s.writer.Ready? && !s.finished && s.result.Pending?
    ensures var sent := Step(Step(Step(Step(s, Receive), CallWrite([b])), TestResult), Send(1));
      var t := Step(Step(Step(sent, CallFinish), SetEof), TestEof);
      t.task.Draining? && t.eof && t.written == s.written + [b] && t.delivered == s.delivered && t.stream == [b]
  {
    var timedOut := Step(s, Receive);
    var sent := Step(Step(Step(timedOut, CallWrite([b])), TestResult), Send(1));
    assert sent == timedOut.(stream := [b], written := s.written + [b]) by {
      assert [] + [b][..1] == [b];
    }
    var t := Step(Step(Step(sent, CallFinish), SetEof), TestEof);
  }
}
