/**
 ameba.OTA as the driver executes it: write() and finish() on the Python
 thread and the read callback on the OTA task, each with the other thread's
 statements coming in between.
 */
module OtaDriver {
  import opened Prelude
  import opened Ota

  datatype WriteResult = Accepted | Ealready | Eio | StillSending

  datatype ReadResult = Chunk(bytes: seq<byte>) | EndOfFile | StillPolling | NoSession

  predicate ByTask(e: Event) {
    e.CallRead? || e.Receive? || e.TestEof? || e.Drain? || e.Finish? || e.Give?
  }

  /** What the other thread leaves alone. */
  predicate PythonStill(s: Session, t: Session) {
    t.writer == s.writer && t.written == s.written && t.eof == s.eof && t.finished == s.finished && t.cap == s.cap
  }

  predicate TaskStill(s: Session, t: Session) {
    t.task == s.task && t.delivered == s.delivered && t.sawEof == s.sawEof && t.result == s.result && t.cap == s.cap
  }

  lemma TaskStep(s: Session, e: Event)
    requires ByTask(e)
    ensures PythonStill(s, Step(s, e)) && |Step(s, e).stream| <= |s.stream|
  {
  }

  lemma PythonStep(s: Session, e: Event)
    requires Streaming(s) && !ByTask(e)
    ensures TaskStill(s, Step(s, e)) && s.written <= Step(s, e).written
  {
    hide Flatten;
  }

  /** Sending n more bytes after the first `ptr` of the data. */
  lemma SendMore(before: seq<byte>, data: seq<byte>, ptr: nat, n: nat)
    requires ptr + n <= |data|
    ensures before + data[..ptr] + data[ptr..][..n] == before + data[..ptr + n]
    ensures data[ptr..][n..] == data[ptr + n..]
    ensures before + data[..ptr] + data[ptr..] == before + data
  {
    assert data[..ptr] + data[ptr..] == data;
    Assoc(before, data[..ptr], data[ptr..]);
    assert data[..ptr] + data[ptr..][..n] == data[..ptr + n];
    Assoc(before, data[..ptr], data[ptr..][..n]);
  }

  class OtaSession {
    const cap: nat
    // Shared between the two threads.
    var stream: seq<byte>
    var eof: bool
    var finished: bool
    var result: Outcome
    var semDone: bool
    var active: bool  // the port's ota_active is this session
    // Where each thread is.
    var writer: Writer
    var task: Task
    ghost var written: seq<byte>
    ghost var delivered: seq<seq<byte>>
    ghost var sawEof: bool

    ghost function Model(): Session
      reads this
    {
      Session(cap, stream, eof, finished, result, semDone, writer, task, written, delivered, sawEof)
    }

    ghost predicate Valid()
      reads this
    {
      0 < cap && Streaming(Model())
    }

    /** The success path of ameba_ota_make_new. */
    constructor ()
      ensures Valid() && Model() == Open(8192) && active
    {
      cap := 8 * 1024;
      active := true;
      stream, eof, finished, result, semDone := [], false, false, Pending, false;
      writer, task := Ready, InSdk;
      written, delivered, sawEof := [], [], false;
    }

    /** One statement of the Python thread. */
    method PythonDo(e: Event)
      requires Valid() && !ByTask(e)
      modifies this
      ensures Valid() && Model() == Step(old(Model()), e) && active == old(active)
    {
      StepStreams(Model(), e);
      hide Streaming, Flatten;
      match e
      case CallWrite(data) =>
        if writer.Ready? && !finished && result.Pending? && data != [] { writer := Testing(data); }
      case TestResult =>
        if writer.Testing? { writer := if result.Pending? then Sending(writer.rest) else Ready; }
      case Send(n) =>
        if writer.Sending? && n <= Min(|writer.rest|, cap - |stream|) {
          var rest := writer.rest;
          stream, written := stream + rest[..n], written + rest[..n];
          writer := if n == |rest| then Ready else Testing(rest[n..]);
        }
      case CallFinish =>
        if writer.Ready? && !finished { finished, writer := true, SettingEof; }
      case SetEof =>
        if writer.SettingEof? { eof, writer := true, Waiting; }
      case Wake =>
        if writer.Waiting? && semDone { semDone, writer := false, Ready; }
    }

    /** One statement of the OTA task. */
    method TaskDo(e: Event)
      requires Valid() && ByTask(e)
      modifies this
      ensures Valid() && Model() == Step(old(Model()), e) && active == old(active)
    {
      StepStreams(Model(), e);
      hide Streaming, Flatten;
      match e
      case CallRead(len) =>
        if task.InSdk? && 0 < len { task := Receiving(len); }
      case Receive =>
        if task.Receiving? {
          if stream != [] { var _ := TakeChunk(task.len); } else { task := TestingEof(task.len); }
        }
      case TestEof =>
        if task.TestingEof? { task := if eof then Draining(task.len) else Receiving(task.len); }
      case Drain =>
        if task.Draining? {
          if stream != [] { var _ := TakeChunk(task.len); } else { task, sawEof := InSdk, true; }
        }
      case Finish(ok) =>
        if task.InSdk? { result, task := if ok then Outcome.Ok else Err, Giving; }
      case Give =>
        if task.Giving? { semDone, task := true, Gone; }
    }

    /** One statement of either thread. */
    method Do(e: Event)
      requires Valid()
      modifies this
      ensures Valid() && Model() == Step(old(Model()), e) && active == old(active)
    {
      hide Streaming, Step;
      if ByTask(e) {
        TaskDo(e);
      } else {
        PythonDo(e);
      }
    }

    /** xStreamBufferReceive from a stream that is not empty. */
    method TakeChunk(len: nat) returns (bytes: seq<byte>)
      requires stream != []
      modifies `stream, `delivered, `task
      ensures Model() == Deliver(old(Model()), len)
      ensures bytes == old(stream)[..Min(len, |old(stream)|)] && delivered == old(delivered) + [bytes]
    {
      var n := Min(len, |stream|);
      bytes := stream[..n];
      stream, delivered, task := stream[n..], delivered + [bytes], InSdk;
    }

    /** The OTA task runs for a while. */
    method TaskRuns(acts: seq<Event>)
      requires Valid()
      modifies this
      ensures Valid() && PythonStill(old(Model()), Model()) && |stream| <= |old(stream)| && active == old(active)
    {
      for k := 0 to |acts|
        invariant Valid() && PythonStill(old(Model()), Model()) && |stream| <= |old(stream)| && active == old(active)
      {
        if ByTask(acts[k]) {
          TaskStep(Model(), acts[k]);
          hide Step, Streaming;
          Do(acts[k]);
        }
      }
    }

    /** The Python thread runs for a while. */
    method PythonRuns(acts: seq<Event>)
      requires Valid()
      modifies this
      ensures Valid() && TaskStill(old(Model()), Model()) && old(written) <= written
    {
      for k := 0 to |acts|
        invariant Valid() && TaskStill(old(Model()), Model()) && old(written) <= written
      {
        if !ByTask(acts[k]) {
          PythonStep(Model(), acts[k]);
          hide Step, Streaming;
          Do(acts[k]);
        }
      }
    }

    /** One pass of the loop of write(): None if the OTA task has failed, else how much was sent. */
    method SendSome(rest: seq<byte>, limit: nat) returns (sent: Option<nat>)
      requires Valid() && writer == Testing(rest) && !finished
      modifies this
      ensures Valid() && finished == old(finished) && eof == old(eof)
      ensures result == old(result) && (sent.None? <==> !result.Pending?)
      ensures sent.None? ==> writer.Ready? && written == old(written)
      ensures sent.Some? ==> sent.value == Min(limit, Min(|rest|, cap - |old(stream)|))
      ensures sent.Some? ==> written == old(written) + rest[..sent.value] && |stream| == |old(stream)| + sent.value
      ensures sent.Some? ==> writer == if sent.value == |rest| then Ready else Testing(rest[sent.value..])
    {
      hide Flatten;
      Do(TestResult);
      if !result.Pending? {
        return None;
      }
      var n := Min(limit, Min(|rest|, cap - |stream|));
      Do(Send(n));
      return Some(n);
    }

    /**
     ameba_ota_write.  `env` is what the OTA task does before each pass and
     `accepts` the most each send takes; a call that returns has put exactly
     its data into the stream, and one that fails at most a prefix of it.  It
     fails exactly if the OTA task has returned, and goes on for the whole
     schedule as long as there is something left to send.
     */
    method Write(data: seq<byte>, env: seq<seq<Event>>, accepts: nat -> nat) returns (r: WriteResult, t: nat)
      requires Valid() && writer.Ready?
      modifies this
      ensures Valid() && finished == old(finished) && eof == old(eof)
      ensures r.Ealready? <==> old(finished)
      ensures r.Ealready? ==> Model() == old(Model())
      ensures !old(finished) && !old(result).Pending? ==> r == Eio && Model() == old(Model())
      ensures !old(finished) ==> (r.Eio? <==> !result.Pending?)
      ensures r.Accepted? ==> written == old(written) + data && writer.Ready?
      ensures r.Eio? ==> writer.Ready? && exists n :: 0 <= n <= |data| && written == old(written) + data[..n]
      ensures r.StillSending? ==> writer.Testing? && written + writer.rest == old(written) + data && t == |env|
      ensures r.StillSending? && env != [] && |data| <= accepts(|env| - 1) ==> |stream| == cap
    {
      t := 0;
      if finished {
        return Ealready, 0;
      }
      if !result.Pending? {
        assert written == written + data[..0];
        return Eio, 0;
      }
      if |data| == 0 {
        assert written == written + data;
        return Accepted, 0;
      }
      Do(CallWrite(data));
      r, t := SendAll(data, env, accepts);
    }

    /** The loop of ameba_ota_write, on a session that was found open. */
    method SendAll(data: seq<byte>, env: seq<seq<Event>>, accepts: nat -> nat) returns (r: WriteResult, t: nat)
      requires Valid() && writer == Testing(data) && data != [] && !finished && result.Pending?
      modifies this
      ensures Valid() && !finished && eof == old(eof) && !r.Ealready?
      ensures r.Eio? <==> !result.Pending?
      ensures r.Accepted? ==> written == old(written) + data && writer.Ready?
      ensures r.Eio? ==> writer.Ready? && exists n :: 0 <= n <= |data| && written == old(written) + data[..n]
      ensures r.StillSending? ==> writer.Testing? && written + writer.rest == old(written) + data && t == |env|
      ensures r.StillSending? && env != [] && |data| <= accepts(|env| - 1) ==> |stream| == cap
    {
      hide Streaming, Step, Flatten;
      var ptr: nat, remaining: nat := 0, |data|;
      t := 0;
      assert written == written + data[..0] && data == data[0..];
      while remaining > 0 && t < |env|
        invariant Valid() && !finished && eof == old(eof) && result.Pending? && t <= |env|
        invariant remaining > 0 && t > 0 && |data| <= accepts(t - 1) ==> |stream| == cap
        invariant ptr + remaining == |data| && written == old(written) + data[..ptr]
        invariant if remaining > 0 then writer == Testing(data[ptr..]) else writer.Ready?
        decreases |env| - t
      {
        TaskRuns(env[t]);
        var sent := SendSome(data[ptr..], accepts(t));
        if sent.None? {
          return Eio, t;
        }
        SendMore(old(written), data, ptr, sent.value);
        ptr, remaining, t := ptr + sent.value, remaining - sent.value, t + 1;
      }
      if remaining > 0 {
        SendMore(old(written), data, ptr, remaining);
        return StillSending, t;
      }
      assert data[..ptr] == data;
      return Accepted, t;
    }

    /** The blocking receive: a chunk, or nothing after the timeout. */
    method ReceiveOnce(len: nat) returns (bytes: seq<byte>)
      requires Valid() && task == Receiving(len)
      modifies this
      ensures Valid() && PythonStill(old(Model()), Model()) && result == old(result) && sawEof == old(sawEof)
      ensures bytes == old(stream)[..Min(len, |old(stream)|)] && (bytes == [] <==> old(stream) == [])
      ensures bytes == [] ==> task == TestingEof(len) && delivered == old(delivered)
      ensures bytes != [] ==> |bytes| <= len && delivered == old(delivered) + [bytes] && task.InSdk?
    {
      hide Flatten;
      bytes := stream[..Min(len, |stream|)];
      Do(Receive);
    }

    /** The eof test and the final receive: None if the callback goes on polling. */
    method LookAtEof(len: nat) returns (r: Option<ReadResult>)
      requires Valid() && task == TestingEof(len) && !sawEof
      modifies this
      ensures Valid() && PythonStill(old(Model()), Model()) && result == old(result)
      ensures r.None? <==> !eof
      ensures r.None? ==> task == Receiving(len) && !sawEof && delivered == old(delivered)
      ensures r.Some? ==> (r.value.EndOfFile? <==> old(stream) == [])
      ensures r.Some? ==> task.InSdk? && (r.value.Chunk? || r.value.EndOfFile?)
      ensures r.Some? && r.value.Chunk? ==>
        && r.value.bytes == old(stream)[..Min(len, |old(stream)|)]
        && 0 < |r.value.bytes| <= len && delivered == old(delivered) + [r.value.bytes] && !sawEof
      ensures r.Some? && r.value.EndOfFile? ==>
        sawEof && eof && finished && stream == [] && delivered == old(delivered) && Flatten(delivered) == written
    {
      hide Flatten;
      Do(TestEof);
      if !eof {
        return None;
      }
      var bytes := stream[..Min(len, |stream|)];
      Do(Drain);
      if |bytes| > 0 {
        return Some(Chunk(bytes));
      }
      NothingLost(Model(), []);
      return Some(EndOfFile);
    }

    method EnterRead(len: nat)
      requires Valid() && task.InSdk? && 0 < len
      modifies this
      ensures Valid() && PythonStill(old(Model()), Model()) && task == Receiving(len)
      ensures result == old(result) && sawEof == old(sawEof) && delivered == old(delivered) && active == old(active)
    {
      hide Streaming;
      Do(CallRead(len));
    }

    /**
     ota_user_read_cb: -1 without an active session; else it returns a
     non-empty chunk of at most `len` bytes, or 0 when all that was ever written
     has been delivered and nothing more can be written.  It goes on for the
     whole schedule as long as there is neither data nor eof.
     */
    method UserRead(len: nat, env: seq<seq<Event>>) returns (r: ReadResult, t: nat)
      requires Valid() && task.InSdk? && 0 < len && !sawEof
      modifies this
      ensures Valid() && result == old(result) && old(written) <= written
      ensures r.NoSession? <==> !old(active)
      ensures r.NoSession? ==> Model() == old(Model())
      ensures r.Chunk? ==> 0 < |r.bytes| <= len && delivered == old(delivered) + [r.bytes] && task.InSdk? && !sawEof
      ensures r.EndOfFile? ==>
        && task.InSdk? && sawEof && eof && finished && stream == []
        && delivered == old(delivered) && Flatten(delivered) == written
      ensures r.StillPolling? ==> task == Receiving(len) && delivered == old(delivered) && t == |env|
      ensures r.StillPolling? && env != [] ==> !eof
    {
      hide Flatten, Step, Streaming;
      t := 0;
      if !active {
        return NoSession, 0;
      }
      EnterRead(len);
      while t < |env|
        invariant Valid() && task == Receiving(len) && !sawEof && result == old(result)
        invariant delivered == old(delivered) && old(written) <= written
        invariant t <= |env| && (0 < t ==> !eof)
        decreases |env| - t
      {
        PythonRuns(env[t]);
        t := t + 1;
        var bytes := ReceiveOnce(len);
        if |bytes| > 0 {
          return Chunk(bytes), t;
        }
        if t < |env| {
          PythonRuns(env[t]);
          t := t + 1;
        }
        var last := LookAtEof(len);
        if last.Some? {
          return last.value, t;
        }
      }
      return StillPolling, t;
    }

    /** ameba_ota_finish; None while the OTA task has not finished by the end of the schedule. */
    method FinishSession(env: seq<seq<Event>>) returns (r: Option<WriteResult>, t: nat)
      requires Valid() && writer.Ready?
      modifies this
      ensures Valid() && finished && written == old(written)
      ensures old(finished) ==> r == Some(Ealready) && Model() == old(Model()) && active == old(active)
      ensures !old(finished) ==> eof && active == (old(active) && r.None?)
      ensures !old(finished) && r.Some? ==>
        task.Gone? && writer.Ready? && !semDone && r == Some(if result.Ok? then Accepted else Eio)
      ensures r.None? ==> writer.Waiting? && !semDone && |env| <= t
    {
      hide Flatten;
      t := 0;
      if finished {
        return Some(Ealready), 0;
      }
      Do(CallFinish);
      if |env| > 0 { TaskRuns(env[0]); }
      Do(SetEof);
      t := 1;
      while !semDone && t < |env|
        invariant Valid() && finished && eof && writer.Waiting? && written == old(written) && active == old(active)
      {
        TaskRuns(env[t]);
        t := t + 1;
      }
      if !semDone {
        return None, t;
      }
      Do(Wake);
      active := false;
      if !result.Ok? {
        return Some(Eio), t;
      }
      return Some(Accepted), t;
    }
  }
}
