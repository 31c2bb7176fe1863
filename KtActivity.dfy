/**
 * app/src/main/kotlin/com/locatible/qrcodereader/MainActivity.kt: the view
 * model's toggle and the VideoProcessor whose processVideo reconnects while
 * running, clears the engine session on every valid frame whose counter
 * satisfies `i and 0xfff == 0xfff`, and at end of stream clears the session and
 * shows Done.
 */
module KtActivity {
  import opened Media
  import opened Session

  // ---------------------------------------------------------------------------
  // The loops as functions

  /** The clear rule `i and 0xfff == 0xfff` on the Int counter `i`, read off
      the count's twelve low bits; ClearDueIsMask shows it is the source's test. */
  predicate ClearDue(i: nat) {
    LowBits(i) == ClearCycle
  }

  /** The clear rule is the source's mask test on the 32-bit counter, wrap-around
      included: the counter is 4095 modulo 4096. */
  lemma ClearDueIsMask(i: nat)
    ensures ClearDue(i) <==> Masked(i) == ClearCycle
    ensures ClearDue(i) <==> i % 4096 == ClearCycle
  {
    LowBitsIsMod(i);
  }

  /** How the inner (per-frame) loop ended. */
  datatype Exit = EndOfStream | StopSeen | Crash

  /** One pass of the inner loop's body, after `running` was read true: grab a
      frame; at end of stream clear the session and show Done; otherwise accept
      the frame, clear the session on a valid frame whose counter has its twelve
      low bits set, and count the frame. Some(exit) when the loop is left. */
  function Iterate(w: World, frames: seq<Frame>, engine: seq<Call> -> Reply): (r: (World, Option<Exit>))
    ensures r.1 != Some(StopSeen)
    ensures r.0.running == w.running && r.0.countdown == w.countdown
    ensures r.1.None? ==> r.0.cycle == w.cycle + 1
    ensures r.1 != None ==> r.0.cycle == w.cycle
    ensures w.cycle <= |frames| ==> r.0.cycle <= |frames|
    ensures w.calls <= r.0.calls
    ensures r.1 == Some(Crash) ==> w.cycle < |frames|
  {
    if w.cycle >= |frames| then
      (w.(calls := w.calls + [Clear], status := Done), Some(EndOfStream))
    else
      var (w2, res) := Accept(w, frames[w.cycle], engine);
      if res == Crashed then (w2, Some(Crash))
      else
        var w3 := if res == Submitted && ClearDue(w.cycle)
                  then w2.(calls := w2.calls + [Clear]) else w2;
        (w3.(cycle := w.cycle + 1), None)
  }

  /** The inner loop of one connection, from the state before a read of `running`. */
  function Inner(w: World, frames: seq<Frame>, engine: seq<Call> -> Reply): (r: (World, Exit))
    ensures Fuel(r.0) <= Fuel(w)
    ensures w.running ==> Fuel(r.0) < Fuel(w)
    ensures w.calls <= r.0.calls && w.cycle <= r.0.cycle
    ensures w.cycle <= |frames| ==> r.0.cycle <= |frames|
    ensures r.1 == StopSeen ==> !r.0.running
    ensures r.1 == Crash ==> r.0.cycle < |frames|
    decreases Fuel(w)
  {
    var (w1, go) := Poll(w);
    if !go then (w1, StopSeen)
    else
      var (w2, exit) := Iterate(w1, frames, engine);
      if exit.Some? then (w2, exit.value) else Inner(w2, frames, engine)
  }

  /** One pass of the outer loop after `running` was read true (the `use`
      block): open the configured locator, describe the video, show Streaming
      and run the inner loop. False when an exception leaves it. */
  function Connect(w: World, url: string, decoder: seq<Call> -> Connection, engine: seq<Call> -> Reply)
    : (r: (World, bool))
    ensures Fuel(r.0) <= Fuel(w)
    ensures w.calls <= r.0.calls
  {
    var calls := w.calls + [Open(OpenVideo(url))];
    match decoder(calls)
    case OpenFailed => (w.(calls := calls), false)
    case Opened(v) =>
      var w2 := w.(calls := calls, desc := Describe(w.desc, v), status := Streaming, cycle := 0);
      var (w3, exit) := Inner(w2, v.frames, engine);
      (w3, exit != Crash)
  }

  /** processVideo: the outer (reconnecting) loop, from the state before a read
      of `running`. */
  function Process(w: World, url: string, decoder: seq<Call> -> Connection, engine: seq<Call> -> Reply)
    : (r: (World, Outcome))
    ensures r.1 == Returned ==> !r.0.running
    ensures Fuel(r.0) <= Fuel(w)
    ensures w.calls <= r.0.calls
    decreases Fuel(w)
  {
    var (w1, go) := Poll(w);
    if !go then (w1, Returned)
    else
      var (w2, ok) := Connect(w1, url, decoder, engine);
      if !ok then (w2, Threw) else Process(w2, url, decoder, engine)
  }

  /** processVideo: a fresh empty frame buffer, then the outer loop. */
  function ProcessVideoFrom(w: World, url: string, decoder: seq<Call> -> Connection, engine: seq<Call> -> Reply)
    : (r: (World, Outcome))
    ensures r.1 == Returned ==> !r.0.running
    ensures w.calls <= r.0.calls
  {
    Process(w.(data := []), url, decoder, engine)
  }

  // ---------------------------------------------------------------------------
  // What the loops keep

  lemma IterateKeepsInv(w: World, frames: seq<Frame>, engine: seq<Call> -> Reply, initial: string)
    requires Inv(w, engine, initial)
    ensures Inv(Iterate(w, frames, engine).0, engine, initial)
    ensures Later(w, Iterate(w, frames, engine).0)
  {
    if w.cycle >= |frames| {
      LogKeepsInv(w, Clear, engine, initial);
    } else {
      var (w2, res) := Accept(w, frames[w.cycle], engine);
      AcceptKeepsInv(w, frames[w.cycle], engine, initial);
      if res == Submitted && ClearDue(w.cycle) {
        LogKeepsInv(w2, Clear, engine, initial);
      }
    }
  }

  lemma {:induction false} InnerKeepsInv(w: World, frames: seq<Frame>, engine: seq<Call> -> Reply, initial: string)
    requires Inv(w, engine, initial)
    ensures Inv(Inner(w, frames, engine).0, engine, initial)
    ensures Later(w, Inner(w, frames, engine).0)
    decreases Fuel(w)
  {
    var (w1, go) := Poll(w);
    if go {
      IterateKeepsInv(w1, frames, engine, initial);
      var (w2, exit) := Iterate(w1, frames, engine);
      if exit.None? {
        InnerKeepsInv(w2, frames, engine, initial);
      }
    }
  }

  /** One connection keeps the invariant and only extends the log. */
  lemma {:induction false} ConnectKeepsInv(w: World, url: string, decoder: seq<Call> -> Connection,
                                           engine: seq<Call> -> Reply, initial: string)
    requires Inv(w, engine, initial)
    ensures Inv(Connect(w, url, decoder, engine).0, engine, initial)
    ensures Later(w, Connect(w, url, decoder, engine).0)
  {
    var calls := w.calls + [Open(OpenVideo(url))];
    LogKeepsInv(w, Open(OpenVideo(url)), engine, initial);
    match decoder(calls)
    case OpenFailed =>
    case Opened(v) =>
      var w2 := w.(calls := calls, desc := Describe(w.desc, v), status := Streaming, cycle := 0);
      InnerKeepsInv(w2, v.frames, engine, initial);
  }

  /** Along a whole run the buffer never shrinks, always covers every submitted
      frame, and the view model shows the latest recognized code. */
  lemma {:induction false} ProcessKeepsInv(w: World, url: string, decoder: seq<Call> -> Connection,
                                           engine: seq<Call> -> Reply, initial: string)
    requires Inv(w, engine, initial)
    ensures Inv(Process(w, url, decoder, engine).0, engine, initial)
    ensures Later(w, Process(w, url, decoder, engine).0)
    decreases Fuel(w)
  {
    var (w1, go) := Poll(w);
    if go {
      ConnectKeepsInv(w1, url, decoder, engine, initial);
      var (w2, ok) := Connect(w1, url, decoder, engine);
      if ok {
        ProcessKeepsInv(w2, url, decoder, engine, initial);
      }
    }
  }


  /** A run of processVideo on a new processor: its buffer covers every frame it
      submitted and the view model shows the latest recognized code. */
  lemma ProcessVideoKeepsInv(w: World, url: string, decoder: seq<Call> -> Connection, engine: seq<Call> -> Reply)
    requires w.calls == []
    ensures Inv(ProcessVideoFrom(w, url, decoder, engine).0, engine, w.code)
  {
    ProcessKeepsInv(w.(data := []), url, decoder, engine, w.code);
  }

  // ---------------------------------------------------------------------------
  // The clear schedule

  /** How many frames in [lo, hi) are valid and have `j and 0xfff == 0xfff`. */
  function ScheduledClears(frames: seq<Frame>, lo: nat, hi: nat): nat
    requires lo <= hi <= |frames|
    decreases hi - lo
  {
    if lo == hi then 0
    else ScheduledClears(frames, lo, hi - 1)
         + (if Payload(frames[hi - 1]).Some? && ClearDue(hi - 1) then 1 else 0)
  }

  /** One pass clears the session once at end of stream, once after a valid
      frame whose counter has its twelve low bits set, and otherwise not. */
  lemma IterateClears(w: World, frames: seq<Frame>, engine: seq<Call> -> Reply)
    requires w.cycle <= |frames|
    ensures var r := Iterate(w, frames, engine); r.1 == Some(EndOfStream) <==> w.cycle == |frames|
    ensures var r := Iterate(w, frames, engine);
            Clears(r.0.calls) == Clears(w.calls)
                 + (if r.1 == Some(EndOfStream) then 1
                    else if r.1.None? && Payload(frames[w.cycle]).Some? && ClearDue(w.cycle) then 1
                    else 0)
  {
    if w.cycle < |frames| {
      var f := frames[w.cycle];
      var a := Accept(w, f, engine);
      if a.1 != Skipped {
        var p := Payload(f).value;
        ClearsSnoc(w.calls, Submit(w.desc.(memorySize := |p|), CopyIn(w.data, p)));
        assert Clears(a.0.calls) == Clears(w.calls);
        if a.1 == Submitted && ClearDue(w.cycle) {
          ClearsSnoc(a.0.calls, Clear);
        }
      }
    } else {
      ClearsSnoc(w.calls, Clear);
    }
  }

  /** Within one connection the session is cleared once for every valid frame
      whose counter has its twelve low bits set, and once more at end of stream. */
  lemma {:induction false} InnerClears(w: World, frames: seq<Frame>, engine: seq<Call> -> Reply)
    requires w.cycle <= |frames|
    ensures var r := Inner(w, frames, engine);
            Clears(r.0.calls) == Clears(w.calls) + ScheduledClears(frames, w.cycle, r.0.cycle)
                                 + (if r.1 == EndOfStream then 1 else 0)
    decreases Fuel(w)
  {
    var p := Poll(w);
    var w1 := p.0;
    if p.1 {
      IterateClears(w1, frames, engine);
      var it := Iterate(w1, frames, engine);
      assert Inner(w, frames, engine) == if it.1.Some? then (it.0, it.1.value) else Inner(it.0, frames, engine);
      if it.1.None? {
        InnerClears(it.0, frames, engine);
        var r := Inner(it.0, frames, engine);
        ScheduledFrom(frames, w.cycle, r.0.cycle);
      }
    }
  }

  /** Peeling the first index off a count of scheduled clears. */
  lemma {:induction false} ScheduledFrom(frames: seq<Frame>, lo: nat, hi: nat)
    requires lo < hi <= |frames|
    ensures ScheduledClears(frames, lo, hi)
            == (if Payload(frames[lo]).Some? && ClearDue(lo) then 1 else 0)
               + ScheduledClears(frames, lo + 1, hi)
    decreases hi - lo
  {
    if hi - 1 > lo {
      ScheduledFrom(frames, lo, hi - 1);
    }
  }

  /** When every frame is valid, the first n frames of a connection clear the
      session n / 4096 times: at counters 4095, 8191, and so on. */
  lemma {:induction false} AllValidClears(frames: seq<Frame>, n: nat)
    requires n <= |frames|
    requires forall j :: 0 <= j < |frames| ==> Payload(frames[j]).Some?
    ensures ScheduledClears(frames, 0, n) == n / 4096
  {
    if n > 0 {
      AllValidClears(frames, n - 1);
      LowBitsIsMod(n - 1);
    }
  }

  // ---------------------------------------------------------------------------
  // Submissions

  /** One pass hands the engine the payload of the frame it grabs when that
      frame has one, and nothing at end of stream or for a skipped frame. */
  lemma IterateSubmits(w: World, frames: seq<Frame>, engine: seq<Call> -> Reply)
    ensures var r := Iterate(w, frames, engine);
            Submissions(r.0.calls)
            == Submissions(w.calls)
               + (if w.cycle < |frames| && Payload(frames[w.cycle]).Some? then [Payload(frames[w.cycle]).value] else [])
  {
    if w.cycle < |frames| {
      var f := frames[w.cycle];
      var a := Accept(w, f, engine);
      if a.1 != Skipped {
        var p := Payload(f).value;
        SubmissionsSnoc(w.calls, Submit(w.desc.(memorySize := |p|), CopyIn(w.data, p)));
        assert Submissions(a.0.calls) == Submissions(w.calls) + [p];
        if a.1 == Submitted && ClearDue(w.cycle) {
          SubmissionsSnoc(a.0.calls, Clear);
        }
      }
    } else {
      SubmissionsSnoc(w.calls, Clear);
    }
  }

  /** How far into the stream the inner loop ended as `r` took frames: the
      counter, plus the frame whose submission threw. */
  function Taken(r: (World, Exit)): nat {
    if r.1 == Crash then r.0.cycle + 1 else r.0.cycle
  }

  /** Within one connection processFrame is called once for every frame with a
      payload and never for a skipped one, in stream order, each time with that
      frame's payload: the frames from the connection's counter up to where the
      loop stopped, and the frame whose submission threw. */
  lemma {:induction false} InnerSubmits(w: World, frames: seq<Frame>, engine: seq<Call> -> Reply)
    requires w.cycle <= |frames|
    ensures var r := Inner(w, frames, engine);
            w.cycle <= Taken(r) <= |frames|
            && Submissions(r.0.calls) == Submissions(w.calls) + Accepted(frames[w.cycle..Taken(r)])
    decreases Fuel(w)
  {
    var p := Poll(w);
    var w1 := p.0;
    if p.1 {
      IterateSubmits(w1, frames, engine);
      var it := Iterate(w1, frames, engine);
      assert Inner(w, frames, engine) == if it.1.Some? then (it.0, it.1.value) else Inner(it.0, frames, engine);
      if it.1.None? {
        InnerSubmits(it.0, frames, engine);
        var r := Inner(it.0, frames, engine);
        AcceptedFrom(frames, w.cycle, Taken(r));
        AppendChain(Submissions(w.calls), Submissions(it.0.calls), Submissions(r.0.calls),
                    if Payload(frames[w.cycle]).Some? then [Payload(frames[w.cycle]).value] else [],
                    Accepted(frames[w.cycle + 1..Taken(r)]));
      } else if it.1 == Some(Crash) {
        AcceptedFrom(frames, w.cycle, w.cycle + 1);
        assert frames[w.cycle + 1..w.cycle + 1] == [];
      } else {
        assert frames[w.cycle..w.cycle] == [];
      }
    } else {
      assert Inner(w, frames, engine) == (w1, StopSeen);
      assert frames[w.cycle..w.cycle] == [];
    }
  }

  // ---------------------------------------------------------------------------
  // The description each frame carries

  /** One pass keeps the descriptions: the frame it submits carries the
      processor's description, which keeps the stream's fields. */
  lemma IterateDescribes(w: World, frames: seq<Frame>, engine: seq<Call> -> Reply, v: Video, from: nat)
    requires DescribedBy(w, v, from)
    ensures DescribedBy(Iterate(w, frames, engine).0, v, from)
  {
    if w.cycle >= |frames| {
      LogKeepsDescribed(w, Clear, v, from);
    } else {
      var (w2, res) := Accept(w, frames[w.cycle], engine);
      AcceptDescribes(w, frames[w.cycle], engine, v, from);
      if res == Submitted && ClearDue(w.cycle) {
        LogKeepsDescribed(w2, Clear, v, from);
      }
    }
  }

  /** The inner loop keeps every submission of the connection described by the stream. */
  lemma {:induction false} InnerDescribes(w: World, frames: seq<Frame>, engine: seq<Call> -> Reply,
                                          v: Video, from: nat)
    requires DescribedBy(w, v, from)
    ensures DescribedBy(Inner(w, frames, engine).0, v, from)
    decreases Fuel(w)
  {
    var (w1, go) := Poll(w);
    if go {
      IterateDescribes(w1, frames, engine, v, from);
      var (w2, exit) := Iterate(w1, frames, engine);
      if exit.None? {
        InnerDescribes(w2, frames, engine, v, from);
      }
    }
  }

  /** After a successful open, every frame the connection hands to processFrame
      carries the description set up from the opened stream: its width, height
      and mapped layout. The description is set once per connection and reused
      for every frame. */
  lemma ConnectDescribes(w: World, url: string, decoder: seq<Call> -> Connection, engine: seq<Call> -> Reply)
    ensures var calls := w.calls + [Open(OpenVideo(url))];
            var r := Connect(w, url, decoder, engine);
            decoder(calls).Opened? ==>
              forall k :: |w.calls| <= k < |r.0.calls| && r.0.calls[k].Submit? ==>
                Matches(r.0.calls[k].desc, decoder(calls).video)
  {
    var calls := w.calls + [Open(OpenVideo(url))];
    match decoder(calls)
    case OpenFailed =>
    case Opened(v) =>
      var w2 := w.(calls := calls, desc := Describe(w.desc, v), status := Streaming, cycle := 0);
      assert calls[|w.calls|] == Open(OpenVideo(url));
      InnerDescribes(w2, v.frames, engine, v, |w.calls|);
  }

  // ---------------------------------------------------------------------------
  // Status

  /** One pass shows Done and ends with a clear exactly at the end of the stream,
      and otherwise leaves the status alone. */
  lemma IterateStatus(w: World, frames: seq<Frame>, engine: seq<Call> -> Reply)
    ensures var r := Iterate(w, frames, engine);
            && (r.1 == Some(EndOfStream) ==> r.0.status == Done && EndsWithClear(r.0.calls))
            && (r.1 != Some(EndOfStream) ==> r.0.status == w.status)
  {
  }

  /** The inner loop sets Done exactly when the stream ends, after clearing the
      session; a stop leaves the status as the connection set it. */
  lemma {:induction false} InnerStatus(w: World, frames: seq<Frame>, engine: seq<Call> -> Reply)
    ensures var r := Inner(w, frames, engine);
            && (r.1 == EndOfStream ==> r.0.status == Done && EndsWithClear(r.0.calls))
            && (r.1 != EndOfStream ==> r.0.status == w.status)
    decreases Fuel(w)
  {
    var (w1, go) := Poll(w);
    if go {
      IterateStatus(w1, frames, engine);
      var (w2, exit) := Iterate(w1, frames, engine);
      if exit.None? {
        InnerStatus(w2, frames, engine);
      }
    }
  }

  /** A failed open ends the run and leaves the status it found. After a
      successful open the status is Streaming, or Done exactly when the stream
      ended, which also leaves the connection without an exception; an
      exception from the engine leaves Streaming. */
  lemma {:induction false} ConnectStatus(w: World, url: string, decoder: seq<Call> -> Connection,
                                         engine: seq<Call> -> Reply)
    ensures var r := Connect(w, url, decoder, engine);
            decoder(w.calls + [Open(OpenVideo(url))]).OpenFailed? ==> !r.1 && r.0.status == w.status
    ensures var r := Connect(w, url, decoder, engine);
            decoder(w.calls + [Open(OpenVideo(url))]).Opened? ==>
              && (r.0.status == Streaming || r.0.status == Done)
              && (r.0.status == Done ==> r.1)
              && (!r.1 ==> r.0.status == Streaming)
    ensures var r := Connect(w, url, decoder, engine);
            r.0.status == w.status || r.0.status == Streaming || r.0.status == Done
  {
    var calls := w.calls + [Open(OpenVideo(url))];
    match decoder(calls)
    case OpenFailed =>
    case Opened(v) =>
      var w2 := w.(calls := calls, desc := Describe(w.desc, v), status := Streaming, cycle := 0);
      InnerStatus(w2, v.frames, engine);
  }

  /** Whatever way processVideo leaves, the status it leaves is the one it found,
      Streaming, or Done: this copy never shows Stopped. */
  lemma {:induction false} ProcessStatus(w: World, url: string, decoder: seq<Call> -> Connection,
                                         engine: seq<Call> -> Reply)
    ensures var r := Process(w, url, decoder, engine);
            r.0.status == w.status || r.0.status == Streaming || r.0.status == Done
    decreases Fuel(w)
  {
    var (w1, go) := Poll(w);
    if go {
      ConnectStatus(w1, url, decoder, engine);
      var (w2, ok) := Connect(w1, url, decoder, engine);
      if ok {
        ProcessStatus(w2, url, decoder, engine);
      }
    }
  }


  // ---------------------------------------------------------------------------
  // The objects

  /** MainActivityViewModel: the fields the screen binds to, and the handle of
      the processor it started. */
  class ViewModel {
    var videoUrl: string
    var scanditLicense: string
    var status: Status
    var recognizedCode: string
    var running: bool
    var videoProcessor: VideoProcessor?

    /** The URL and licence come from the stored preferences (or their defaults). */
    constructor (videoUrl: string, scanditLicense: string)
      ensures this.videoUrl == videoUrl && this.scanditLicense == scanditLicense
      ensures status == Idle && recognizedCode == "" && !running && videoProcessor == null
    {
      this.videoUrl := videoUrl;
      this.scanditLicense := scanditLicense;
      status := Idle;
      recognizedCode := "";
      running := false;
      videoProcessor := null;
    }

    /** Start a new processor when not running; otherwise mark the run stopping,
        ask the processor to stop and drop the handle. */
    method Toggle()
      modifies this, videoProcessor
      ensures old(running) ==> !running && status == Stopping && videoProcessor == null
      ensures old(running) && old(videoProcessor) != null ==> !old(videoProcessor).running
      ensures old(videoProcessor) != null ==>
                && old(videoProcessor).calls == old(videoProcessor.calls)
                && old(videoProcessor).frameData == old(videoProcessor.frameData)
                && old(videoProcessor).imageDescription == old(videoProcessor.imageDescription)
                && old(videoProcessor).stopCountdown == old(videoProcessor.stopCountdown)
                && old(videoProcessor).model == old(videoProcessor.model)
      ensures !old(running) && old(videoProcessor) != null ==>
                old(videoProcessor).running == old(videoProcessor.running)
      ensures !old(running) ==> && running && status == Starting
                                && videoProcessor != null && fresh(videoProcessor)
                                && videoProcessor.model == this && videoProcessor.running
                                && videoProcessor.calls == []
      ensures videoUrl == old(videoUrl) && scanditLicense == old(scanditLicense)
      ensures recognizedCode == old(recognizedCode)
    {
      if running {
        running := false;
        status := Stopping;
        if videoProcessor != null {
          videoProcessor.Stop();
          videoProcessor := null;
        }
      } else {
        running := true;
        status := Starting;
        videoProcessor := new VideoProcessor(this);
      }
    }
  }

  /** VideoProcessor: the worker that reads the stream and feeds the engine. */
  class VideoProcessor {
    const model: ViewModel
    var imageDescription: ImageDescription
    var frameData: array<byte>
    var running: bool
    /** Not in the source: how many more reads of `running` the worker makes
        before another thread's stop() lands. */
    var stopCountdown: nat
    /** Not in the source: the calls made so far to the decoder and the engine. */
    var calls: seq<Call>

    constructor (model: ViewModel)
      ensures this.model == model && running && stopCountdown == 0 && calls == []
      ensures imageDescription == NewImageDescription && frameData.Length == 0
    {
      this.model := model;
      imageDescription := NewImageDescription;
      frameData := new byte[0];
      running := true;
      stopCountdown := 0;
      calls := [];
    }

    /** The processor's state and the view model's, as the loops' specification sees them. */
    ghost function Snap(cycle: nat): World
      reads this, frameData, model
    {
      World(running, stopCountdown, frameData[..], imageDescription, cycle,
            model.status, model.recognizedCode, calls)
    }

    method Stop()
      modifies this`running
      ensures !running
    {
      running := false;
    }

    /** One read of `running`, with the other thread's stop() landing first when due. */
    method PollRunning(ghost c: nat) returns (go: bool)
      modifies this`running, this`stopCountdown
      ensures (Snap(c), go) == Poll(old(Snap(c)))
    {
      if stopCountdown == 0 {
        Stop();
      } else {
        stopCountdown := stopCountdown - 1;
      }
      go := running;
    }

    /** updateFrame: skip a null, empty or zero-size image; otherwise grow the
        buffer to twice the payload's size when it does not fit, copy the
        payload to its start and record the payload's size. */
    method UpdateFrame(frame: Frame) returns (ok: bool)
      modifies this`frameData, this`imageDescription, frameData
      ensures ok <==> Payload(frame).Some?
      ensures !ok ==> frameData == old(frameData) && frameData[..] == old(frameData[..])
                      && imageDescription == old(imageDescription)
      ensures ok ==> && frameData[..] == CopyIn(old(frameData[..]), Payload(frame).value)
                     && imageDescription == old(imageDescription).(memorySize := |Payload(frame).value|)
                     && (frameData == old(frameData) <==> |Payload(frame).value| <= old(frameData.Length))
      ensures frameData != old(frameData) ==> fresh(frameData)
    {
      if frame.image.None? || |frame.image.value| == 0 {
        return false;
      }
      var plane := frame.image.value[0];
      var size := |plane|;
      if size == 0 {
        return false;
      }
      if size > frameData.Length {
        frameData := new byte[size * 2](_ => 0);
      }
      ghost var before := frameData[..];
      assert before[size..] == CopyIn(old(frameData[..]), plane)[size..];
      forall k | 0 <= k < size {
        frameData[k] := plane[k];
      }
      assert frameData[..] == plane + before[size..] by {
        assert forall k :: 0 <= k < frameData.Length ==> frameData[k] == (plane + before[size..])[k];
      }
      imageDescription := imageDescription.(memorySize := size);
      ok := true;
    }
  
    /** One non-null frame: updateFrame, then the engine's processFrame on the
        buffer, then the last code it recognized is published. */
    method Feed(frame: Frame, ghost c: nat, engine: seq<Call> -> Reply) returns (res: FrameResult)
      modifies this`frameData, this`imageDescription, this`calls, frameData, model`recognizedCode
      ensures (Snap(c), res) == Accept(old(Snap(c)), frame, engine)
      ensures frameData == old(frameData) || fresh(frameData)
    {
      var ok := UpdateFrame(frame);
      if !ok {
        return Skipped;
      }
      calls := calls + [Submit(imageDescription, frameData[..])];
      var reply := engine(calls);
      if reply.Throws? {
        return Crashed;
      }
      var codes := reply.codes;
      if |codes| > 0 {
        model.recognizedCode := codes[|codes| - 1];
      }
      res := Submitted;
    }

    /** One pass of the inner loop after `running` was read true: grab the
        frame at `i`; at end of stream clear the engine and show Done;
        otherwise feed a valid frame to the engine, publish its last code and
        clear on every 0xfff-th cycle, then count the cycle. */
    method Step(frames: seq<Frame>, i: nat, engine: seq<Call> -> Reply) returns (exit: Option<Exit>)
      modifies this`frameData, this`imageDescription, this`calls, frameData, model`status, model`recognizedCode
      ensures (Snap(if exit.None? then i + 1 else i), exit) == Iterate(old(Snap(i)), frames, engine)
      ensures frameData == old(frameData) || fresh(frameData)
    {
      if i >= |frames| {
        // grabImage returned null
        calls := calls + [Clear];
        model.status := Done;
        return Some(EndOfStream);
      }
      var res := Feed(frames[i], i, engine);
      if res == Crashed {
        return Some(Crash);
      }
      if res == Submitted {
        var low := MaskCounter(i);
        if low == ClearCycle {
          calls := calls + [Clear];
        }
      }
      exit := None;
    }

    /** The inner loop: read `running` before every grab, until a stop, the
        end of the stream or an exception. */
    method Stream(frames: seq<Frame>, engine: seq<Call> -> Reply) returns (exit: Exit, i: nat)
      modifies this`frameData, this`imageDescription, this`calls, this`running, this`stopCountdown
      modifies frameData, model`status, model`recognizedCode
      ensures (Snap(i), exit) == Inner(old(Snap(0)), frames, engine)
      ensures frameData == old(frameData) || fresh(frameData)
    {
      ghost var w := Snap(0);
      ghost var pre := w;
      i := 0;
      var go := PollRunning(0);
      while go
        invariant frameData == old(frameData) || fresh(frameData)
        invariant (Snap(i), go) == Poll(pre)
        invariant Inner(pre, frames, engine) == Inner(w, frames, engine)
        decreases Fuel(Snap(i))
      {
        ghost var it := Iterate(Snap(i), frames, engine);
        assert Inner(pre, frames, engine) == if it.1.Some? then (it.0, it.1.value) else Inner(it.0, frames, engine);
        var step := Step(frames, i, engine);
        if step.Some? {
          return step.value, i;
        }
        i := i + 1;
        pre := Snap(i);
        go := PollRunning(i);
      }
      exit := StopSeen;
    }

    /** One connection (the `use` block): open the configured locator, describe
        the video, show Streaming and run the inner loop. False
        when the open or the engine threw. */
    method OpenAndStream(ghost c: nat, decoder: seq<Call> -> Connection, engine: seq<Call> -> Reply)
      returns (ok: bool, ghost cycle: nat)
      modifies this`frameData, this`imageDescription, this`calls, this`running, this`stopCountdown
      modifies frameData, model`status, model`recognizedCode
      ensures (Snap(cycle), ok) == Connect(old(Snap(c)), old(model.videoUrl), decoder, engine)
      ensures frameData == old(frameData) || fresh(frameData)
    {
      cycle := c;
      calls := calls + [Open(OpenVideo(model.videoUrl))];
      var connection := decoder(calls);
      if connection.OpenFailed? {
        return false, cycle;
      }
      imageDescription := Describe(imageDescription, connection.video);
      model.status := Streaming;
      var exit, i := Stream(connection.video.frames, engine);
      cycle := i;
      if exit == Crash {
        return false, cycle;
      }
      ok := true;
    }

    /** processVideo: start from an empty buffer; while running, open the
        configured locator and show Streaming, then run the inner loop; an
        exception ends it. */
    method ProcessVideo(decoder: seq<Call> -> Connection, engine: seq<Call> -> Reply)
      returns (outcome: Outcome, ghost cycle: nat)
      modifies this, model`status, model`recognizedCode
      ensures (Snap(cycle), outcome) == ProcessVideoFrom(old(Snap(0)), old(model.videoUrl), decoder, engine)
    {
      frameData := new byte[0];
      ghost var w0 := Snap(0);
      ghost var url := model.videoUrl;
      ghost var pre := w0;
      cycle := 0;
      var go := PollRunning(0);
      while go
        invariant fresh(frameData)
        invariant model.videoUrl == url
        invariant (Snap(cycle), go) == Poll(pre)
        invariant Process(pre, url, decoder, engine) == Process(w0, url, decoder, engine)
        decreases Fuel(Snap(cycle))
      {
        ghost var cn := Connect(Snap(cycle), url, decoder, engine);
        assert Process(pre, url, decoder, engine) == if !cn.1 then (cn.0, Threw) else Process(cn.0, url, decoder, engine);
        var ok, c := OpenAndStream(cycle, decoder, engine);
        cycle := c;
        if !ok {
          return Threw, cycle;
        }
        pre := Snap(cycle);
        go := PollRunning(cycle);
      }
      outcome := Returned;
    }

    /** run(): the worker thread's body, where another thread's stop() lands
        after the given number of reads of `running`; an exception ends it. */
    method Run(pollsBeforeStop: nat, decoder: seq<Call> -> Connection, engine: seq<Call> -> Reply)
      returns (ghost cycle: nat)
      modifies this, model`status, model`recognizedCode
      ensures Snap(cycle)
              == ProcessVideoFrom(old(Snap(0)).(countdown := pollsBeforeStop), old(model.videoUrl), decoder, engine).0
    {
      stopCountdown := pollsBeforeStop;
      var _, c := ProcessVideo(decoder, engine);
      cycle := c;
    }
  }
}
