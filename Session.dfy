/**
 * The state the two Kotlin VideoProcessors act on while they stream, as a
 * value: the processor's running flag, frame buffer, image description and
 * frame counter, the view model's status and recognized code, and the log of
 * calls made to the decoder and the engine. Both loops are specified as
 * functions over this value; this module holds the pieces they share.
 */
module Session {
  import opened Media

  datatype World = World(
    running: bool,           // VideoProcessor.running
    countdown: nat,          // reads of `running` left before another thread's stop() lands
    data: seq<byte>,         // contents of VideoProcessor.frameData
    desc: ImageDescription,  // VideoProcessor.imageDescription
    cycle: nat,              // the loop's frame counter (i, or cycle)
    status: Status,          // MainActivityViewModel.status
    code: string,            // MainActivityViewModel.recognizedCode
    calls: seq<Call>)        // every call made so far to the decoder and the engine

  /** How many more times the loops can find `running` true. */
  function Fuel(w: World): nat {
    if w.running then w.countdown + 1 else 0
  }

  /** One read of the running flag. When the countdown is exhausted the other
      thread's stop() lands first, and the read sees false from then on. */
  function Poll(w: World): (r: (World, bool))
    ensures r.1 == r.0.running
    ensures r.1 <==> w.running && w.countdown > 0
    ensures r.0 == w.(running := r.0.running, countdown := r.0.countdown)
    ensures Fuel(r.0) <= Fuel(w)
    ensures w.running ==> Fuel(r.0) < Fuel(w)
  {
    if w.countdown == 0 then (w.(running := false), false)
    else (w.(countdown := w.countdown - 1), w.running)
  }

  /** What became of one grabbed frame. */
  datatype FrameResult = Skipped | Submitted | Crashed

  /** One non-null frame: updateFrame, then processFrame on the engine, then
      the last newly recognized code is published. The engine's reply is a
      function of every call it has received, this one included. */
  function Accept(w: World, f: Frame, engine: seq<Call> -> Reply): (r: (World, FrameResult))
    ensures r.1 == Skipped <==> Payload(f).None?
    ensures r.1 == Skipped ==> r.0 == w
    ensures r.1 != Skipped ==>
              var p := Payload(f).value;
              && r.0.calls == w.calls + [Submit(w.desc.(memorySize := |p|), CopyIn(w.data, p))]
              && r.0.data == CopyIn(w.data, p)
              && r.0.desc == w.desc.(memorySize := |p|)
              && (r.1 == Crashed <==> engine(r.0.calls) == Throws)
    ensures r.0 == w.(data := r.0.data, desc := r.0.desc, code := r.0.code, calls := r.0.calls)
  {
    match Payload(f)
    case None => (w, Skipped)
    case Some(p) =>
      var desc := w.desc.(memorySize := |p|);
      var data := CopyIn(w.data, p);
      var calls := w.calls + [Submit(desc, data)];
      var w1 := w.(data := data, desc := desc, calls := calls);
      match engine(calls)
      case Throws => (w1, Crashed)
      case Codes(cs) => (if |cs| > 0 then w1.(code := cs[|cs| - 1]) else w1, Submitted)
  }

  /** The code the view model shows after a log of calls: the last code of the
      most recent submission that recognized any, or what it showed before. */
  function LatestCode(calls: seq<Call>, engine: seq<Call> -> Reply, initial: string): string {
    if calls == [] then initial
    else if calls[|calls| - 1].Submit? && engine(calls).Codes? && |engine(calls).codes| > 0 then
      engine(calls).codes[|engine(calls).codes| - 1]
    else LatestCode(calls[..|calls| - 1], engine, initial)
  }

  /** Every submitted frame fitted the buffer it was handed, and the current
      buffer is at least as large as every buffer handed over before. */
  ghost predicate BufferCovers(w: World) {
    forall k :: 0 <= k < |w.calls| && w.calls[k].Submit? ==>
      w.calls[k].desc.memorySize <= |w.calls[k].data| <= |w.data|
  }

  /** The invariant both loops keep: the buffer covers every submission and the
      published code is the latest one the engine reported. */
  ghost predicate Inv(w: World, engine: seq<Call> -> Reply, initial: string) {
    BufferCovers(w) && w.code == LatestCode(w.calls, engine, initial)
  }

  /** `r` is a later state than `w`: the log only grows and so does the buffer. */
  ghost predicate Later(w: World, r: World) {
    w.calls <= r.calls && |w.data| <= |r.data|
  }

  /** Accepting a frame keeps the invariant; the new submission carries the
      payload in its first bytes and the payload's size as memory size. */
  lemma {:induction false} AcceptKeepsInv(w: World, f: Frame, engine: seq<Call> -> Reply, initial: string)
    requires Inv(w, engine, initial)
    ensures Inv(Accept(w, f, engine).0, engine, initial)
    ensures Later(w, Accept(w, f, engine).0)
    ensures Payload(f).Some? ==>
              var call := Accept(w, f, engine).0.calls[|w.calls|];
              && call.desc.memorySize == |Payload(f).value|
              && call.data[..|Payload(f).value|] == Payload(f).value
  {
    var r := Accept(w, f, engine).0;
    if Payload(f).Some? {
      var p := Payload(f).value;
      assert r.calls[..|r.calls| - 1] == w.calls;
      forall k | 0 <= k < |r.calls| && r.calls[k].Submit?
        ensures r.calls[k].desc.memorySize <= |r.calls[k].data| <= |r.data|
      {
        if k < |w.calls| {
          assert r.calls[k] == w.calls[k];
        }
      }
    }
  }

  /** Logging a call that is not a submission keeps the invariant. */
  lemma {:induction false} LogKeepsInv(w: World, call: Call, engine: seq<Call> -> Reply, initial: string)
    requires Inv(w, engine, initial) && !call.Submit?
    ensures Inv(w.(calls := w.calls + [call]), engine, initial)
    ensures Later(w, w.(calls := w.calls + [call]))
  {
    var calls := w.calls + [call];
    assert calls[..|calls| - 1] == w.calls;
    forall k | 0 <= k < |calls| && calls[k].Submit?
      ensures calls[k].desc.memorySize <= |calls[k].data| <= |w.data|
    {
      assert calls[k] == w.calls[k];
    }
  }

  // ---------------------------------------------------------------------------
  // The description each submission carries

  /** setImageDescription's three fields, taken from the stream `v`. */
  predicate Matches(d: ImageDescription, v: Video) {
    d.width == v.width && d.height == v.height && d.layout == GetLayout(v.pixelFormat)
  }

  /** The processor's description is set up from `v`, and so is the description
      of every submission logged from index `from` on. */
  ghost predicate DescribedBy(w: World, v: Video, from: nat) {
    && Matches(w.desc, v)
    && forall k :: from <= k < |w.calls| && w.calls[k].Submit? ==> Matches(w.calls[k].desc, v)
  }

  /** Accepting a frame only changes the memory size of the description, so the
      submission it logs carries the stream's width, height and layout. */
  lemma AcceptDescribes(w: World, f: Frame, engine: seq<Call> -> Reply, v: Video, from: nat)
    requires DescribedBy(w, v, from)
    ensures DescribedBy(Accept(w, f, engine).0, v, from)
  {
    var r := Accept(w, f, engine).0;
    forall k | from <= k < |r.calls| && r.calls[k].Submit?
      ensures Matches(r.calls[k].desc, v)
    {
      if k < |w.calls| {
        assert r.calls[k] == w.calls[k];
      }
    }
  }

  /** Logging a call that is not a submission keeps the descriptions as they were. */
  lemma LogKeepsDescribed(w: World, call: Call, v: Video, from: nat)
    requires DescribedBy(w, v, from) && !call.Submit?
    ensures DescribedBy(w.(calls := w.calls + [call]), v, from)
  {
    var calls := w.calls + [call];
    forall k | from <= k < |calls| && calls[k].Submit?
      ensures Matches(calls[k].desc, v)
    {
      assert calls[k] == w.calls[k];
    }
  }
}
