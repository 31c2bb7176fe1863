/**
 * app/src/main/java/com/locatible/qrcodereader/MainActivity.java: the single
 * connection of processVideo. It opens a fixed locator once, builds the image
 * description from the stream, and feeds every frame with a payload to the
 * engine through a local byte array, until the grabber returns null. It never
 * reconnects, never clears the engine session and publishes nothing.
 */
module JavaActivity {
  import opened Media

  /** The hard-coded locator the activity opens. */
  const VideoUrl: string := "rtsp://192.168.0.80"

  /** createImageDescription: a new description carrying the stream's width,
      height and mapped layout, with the memory size not yet set. */
  function CreateImageDescription(v: Video): (r: ImageDescription)
    ensures r.width == v.width && r.height == v.height && r.layout == GetLayout(v.pixelFormat)
    ensures r.memorySize == 0
  {
    Describe(NewImageDescription, v)
  }

  /** Building a new description is the Kotlin setImageDescription applied to
      any existing one, apart from the memory size that one keeps. */
  lemma DescribeAsCreated(d: ImageDescription, v: Video)
    ensures Describe(d, v) == CreateImageDescription(v).(memorySize := d.memorySize)
    ensures Describe(d, v) == CreateImageDescription(v) <==> d.memorySize == 0
  {
  }

  // ---------------------------------------------------------------------------
  // What the loop feeds to the engine

  /** The payloads accepted from a prefix of the stream are a prefix of those
      accepted from the whole stream. */
  lemma AcceptedPrefix(frames: seq<Frame>, i: nat)
    requires i <= |frames|
    ensures var acc := Accepted(frames[..i]);
            |acc| <= |Accepted(frames)| && Accepted(frames)[..|acc|] == acc
  {
    assert frames[..i] + frames[i..] == frames;
    AcceptedAppend(frames[..i], frames[i..]);
  }

  /** Grabbing the frame at `i` adds its payload, if any, to those accepted. */
  lemma AcceptedNext(frames: seq<Frame>, i: nat)
    requires i < |frames|
    ensures Accepted(frames[..i + 1])
            == Accepted(frames[..i]) + if Payload(frames[i]).Some? then [Payload(frames[i]).value] else []
  {
    assert frames[..i + 1][..i] == frames[..i];
  }

  /** The contents of the local array after each payload in turn was copied
      into it, starting from `new byte[0]`. */
  function Filled(ps: seq<seq<byte>>): (r: seq<byte>)
    ensures ps != [] ==> |ps[|ps| - 1]| <= |r| && r[..|ps[|ps| - 1]|] == ps[|ps| - 1]
  {
    if ps == [] then [] else CopyIn(Filled(ps[..|ps| - 1]), ps[|ps| - 1])
  }

  /** Filling one more payload copies it into the array as it stood. */
  lemma FilledSnoc(ps: seq<seq<byte>>, p: seq<byte>)
    ensures Filled(ps + [p]) == CopyIn(Filled(ps), p)
  {
    assert (ps + [p])[..|ps|] == ps;
  }

  /** The payload sizes, in order. */
  function Sizes(ps: seq<seq<byte>>): (r: seq<nat>)
    ensures |r| == |ps| && forall k :: 0 <= k < |ps| ==> r[k] == |ps[k]|
  {
    seq(|ps|, k requires 0 <= k < |ps| => |ps[k]|)
  }

  /** The array's length follows the growth rule: replaced by one of twice the
      payload's size exactly when the payload does not fit, kept otherwise. */
  lemma {:induction false} FilledCapacity(ps: seq<seq<byte>>)
    ensures |Filled(ps)| == CapacityAfter(0, Sizes(ps))
  {
    if ps != [] {
      var init := ps[..|ps| - 1];
      FilledCapacity(init);
      assert Sizes(ps)[..|ps| - 1] == Sizes(init);
    }
  }

  /** The array never shrinks and always holds the largest payload seen. */
  lemma FilledCovers(ps: seq<seq<byte>>, n: nat)
    requires n <= |ps|
    ensures |Filled(ps[..n])| <= |Filled(ps)|
    ensures forall k :: 0 <= k < |ps| ==> |ps[k]| <= |Filled(ps)|
  {
    FilledCapacity(ps);
    FilledCapacity(ps[..n]);
    assert Sizes(ps[..n]) == Sizes(ps)[..n];
    CapacityMonotone(0, Sizes(ps), n);
    CapacityCovers(0, Sizes(ps));
  }

  /** A log of one open followed only by submissions never clears the engine
      session. */
  lemma {:induction false} NoSessionClear(calls: seq<Call>)
    requires forall k :: 0 <= k < |calls| ==> calls[k] != Clear
    ensures Clears(calls) == 0
  {
    if calls != [] {
      NoSessionClear(calls[..|calls| - 1]);
    }
  }

  /** What the loop has submitted after the payloads `acc`: the open, then one
      submission per payload, each with its size as memory size and the array
      as it stood after the copy. */
  ghost predicate Fed(calls: seq<Call>, v: Video, acc: seq<seq<byte>>)
    decreases |acc|
  {
    if acc == [] then calls == [Open(OpenVideo(VideoUrl))]
    else
      && |calls| >= 2
      && calls[|calls| - 1] == Submit(CreateImageDescription(v).(memorySize := |acc[|acc| - 1]|), Filled(acc))
      && Fed(calls[..|calls| - 1], v, acc[..|acc| - 1])
  }

  /** Every submission in the log before the last one returned normally. */
  ghost predicate Answered(calls: seq<Call>, engine: seq<Call> -> Reply)
    decreases |calls|
  {
    |calls| <= 2 || (engine(calls[..|calls| - 1]).Codes? && Answered(calls[..|calls| - 1], engine))
  }

  /** Spelled out: the engine returned normally on every log that ended with
      an earlier submission. */
  lemma {:induction false} AnsweredAt(calls: seq<Call>, engine: seq<Call> -> Reply)
    requires Answered(calls, engine)
    ensures forall k :: 2 <= k < |calls| ==> engine(calls[..k]).Codes?
    decreases |calls|
  {
    if |calls| > 2 {
      var calls' := calls[..|calls| - 1];
      AnsweredAt(calls', engine);
      forall k | 2 <= k < |calls|
        ensures engine(calls[..k]).Codes?
      {
        if k < |calls'| {
          assert calls'[..k] == calls[..k];
        }
      }
    }
  }

  /** Feeding one more payload extends what was fed. */
  lemma FedSnoc(calls: seq<Call>, v: Video, acc: seq<seq<byte>>, p: seq<byte>)
    requires Fed(calls, v, acc)
    ensures Fed(calls + [Submit(CreateImageDescription(v).(memorySize := |p|), Filled(acc + [p]))], v, acc + [p])
  {
    var c := Submit(CreateImageDescription(v).(memorySize := |p|), Filled(acc + [p]));
    assert (calls + [c])[..|calls|] == calls;
    assert (acc + [p])[..|acc|] == acc;
  }

  /** The log has one entry more than there are payloads fed, and starts
      with the open. */
  lemma {:induction false} FedLength(calls: seq<Call>, v: Video, acc: seq<seq<byte>>)
    requires Fed(calls, v, acc)
    ensures |calls| == |acc| + 1 && calls[0] == Open(OpenVideo(VideoUrl))
    decreases |acc|
  {
    if acc != [] {
      FedLength(calls[..|calls| - 1], v, acc[..|acc| - 1]);
    }
  }

  /** Spelled out: the log is the open followed by exactly one submission per
      payload, the k-th carrying the k-th payload's size as memory size and
      the array as it stood after that payload was copied in. */
  lemma {:induction false} FedAt(calls: seq<Call>, v: Video, acc: seq<seq<byte>>)
    requires Fed(calls, v, acc)
    ensures |calls| == |acc| + 1 && calls[0] == Open(OpenVideo(VideoUrl))
    ensures forall k :: 1 <= k < |calls| ==>
              calls[k] == Submit(CreateImageDescription(v).(memorySize := |acc[k - 1]|), Filled(acc[..k]))
    decreases |acc|
  {
    if acc != [] {
      var calls', acc' := calls[..|calls| - 1], acc[..|acc| - 1];
      FedAt(calls', v, acc');
      forall k | 1 <= k < |calls|
        ensures calls[k] == Submit(CreateImageDescription(v).(memorySize := |acc[k - 1]|), Filled(acc[..k]))
      {
        if k < |calls'| {
          assert calls[k] == calls'[k] && acc'[..k] == acc[..k];
        } else {
          assert acc[..k] == acc;
        }
      }
    }
  }

  /** One more submission keeps every earlier one answered, provided the
      last one returned normally. */
  lemma AnsweredSnoc(calls: seq<Call>, c: Call, engine: seq<Call> -> Reply)
    requires |calls| >= 1 && Answered(calls, engine) && (|calls| == 1 || engine(calls).Codes?)
    ensures Answered(calls + [c], engine)
  {
    assert (calls + [c])[..|calls|] == calls;
  }

  /** The inline buffer update: a new zeroed array of twice the payload's size
      when the payload does not fit, then the payload copied to its start. */
  method CopyPayload(frameArray: array<byte>, plane: seq<byte>) returns (a: array<byte>)
    requires |plane| > 0
    modifies frameArray
    ensures a[..] == CopyIn(old(frameArray[..]), plane)
    ensures a == frameArray <==> |plane| <= frameArray.Length
    ensures a != frameArray ==> fresh(a) && frameArray[..] == old(frameArray[..])
  {
    var size := |plane|;
    a := frameArray;
    if size > frameArray.Length {
      a := new byte[size * 2](_ => 0);
    }
    ghost var before := a[..];
    assert before[size..] == CopyIn(old(frameArray[..]), plane)[size..];
    forall k | 0 <= k < size {
      a[k] := plane[k];
    }
    assert a[..] == plane + before[size..] by {
      assert forall k :: 0 <= k < a.Length ==> a[k] == (plane + before[size..])[k];
    }
  }

  // ---------------------------------------------------------------------------
  // The loop as a function

  /** The for(;;) loop from frame `i` on, with the array's contents `data`,
      the description `desc` and the log so far: a null frame ends it, a frame
      without a payload is skipped, any other is copied in, its size recorded
      and the engine called once; an exception from the engine ends it. */
  function Loop(frames: seq<Frame>, i: nat, data: seq<byte>, desc: ImageDescription, calls: seq<Call>,
                engine: seq<Call> -> Reply): (r: (seq<Call>, Outcome))
    requires i <= |frames|
    ensures calls <= r.0
    decreases |frames| - i
  {
    if i == |frames| then (calls, Returned)
    else
      match Payload(frames[i])
      case None => Loop(frames, i + 1, data, desc, calls, engine)
      case Some(p) =>
        var data' := CopyIn(data, p);
        var desc' := desc.(memorySize := |p|);
        var calls' := calls + [Submit(desc', data')];
        if engine(calls').Throws? then (calls', Threw)
        else Loop(frames, i + 1, data', desc', calls', engine)
  }

  /** processVideo as a function of what the decoder and the engine answer. */
  function Run(decoder: seq<Call> -> Connection, engine: seq<Call> -> Reply): (r: (seq<Call>, Outcome))
    ensures [Open(OpenVideo(VideoUrl))] <= r.0
    ensures r.1 == Returned ==> decoder([Open(OpenVideo(VideoUrl))]).Opened?
  {
    var calls := [Open(OpenVideo(VideoUrl))];
    match decoder(calls)
    case OpenFailed => (calls, Threw)
    case Opened(v) => Loop(v.frames, 0, [], CreateImageDescription(v), calls, engine)
  }

  /** The loop's state before grabbing frame `i`: the log is the open and the
      submissions of the payloads before `i`, each answered normally, and the
      array and description are as those submissions left them. */
  ghost predicate At(v: Video, i: nat, data: seq<byte>, desc: ImageDescription, calls: seq<Call>,
                     engine: seq<Call> -> Reply)
  {
    && i <= |v.frames|
    && Fed(calls, v, Accepted(v.frames[..i])) && Answered(calls, engine)
    && (|calls| == 1 || engine(calls).Codes?)
    && data == Filled(Accepted(v.frames[..i]))
    && desc == CreateImageDescription(v).(memorySize := desc.memorySize)
  }

  /** What a finished loop has done: submitted a prefix of the accepted
      payloads in order, every one but possibly the last answered normally;
      returned exactly when all were submitted and answered; thrown only on
      the engine's exception for the last submission. */
  ghost predicate Finished(r: (seq<Call>, Outcome), v: Video, engine: seq<Call> -> Reply) {
    var acc := Accepted(v.frames);
    && 1 <= |r.0| <= |acc| + 1
    && Fed(r.0, v, acc[..|r.0| - 1])
    && Answered(r.0, engine)
    && (r.1 == Returned <==> |r.0| - 1 == |acc| && (|r.0| == 1 || engine(r.0).Codes?))
    && (r.1 == Threw ==> |r.0| >= 2 && engine(r.0) == Throws)
  }

  /** At the null frame the loop returns, having fed every payload. */
  lemma LoopEnd(v: Video, i: nat, data: seq<byte>, desc: ImageDescription, calls: seq<Call>,
                engine: seq<Call> -> Reply)
    requires At(v, i, data, desc, calls, engine) && i == |v.frames|
    ensures Finished(Loop(v.frames, i, data, desc, calls, engine), v, engine)
  {
    assert Loop(v.frames, i, data, desc, calls, engine) == (calls, Returned);
    assert v.frames[..i] == v.frames;
    var acc := Accepted(v.frames);
    FedLength(calls, v, acc);
    assert acc[..|calls| - 1] == acc;
  }

  /** A frame without a payload leaves everything as it was. */
  lemma LoopSkip(v: Video, i: nat, data: seq<byte>, desc: ImageDescription, calls: seq<Call>,
                 engine: seq<Call> -> Reply)
    requires At(v, i, data, desc, calls, engine) && i < |v.frames| && Payload(v.frames[i]).None?
    ensures At(v, i + 1, data, desc, calls, engine)
  {
    AcceptedNext(v.frames, i);
    assert Accepted(v.frames[..i + 1]) == Accepted(v.frames[..i]);
  }

  /** A frame with a payload is copied in and submitted; when the engine
      returns, the new state is the loop's state before the next frame. */
  lemma LoopSubmit(v: Video, i: nat, data: seq<byte>, desc: ImageDescription, calls: seq<Call>,
                   engine: seq<Call> -> Reply)
    requires At(v, i, data, desc, calls, engine) && i < |v.frames| && Payload(v.frames[i]).Some?
    requires var p := Payload(v.frames[i]).value;
             engine(calls + [Submit(desc.(memorySize := |p|), CopyIn(data, p))]).Codes?
    ensures var p := Payload(v.frames[i]).value;
            var desc' := desc.(memorySize := |p|);
            At(v, i + 1, CopyIn(data, p), desc', calls + [Submit(desc', CopyIn(data, p))], engine)
  {
    var p := Payload(v.frames[i]).value;
    var acc := Accepted(v.frames[..i]);
    var c := Submit(desc.(memorySize := |p|), CopyIn(data, p));
    AcceptedNext(v.frames, i);
    assert Accepted(v.frames[..i + 1]) == acc + [p];
    FilledSnoc(acc, p);
    FedSnoc(calls, v, acc, p);
    AnsweredSnoc(calls, c, engine);
  }

  /** A frame with a payload is copied in and submitted; when the engine
      throws, the loop is finished. */
  lemma LoopThrow(v: Video, i: nat, data: seq<byte>, desc: ImageDescription, calls: seq<Call>,
                  engine: seq<Call> -> Reply)
    requires At(v, i, data, desc, calls, engine) && i < |v.frames| && Payload(v.frames[i]).Some?
    requires var p := Payload(v.frames[i]).value;
             engine(calls + [Submit(desc.(memorySize := |p|), CopyIn(data, p))]).Throws?
    ensures var p := Payload(v.frames[i]).value;
            Finished((calls + [Submit(desc.(memorySize := |p|), CopyIn(data, p))], Threw), v, engine)
  {
    var p := Payload(v.frames[i]).value;
    var acc := Accepted(v.frames[..i]);
    var c := Submit(desc.(memorySize := |p|), CopyIn(data, p));
    AcceptedNext(v.frames, i);
    assert Accepted(v.frames[..i + 1]) == acc + [p];
    FilledSnoc(acc, p);
    FedSnoc(calls, v, acc, p);
    AnsweredSnoc(calls, c, engine);
    AcceptedPrefix(v.frames, i + 1);
    FinishThrow(calls + [c], v, engine, acc + [p]);
  }

  /** A log that fed a prefix of the payloads and whose last submission threw
      is a finished loop. */
  lemma FinishThrow(calls: seq<Call>, v: Video, engine: seq<Call> -> Reply, fed: seq<seq<byte>>)
    requires Fed(calls, v, fed) && fed <= Accepted(v.frames)
    requires Answered(calls, engine) && |calls| >= 2 && engine(calls).Throws?
    ensures Finished((calls, Threw), v, engine)
  {
    FedLength(calls, v, fed);
    assert Accepted(v.frames)[..|calls| - 1] == fed;
  }

  /** From any state of the loop, the loop finishes as Finished describes. */
  lemma {:induction false} LoopFeeds(v: Video, i: nat, data: seq<byte>, desc: ImageDescription,
                                     calls: seq<Call>, engine: seq<Call> -> Reply)
    requires At(v, i, data, desc, calls, engine)
    ensures Finished(Loop(v.frames, i, data, desc, calls, engine), v, engine)
    decreases |v.frames| - i
  {
    if i == |v.frames| {
      LoopEnd(v, i, data, desc, calls, engine);
    } else if Payload(v.frames[i]).None? {
      LoopSkip(v, i, data, desc, calls, engine);
      LoopFeeds(v, i + 1, data, desc, calls, engine);
    } else {
      var p := Payload(v.frames[i]).value;
      var data', desc' := CopyIn(data, p), desc.(memorySize := |p|);
      var calls' := calls + [Submit(desc', data')];
      if engine(calls').Codes? {
        LoopSubmit(v, i, data, desc, calls, engine);
        LoopFeeds(v, i + 1, data', desc', calls', engine);
      } else {
        LoopThrow(v, i, data, desc, calls, engine);
      }
    }
  }

  /** What processVideo does, spelled out: the open comes first; if it throws
      nothing else happens; otherwise the log holds one submission per accepted
      payload, in order, up to the end of the stream or the first exception
      from the engine, and never a session clear. */
  lemma RunFeeds(decoder: seq<Call> -> Connection, engine: seq<Call> -> Reply)
    ensures var r := Run(decoder, engine);
            && |r.0| >= 1 && r.0[0] == Open(OpenVideo(VideoUrl))
            && (decoder([Open(OpenVideo(VideoUrl))]).OpenFailed? ==> r == ([Open(OpenVideo(VideoUrl))], Threw))
            && (decoder([Open(OpenVideo(VideoUrl))]).Opened? ==>
                  Finished(r, decoder([Open(OpenVideo(VideoUrl))]).video, engine))
            && Clears(r.0) == 0
    ensures var r := Run(decoder, engine);
            decoder([Open(OpenVideo(VideoUrl))]).Opened? ==>
              forall k :: 2 <= k < |r.0| ==> engine(r.0[..k]).Codes?
  {
    var calls := [Open(OpenVideo(VideoUrl))];
    var r := Run(decoder, engine);
    match decoder(calls)
    case OpenFailed =>
      NoSessionClear(r.0);
    case Opened(v) =>
      assert v.frames[..0] == [];
      LoopFeeds(v, 0, [], CreateImageDescription(v), calls, engine);
      FedAt(r.0, v, Accepted(v.frames)[..|r.0| - 1]);
      AnsweredAt(r.0, engine);
      NoSessionClear(r.0);
  }

  // ---------------------------------------------------------------------------
  // The method

  /** processVideo: open the fixed locator once, build the description, then
      grab frames until a null one, copying each payload into the local array
      and handing it to the engine. */
  method ProcessVideo(decoder: seq<Call> -> Connection, engine: seq<Call> -> Reply)
    returns (calls: seq<Call>, outcome: Outcome)
    ensures (calls, outcome) == Run(decoder, engine)
  {
    calls := [Open(OpenVideo(VideoUrl))];
    var connection := decoder(calls);
    if connection.OpenFailed? {
      return calls, Threw;
    }
    var video := connection.video;
    var frames := video.frames;
    var imageDescription := CreateImageDescription(video);
    var frameArray := new byte[0];
    var i := 0;
    while true
      invariant 0 <= i <= |frames| && fresh(frameArray)
      invariant Loop(frames, i, frameArray[..], imageDescription, calls, engine)
                == Run(decoder, engine)
      decreases |frames| - i
    {
      if i >= |frames| {
        // grabImage returned null: "Done"
        break;
      }
      var frame := frames[i];
      i := i + 1;
      if frame.image.None? || |frame.image.value| == 0 {
        continue;
      }
      var plane := frame.image.value[0];
      var size := |plane|;
      if size == 0 {
        continue;
      }
      frameArray := CopyPayload(frameArray, plane);
      imageDescription := imageDescription.(memorySize := size);
      calls := calls + [Submit(imageDescription, frameArray[..])];
      if engine(calls).Throws? {
        return calls, Threw;
      }
    }
    outcome := Returned;
  }
}
