/**
 * Pieces shared by all three copies of the QR reader's frame-ingestion loop:
 * the pixel-format mapping, the locator router, the decoded frame and its
 * payload, the reusable frame buffer, the session-clear mask and the log of
 * calls made to the foreign decoder and recognition engine.
 */
module Media {

  newtype byte = x: int | 0 <= x < 256

  datatype Option<T> = None | Some(value: T)

  // ---------------------------------------------------------------------------
  // Pixel formats and image layouts

  /** Decoder pixel-format codes (libavutil's AVPixelFormat enumerators). */
  const PixFmtRgb24: int := 2
  const PixFmtBgr24: int := 3
  const PixFmtGray8: int := 8
  const PixFmtArgb: int := 27
  const PixFmtRgba: int := 28

  /** The recognition engine's image layouts. */
  datatype ImageLayout = Gray8U | Rgb8U | Rgba8U | Argb8U | UnknownLayout

  /** The pixel formats that have a layout of their own. */
  predicate IsKnownFormat(pixelFormat: int) {
    pixelFormat == PixFmtGray8 || pixelFormat == PixFmtRgb24 || pixelFormat == PixFmtBgr24
    || pixelFormat == PixFmtRgba || pixelFormat == PixFmtArgb
  }

  /** The total switch from decoder pixel format to engine image layout. */
  function GetLayout(pixelFormat: int): (r: ImageLayout)
    ensures r == UnknownLayout <==> !IsKnownFormat(pixelFormat)
  {
    if pixelFormat == PixFmtGray8 then Gray8U
    else if pixelFormat == PixFmtRgb24 || pixelFormat == PixFmtBgr24 then Rgb8U
    else if pixelFormat == PixFmtRgba then Rgba8U
    else if pixelFormat == PixFmtArgb then Argb8U
    else UnknownLayout
  }

  /** The formats each layout is reached from: the inverse image of GetLayout. */
  function FormatsOf(layout: ImageLayout): (fs: set<int>)
    ensures layout != UnknownLayout ==> |fs| >= 1
  {
    match layout
    case Gray8U => {PixFmtGray8}
    case Rgb8U => {PixFmtRgb24, PixFmtBgr24}
    case Rgba8U => {PixFmtRgba}
    case Argb8U => {PixFmtArgb}
    case UnknownLayout => {}
  }

  /** Every known layout is reached from exactly the formats FormatsOf lists. */
  lemma GetLayoutInverse(pixelFormat: int, layout: ImageLayout)
    requires layout != UnknownLayout
    ensures GetLayout(pixelFormat) == layout <==> pixelFormat in FormatsOf(layout)
  {
  }

  /** RGB24 and BGR24 are the only two formats that share a layout. */
  lemma SharedLayout(f: int, g: int)
    requires f != g && GetLayout(f) == GetLayout(g)
    ensures GetLayout(f) == UnknownLayout || {f, g} == {PixFmtRgb24, PixFmtBgr24}
  {
  }

  // ---------------------------------------------------------------------------
  // Opening a video source

  /** Which decoder constructor openVideo picks for a locator. */
  datatype Source =
    | UrlSource(locator: string)     // rtsp: the locator is handed to the decoder
    | StreamSource(locator: string)  // http(s): a connection's input stream is handed over
    | PathSource(locator: string)    // anything else: a file path handed to the decoder

  /** The router: "rtsp:" is tested first, then "http", then a path. */
  function OpenVideo(url: string): (r: Source)
    ensures r.locator == url
    ensures r.UrlSource? <==> "rtsp:" <= url
    ensures r.StreamSource? <==> !("rtsp:" <= url) && "http" <= url
    ensures r.PathSource? <==> !("rtsp:" <= url) && !("http" <= url)
  {
    if "rtsp:" <= url then UrlSource(url)
    else if "http" <= url then StreamSource(url)
    else PathSource(url)
  }

  /** Only the http branch goes through a network connection; the rtsp branch
      and the path branch hand the decoder the locator itself. */
  predicate OpensByLocator(s: Source) {
    s.UrlSource? || s.PathSource?
  }

  lemma {:induction false} OpenVideoSchemes(rest: string)
    ensures OpenVideo("https" + rest).StreamSource?
    ensures OpenVideo("http" + rest).StreamSource?
    ensures OpenVideo("rtsp:" + rest).UrlSource?
    ensures OpensByLocator(OpenVideo("rtsp:" + rest))
    ensures !OpensByLocator(OpenVideo("https" + rest))
  {
    assert "http" <= "https" + rest by { assert ("https" + rest)[..4] == "http"; }
    assert "http" <= "http" + rest by { assert ("http" + rest)[..4] == "http"; }
    assert "rtsp:" <= "rtsp:" + rest by { assert ("rtsp:" + rest)[..5] == "rtsp:"; }
    assert !("rtsp:" <= "https" + rest) by { assert ("https" + rest)[0] == 'h'; }
    assert !("rtsp:" <= "http" + rest) by { assert ("http" + rest)[0] == 'h'; }
  }

  // ---------------------------------------------------------------------------
  // Decoded frames

  /** A grabbed frame: its image planes may be null (None), and plane 0 holds
      the pixel payload between position 0 and the buffer's limit. */
  datatype Frame = Frame(image: Option<seq<seq<byte>>>)

  /** A decoded stream: its metadata and the frames grabImage returns before
      it returns null. */
  datatype Video = Video(width: int, height: int, pixelFormat: int, frames: seq<Frame>)

  /** What opening and starting a source yields. */
  datatype Connection = OpenFailed | Opened(video: Video)

  /** The payload updateFrame copies, or None when the frame is skipped. */
  function Payload(f: Frame): (r: Option<seq<byte>>)
    ensures r.None? <==> f.image.None? || |f.image.value| == 0 || |f.image.value[0]| == 0
    ensures r.Some? ==> |r.value| > 0 && r.value == f.image.value[0]
  {
    match f.image
    case None => None
    case Some(planes) =>
      if |planes| == 0 || |planes[0]| == 0 then None else Some(planes[0])
  }

  /** The payloads of the frames that are not skipped, in stream order. */
  function Accepted(frames: seq<Frame>): (r: seq<seq<byte>>)
    ensures |r| <= |frames|
    ensures forall k :: 0 <= k < |r| ==> |r[k]| > 0
  {
    if frames == [] then []
    else
      var last := frames[|frames| - 1];
      Accepted(frames[..|frames| - 1]) + (if Payload(last).Some? then [Payload(last).value] else [])
  }

  /** Accepting frames commutes with splitting the stream: the payloads of a
      stream are those of its first part followed by those of the rest. */
  lemma {:induction false} AcceptedAppend(a: seq<Frame>, b: seq<Frame>)
    ensures Accepted(a + b) == Accepted(a) + Accepted(b)
  {
    if b != [] {
      var b' := b[..|b| - 1];
      assert (a + b)[..|a + b| - 1] == a + b';
      AcceptedAppend(a, b');
    } else {
      assert a + b == a;
    }
  }

  /** Peeling the first frame off a stretch of the stream: its payload, if it
      has one, comes first among those accepted. */
  lemma AcceptedFrom(frames: seq<Frame>, lo: nat, hi: nat)
    requires lo < hi <= |frames|
    ensures Accepted(frames[lo..hi])
            == (if Payload(frames[lo]).Some? then [Payload(frames[lo]).value] else [])
               + Accepted(frames[lo + 1..hi])
  {
    assert frames[lo..hi] == [frames[lo]] + frames[lo + 1..hi];
    AcceptedAppend([frames[lo]], frames[lo + 1..hi]);
    assert [frames[lo]][..0] == [];
  }

  /** The engine's description of the pixel memory handed to it. */
  datatype ImageDescription = ImageDescription(width: int, height: int, layout: ImageLayout, memorySize: nat)

  /** A fresh ImageDescription, before any of its setters has run. */
  const NewImageDescription: ImageDescription := ImageDescription(0, 0, UnknownLayout, 0)

  /** setImageDescription / createImageDescription: the stream's width, height
      and mapped layout; the memory size is left as it was. */
  function Describe(d: ImageDescription, v: Video): (r: ImageDescription)
    ensures r.width == v.width && r.height == v.height
    ensures r.layout == GetLayout(v.pixelFormat) && r.memorySize == d.memorySize
    ensures r.layout == UnknownLayout <==> !IsKnownFormat(v.pixelFormat)
  {
    d.(width := v.width, height := v.height, layout := GetLayout(v.pixelFormat))
  }

  // ---------------------------------------------------------------------------
  // The reusable frame buffer

  function Zeros(n: nat): (r: seq<byte>)
    ensures |r| == n && forall k :: 0 <= k < n ==> r[k] == 0
  {
    seq(n, _ => 0)
  }

  /** The contents of the frame buffer after a payload is copied into it: a
      buffer twice the payload's size when the payload does not fit, otherwise
      the same buffer with its first |p| bytes overwritten. */
  function CopyIn(data: seq<byte>, p: seq<byte>): (r: seq<byte>)
    ensures |r| >= |p| && r[..|p|] == p
    ensures |p| > |data| ==> |r| == 2 * |p|
    ensures |p| <= |data| ==> |r| == |data| && r[|p|..] == data[|p|..]
    ensures |r| >= |data|
  {
    if |p| > |data| then p + Zeros(|p|) else p + data[|p|..]
  }

  /** The buffer's capacity after one accepted payload of the given size. */
  function Grown(capacity: nat, size: nat): nat {
    if size > capacity then 2 * size else capacity
  }

  /** The buffer's capacity after a run of accepted payload sizes. */
  function CapacityAfter(capacity: nat, sizes: seq<nat>): nat {
    if sizes == [] then capacity
    else Grown(CapacityAfter(capacity, sizes[..|sizes| - 1]), sizes[|sizes| - 1])
  }

  /** The capacity never falls below the starting one nor below any accepted size. */
  lemma {:induction false} CapacityCovers(capacity: nat, sizes: seq<nat>)
    ensures capacity <= CapacityAfter(capacity, sizes)
    ensures forall j :: 0 <= j < |sizes| ==> sizes[j] <= CapacityAfter(capacity, sizes)
  {
    if sizes != [] {
      var init := sizes[..|sizes| - 1];
      CapacityCovers(capacity, init);
      forall j | 0 <= j < |sizes|
        ensures sizes[j] <= CapacityAfter(capacity, sizes)
      {
        if j < |sizes| - 1 {
          assert sizes[j] == init[j];
        }
      }
    }
  }

  /** Capacity is monotone along a run: a longer run never has less. */
  lemma {:induction false} CapacityMonotone(capacity: nat, sizes: seq<nat>, n: nat)
    requires n <= |sizes|
    ensures CapacityAfter(capacity, sizes[..n]) <= CapacityAfter(capacity, sizes)
  {
    if n < |sizes| {
      var init := sizes[..|sizes| - 1];
      assert init[..n] == sizes[..n];
      CapacityMonotone(capacity, init, n);
    } else {
      assert sizes[..n] == sizes;
    }
  }

  /** Each step either keeps the capacity or sets it to exactly twice the new size. */
  lemma CapacityStep(capacity: nat, sizes: seq<nat>)
    requires sizes != []
    ensures var before := CapacityAfter(capacity, sizes[..|sizes| - 1]);
            var after := CapacityAfter(capacity, sizes);
            (after == before && sizes[|sizes| - 1] <= before)
            || (after == 2 * sizes[|sizes| - 1] && sizes[|sizes| - 1] > before)
  {
  }

  // ---------------------------------------------------------------------------
  // The periodic session clear

  /** The mask both Kotlin loops apply to their frame counter. */
  const ClearCycle: nat := 0xfff

  /** Bitwise `and` of two non-negative integers, one bit at a time. */
  function BitAnd(a: nat, b: nat): nat {
    if a == 0 || b == 0 then 0
    else 2 * BitAnd(a / 2, b / 2) + (if a % 2 == 1 && b % 2 == 1 then 1 else 0)
  }

  function Pow2(k: nat): (r: nat)
    ensures r >= 1
  {
    if k == 0 then 1 else 2 * Pow2(k - 1)
  }

  /** `counter and 0xfff` on a 32-bit Kotlin Int whose value may have wrapped
      around: the counter's two's-complement bit pattern is the count modulo 2^32.
      The mask is the count modulo 4096, wrap-around included, since 4096
      divides 2^32. */
  function Masked(counter: nat): (r: nat)
    ensures r == counter % 4096
  {
    assert Pow2(12) - 1 == ClearCycle;
    BitAndLowBits(counter % 0x1_0000_0000, 12);
    WrapKeepsLowBits(counter);
    BitAnd(counter % 0x1_0000_0000, ClearCycle)
  }

  lemma MulAtLeast(d: int, k: int)
    requires d > 0 && k >= 1
    ensures d * k >= d
  {
    if k > 1 {
      MulAtLeast(d, k - 1);
      assert d * k == d * (k - 1) + d;
    }
  }

  /** Euclidean division has one remainder. */
  lemma ModUnique(x: int, d: int, t: int, r: int)
    requires d > 0 && x == d * t + r && 0 <= r < d
    ensures x % d == r
  {
    var t0, r0 := x / d, x % d;
    assert x == d * t0 + r0;
    assert d * (t - t0) == r0 - r;
    if t > t0 {
      MulAtLeast(d, t - t0);
    } else if t < t0 {
      MulAtLeast(d, t0 - t);
    }
  }

  lemma ModDouble(y: nat, q: nat)
    requires q > 0
    ensures y % (2 * q) == 2 * ((y / 2) % q) + y % 2
  {
    var a := y / 2;
    var t, s := a / q, a % q;
    assert a == q * t + s;
    assert y == 2 * a + y % 2;
    assert y == (2 * q) * t + (2 * s + y % 2);
    ModUnique(y, 2 * q, t, 2 * s + y % 2);
  }

  lemma BitAndOdd(y: nat, m: nat)
    ensures BitAnd(y, 2 * m + 1) == 2 * BitAnd(y / 2, m) + y % 2
  {
    assert (2 * m + 1) / 2 == m && (2 * m + 1) % 2 == 1;
    if y == 0 {
      assert BitAnd(0, m) == 0;
    }
  }

  /** Masking with k low one-bits keeps the value modulo 2^k. */
  lemma {:induction false} BitAndLowBits(y: nat, k: nat)
    ensures BitAnd(y, Pow2(k) - 1) == y % Pow2(k)
  {
    if k > 0 {
      var q := Pow2(k - 1);
      assert Pow2(k) - 1 == 2 * (q - 1) + 1;
      BitAndOdd(y, q - 1);
      BitAndLowBits(y / 2, k - 1);
      ModDouble(y, q);
    }
  }

  /** Reducing modulo 2^32 first does not change the count modulo 4096. */
  lemma WrapKeepsLowBits(counter: nat)
    ensures (counter % 0x1_0000_0000) % 4096 == counter % 4096
  {
  }

  /** A count's position within its period of 4096, found by taking whole
      periods off: the value its twelve low bits hold. */
  function LowBits(n: nat): nat {
    if n < 4096 then n else LowBits(n - 4096)
  }

  /** Taking whole periods off leaves the remainder modulo 4096. */
  lemma {:induction false} LowBitsIsMod(n: nat)
    ensures LowBits(n) == n % 4096
  {
    if n >= 4096 {
      LowBitsIsMod(n - 4096);
      ModUnique(n, 4096, (n - 4096) / 4096 + 1, (n - 4096) % 4096);
    }
  }

  /** The mask the loops compute on their counter, `counter and 0xfff`: the
      count modulo 4096, so 0xfff exactly on every 4096th count from 4095 on
      and 0 exactly on every 4096th count from 0 on. */
  method MaskCounter(counter: nat) returns (low: nat)
    ensures low == Masked(counter) && low == counter % 4096
    ensures low == LowBits(counter)
  {
    low := Masked(counter);
    LowBitsIsMod(counter);
  }

  // ---------------------------------------------------------------------------
  // The foreign calls

  /** The engine's answer to processFrame: the newly recognized codes, or an exception. */
  datatype Reply = Codes(codes: seq<string>) | Throws

  /** One call into the decoder or the engine, in the order the loop makes them. */
  datatype Call =
    | Open(source: Source)                                 // openVideo + setOption + start
    | Submit(desc: ImageDescription, data: seq<byte>)      // processFrame(imageDescription, frameData)
    | Clear                                                // scannerSession.clear()

  /** How processVideo left: by returning, or by an exception that run() prints. */
  datatype Outcome = Returned | Threw

  /** The lifecycle labels the view model shows; Idle is the initial empty string. */
  datatype Status = Idle | Starting | Streaming | Stopping | Done | Stopped

  /** Number of session clears in a log. */
  function Clears(calls: seq<Call>): nat {
    if calls == [] then 0
    else Clears(calls[..|calls| - 1]) + (if calls[|calls| - 1] == Clear then 1 else 0)
  }

  /** The payload each submission in a log handed to the engine, in order: the
      first memory-size bytes of the array passed to processFrame. */
  function Submissions(calls: seq<Call>): (r: seq<seq<byte>>)
    ensures |r| <= |calls|
  {
    if calls == [] then []
    else
      var last := calls[|calls| - 1];
      Submissions(calls[..|calls| - 1])
      + (if last.Submit? && last.desc.memorySize <= |last.data| then [last.data[..last.desc.memorySize]]
         else if last.Submit? then [last.data] else [])
  }

  /** A submission of a payload copied into the buffer adds exactly that
      payload; any other call adds nothing. */
  lemma SubmissionsSnoc(calls: seq<Call>, c: Call)
    ensures c.Submit? && c.desc.memorySize <= |c.data| ==>
              Submissions(calls + [c]) == Submissions(calls) + [c.data[..c.desc.memorySize]]
    ensures !c.Submit? ==> Submissions(calls + [c]) == Submissions(calls)
  {
    assert (calls + [c])[..|calls|] == calls;
  }

  /** What one step adds and what the rest adds make up what the whole adds. */
  lemma AppendChain(s0: seq<seq<byte>>, s1: seq<seq<byte>>, s2: seq<seq<byte>>,
                    step: seq<seq<byte>>, rest: seq<seq<byte>>)
    requires s1 == s0 + step && s2 == s1 + rest
    ensures s2 == s0 + (step + rest)
  {
  }

  /** The last call in a log is a session clear. */
  predicate EndsWithClear(calls: seq<Call>) {
    |calls| > 0 && calls[|calls| - 1] == Clear
  }

  lemma ClearsSnoc(a: seq<Call>, c: Call)
    ensures Clears(a + [c]) == Clears(a) + (if c == Clear then 1 else 0)
  {
    assert (a + [c])[..|a|] == a;
  }
}
