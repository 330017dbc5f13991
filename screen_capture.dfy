/**
 * The screen-capture frame pipeline of ScreenCaptureService: the start guard,
 * the start sequence that sizes and acquires the capture handles, the
 * 450 ms rate limiter on image notifications, the stride-padding frame
 * extractor, the size-capped single-slot frame store and the teardown.
 *
 * Android capture objects are opaque tokens; what the platform returns
 * (the projection, the virtual display, the newest image, the clock) is
 * passed in as parameters. JPEG compression at quality 40 followed by
 * Base64 without line wrapping is the uninterpreted function `encode`.
 */
module ScreenCapture {
  import opened Basics

  /** `Activity.RESULT_OK` and `Activity.RESULT_CANCELED`. */
  const ResultOk: int := -1
  const ResultCanceled: int := 0

  const CaptureWidth: int := 480
  const ReaderMaxImages: int := 3
  const MinFrameIntervalMs: int := 450
  /** Encoded frames must be strictly shorter than this many characters. */
  const MaxEncodedLength: int := 450 * 1024
  /** Bytes per pixel of an `ARGB_8888` bitmap. */
  const BitmapBytesPerPixel: int := 4

  type Positive = x: int | x > 0 witness 1

  /** Metrics of the real display; a real display has positive dimensions. */
  datatype DisplayMetrics = DisplayMetrics(widthPixels: Positive, heightPixels: Positive, densityDpi: int)

  /** The extras of the start intent: the consent result code and the consent data (a token). */
  datatype StartIntent = StartIntent(resultCode: Option<int>, data: Option<nat>)

  datatype PixelFormat = Rgba8888

  datatype ImageReaderConfig = ImageReaderConfig(width: int, height: int, format: PixelFormat, maxImages: int)

  datatype VirtualDisplayInfo = VirtualDisplayInfo(token: nat, width: int, height: int, densityDpi: int)

  /** An image acquired from the reader: its identity, plane-0 geometry and buffer size in bytes. */
  datatype RawImage = RawImage(id: nat, width: int, height: int, rowStride: int, pixelStride: int, bufferBytes: int)

  /**
   * What a bitmap shows of the acquired image `image`: its rows as captured,
   * or the same bytes copied along rows of a different length, so that each
   * row is shifted against the one before.
   */
  datatype Pixels = Rows(image: nat) | Sheared(image: nat)

  datatype Bitmap = Bitmap(width: int, height: int, pixels: Pixels)

  /**
   * The result of a platform call whose value `startCapture` assigns to a
   * field: a handle, null, or an exception (the assignment then never runs).
   */
  datatype PlatformCall<T> = Granted(handle: T) | Null | Threw

  datatype Extraction = Extracted(bitmap: Bitmap, cropped: bool)

  /** The exceptions the extraction step can raise. */
  datatype ExtractError =
    | PixelStrideZero    // integer division by a zero pixel stride
    | InvalidBitmapSize  // `Bitmap.createBitmap` with a non-positive dimension
    | BufferTooSmall     // `copyPixelsFromBuffer` with fewer bytes than the bitmap holds
    | CropOutOfBounds    // the crop is wider than the padded bitmap

  datatype ExtractResult = Ok(extraction: Extraction) | Failed(error: ExtractError)

  /** The handles `stopCapture` releases, in the order it releases them. */
  datatype Resource = VirtualDisplayHandle | ImageReaderHandle | ProjectionHandle

  /** A frame stored in the `latestFrame` slot, with the notification time that produced it. */
  datatype StoredFrame = StoredFrame(timeMs: int, payload: string)

  /** How far `onStartCommand` got. */
  datatype StartStep =
    | NoIntent | InvalidResult | ForegroundFailed | NoProjection | ReaderRejected | NoVirtualDisplay | Capturing
  {
    /** The start guard passed and the foreground service is running, so `startCapture` ran. */
    predicate RanStartCapture() {
      NoProjection? || ReaderRejected? || NoVirtualDisplay? || Capturing?
    }

    /** `startCapture` got as far as creating the image reader. */
    predicate CreatedReader() {
      NoVirtualDisplay? || Capturing?
    }
  }

  /** `480 * heightPixels / widthPixels`, rounded down. */
  function CaptureHeight(m: DisplayMetrics): (h: int)
    ensures 0 <= h
    ensures h * m.widthPixels <= CaptureWidth * m.heightPixels < (h + 1) * m.widthPixels
  {
    CaptureWidth * m.heightPixels / m.widthPixels
  }

  lemma CaptureHeightOfTallPhone()
    ensures CaptureHeight(DisplayMetrics(1080, 2280, 440)) == 1013
  {
  }

  function Abs(x: int): nat {
    if x < 0 then -x else x
  }

  /** Kotlin's `Int` division, which truncates toward zero. */
  function TruncDiv(a: int, b: int): (q: int)
    requires b != 0
    ensures Abs(q) * Abs(b) <= Abs(a) < (Abs(q) + 1) * Abs(b)
    ensures q > 0 ==> (a > 0) == (b > 0)
    ensures q < 0 ==> (a > 0) != (b > 0)
  {
    var m := Abs(a) / Abs(b);
    DivBounds(Abs(a), Abs(b));
    if (a >= 0) == (b > 0) then m else -m
  }

  /** The Euclidean quotient of non-negative operands brackets the dividend. */
  lemma DivBounds(n: nat, d: int)
    requires d > 0
    ensures n / d >= 0
    ensures (n / d) * d <= n < (n / d + 1) * d
  {
    var q, r := n / d, n % d;
    assert n == d * q + r && 0 <= r < d;
    assert (q + 1) * d == q * d + d;
  }

  lemma TruncDivOfNonNegatives(a: int, b: int)
    requires a >= 0 && b > 0
    ensures TruncDiv(a, b) == a / b
  {
  }

  /** `rowPadding = rowStride - pixelStride * width` and `bmpWidth = width + rowPadding / pixelStride`. */
  function PaddedWidth(img: RawImage): int
    requires img.pixelStride != 0
  {
    img.width + TruncDiv(img.rowStride - img.pixelStride * img.width, img.pixelStride)
  }

  /** When a row holds at least `width` pixels, the padded width is the row stride in pixels. */
  lemma PaddedWidthIsStrideInPixels(img: RawImage)
    requires img.pixelStride > 0 && img.rowStride >= img.pixelStride * img.width
    ensures PaddedWidth(img) == img.rowStride / img.pixelStride
  {
    var pad := img.rowStride - img.pixelStride * img.width;
    TruncDivOfNonNegatives(pad, img.pixelStride);
    assert img.rowStride == pad + img.pixelStride * img.width;
    assert (pad + img.pixelStride * img.width) / img.pixelStride == pad / img.pixelStride + img.width by {
      DivAddMultiple(pad, img.pixelStride, img.width);
    }
  }

  lemma DivAddMultiple(a: int, b: int, k: int)
    requires b > 0
    ensures (a + b * k) / b == a / b + k
  {
    var q, r := a / b, a % b;
    assert a == b * q + r && 0 <= r < b;
    assert a + b * k == b * (q + k) + r by {
      assert b * q + b * k == b * (q + k);
    }
    DivUnique(a + b * k, b, q + k, r);
  }

  lemma DivUnique(n: int, b: int, q: int, r: int)
    requires b > 0 && n == b * q + r && 0 <= r < b
    ensures n / b == q
  {
    var q', r' := n / b, n % b;
    assert n == b * q' + r' && 0 <= r' < b;
    if q' < q {
      assert b * q' + b <= b * q by { MulMonotone(b, q' + 1, q); }
    } else if q' > q {
      assert b * q + b <= b * q' by { MulMonotone(b, q + 1, q'); }
    }
  }

  lemma MulMonotone(b: int, x: int, y: int)
    requires b > 0 && x <= y
    ensures b * x <= b * y
  {
  }

  /**
   * The extraction step of `processFrame`: copy the padded rows into a
   * bitmap of width `bmpWidth`, then crop back to `width` if they differ.
   */
  function Extract(img: RawImage): (r: ExtractResult)
    ensures r.Ok? <==>
      img.pixelStride != 0 && 0 < img.width <= PaddedWidth(img) && img.height > 0
      && img.bufferBytes >= BitmapBytesPerPixel * PaddedWidth(img) * img.height
    ensures r.Ok? ==> r.extraction.bitmap == Bitmap(img.width, img.height, CopiedPixels(img))
    ensures r.Ok? ==> (r.extraction.cropped <==> PaddedWidth(img) != img.width)
  {
    if img.pixelStride == 0 then Failed(PixelStrideZero)
    else
      var bmpWidth := PaddedWidth(img);
      if bmpWidth <= 0 || img.height <= 0 then Failed(InvalidBitmapSize)
      else if img.bufferBytes < BitmapBytesPerPixel * bmpWidth * img.height then Failed(BufferTooSmall)
      else if bmpWidth != img.width && (img.width <= 0 || img.width > bmpWidth) then Failed(CropOutOfBounds)
      else Ok(Extracted(Bitmap(img.width, img.height, CopiedPixels(img)), bmpWidth != img.width))
  }

  /**
   * `copyPixelsFromBuffer` copies the buffer byte for byte into rows of
   * `BitmapBytesPerPixel * bmpWidth` bytes; the captured rows line up only
   * when that is the row stride.
   */
  function CopiedPixels(img: RawImage): Pixels
    requires img.pixelStride != 0
  {
    if BitmapBytesPerPixel * PaddedWidth(img) == img.rowStride then Rows(img.id) else Sheared(img.id)
  }

  /** An RGBA_8888 plane (4 bytes per pixel, rows a whole number of pixels) is copied row for row. */
  lemma RgbaPlaneKeepsRows(img: RawImage)
    requires img.pixelStride == BitmapBytesPerPixel && img.rowStride % BitmapBytesPerPixel == 0
    requires img.rowStride >= img.pixelStride * img.width
    ensures CopiedPixels(img) == Rows(img.id)
  {
    PaddedWidthIsStrideInPixels(img);
    assert img.rowStride == BitmapBytesPerPixel * (img.rowStride / BitmapBytesPerPixel);
  }

  /** A row stride two bytes longer than its pixels extracts without error, but the rows come out sheared. */
  lemma OddRowStrideShears(id: nat)
    ensures var img := RawImage(id, 481, 10, 481 * 4 + 2, 4, (481 * 4 + 2) * 10);
      PaddedWidth(img) == 481 && Extract(img) == Ok(Extracted(Bitmap(481, 10, Sheared(id)), false))
  {
    var img := RawImage(id, 481, 10, 481 * 4 + 2, 4, (481 * 4 + 2) * 10);
    assert TruncDiv(2, 4) == 0;
  }

  /** A 481-pixel-wide image whose rows are padded to 512 pixels comes out exactly 481 wide. */
  lemma ExtractCropsPaddedRows(id: nat, height: Positive)
    ensures var img := RawImage(id, 481, height, 512 * 4, 4, 512 * 4 * height);
      PaddedWidth(img) == 512 && Extract(img) == Ok(Extracted(Bitmap(481, height, Rows(id)), true))
  {
    var img := RawImage(id, 481, height, 512 * 4, 4, 512 * 4 * height);
    PaddedWidthIsStrideInPixels(img);
  }

  /** Consecutive times are at least `MinFrameIntervalMs` apart. */
  ghost predicate Spaced(ts: seq<int>) {
    forall i :: 0 < i < |ts| ==> ts[i - 1] + MinFrameIntervalMs <= ts[i]
  }

  ghost predicate FramesSpaced(fs: seq<StoredFrame>) {
    forall i :: 0 < i < |fs| ==> fs[i - 1].timeMs + MinFrameIntervalMs <= fs[i].timeMs
  }

  /** The position of each handle in `stopCapture`'s release sequence. */
  function ReleaseRank(h: Resource): int {
    match h
    case VirtualDisplayHandle => 0
    case ImageReaderHandle => 1
    case ProjectionHandle => 2
  }

  /** What `stopCapture` releases, given which handles are held. */
  function Releases(vd: Option<VirtualDisplayInfo>, reader: Option<ImageReaderConfig>, projection: Option<nat>): (r: seq<Resource>)
    ensures |r| == (if vd.Some? then 1 else 0) + (if reader.Some? then 1 else 0) + (if projection.Some? then 1 else 0)
    ensures VirtualDisplayHandle in r <==> vd.Some?
    ensures ImageReaderHandle in r <==> reader.Some?
    ensures ProjectionHandle in r <==> projection.Some?
    ensures forall i, j :: 0 <= i < j < |r| ==> ReleaseRank(r[i]) < ReleaseRank(r[j])
    ensures forall i, j :: 0 <= i < j < |r| ==> r[i] != r[j]
  {
    (if vd.Some? then [VirtualDisplayHandle] else [])
    + (if reader.Some? then [ImageReaderHandle] else [])
    + (if projection.Some? then [ProjectionHandle] else [])
  }

  /** How `onStartCommand` ends, given what the platform returns at each step. */
  function StartOutcome(intent: Option<StartIntent>, foregroundStarted: bool, metrics: DisplayMetrics,
                        projection: PlatformCall<nat>, display: PlatformCall<nat>): (s: StartStep)
    ensures s.RanStartCapture() <==> ValidConsent(intent) && foregroundStarted
    ensures s.Capturing? <==>
      ValidConsent(intent) && foregroundStarted && projection.Granted? && CaptureHeight(metrics) > 0 && display.Granted?
  {
    if intent.None? then NoIntent
    else if !ValidConsent(intent) then InvalidResult
    else if !foregroundStarted then ForegroundFailed
    else if !projection.Granted? then NoProjection
    else if CaptureHeight(metrics) <= 0 then ReaderRejected
    else if !display.Granted? then NoVirtualDisplay
    else Capturing
  }

  /**
   * The field after `field = call()`: the returned handle, null, or, when the
   * call throws, the value the field held before. A granted handle is always
   * taken, a held handle is lost exactly when the platform answers null, and
   * the field only ever holds its previous handle or a granted one.
   */
  function Assigned<T>(call: PlatformCall<T>, current: Option<T>): (r: Option<T>)
    ensures call.Granted? ==> r == Some(call.handle)
    ensures current.Some? ==> (r.None? <==> call.Null?)
    ensures r.Some? ==> r == current || call.Granted?
  {
    match call
    case Granted(h) => Some(h)
    case Null => None
    case Threw => current
  }

  /** The start guard: an intent whose result code is `RESULT_OK` (missing counts as cancelled) and whose data is present. */
  predicate ValidConsent(intent: Option<StartIntent>) {
    intent.Some? && intent.value.resultCode.GetOr(ResultCanceled) == ResultOk && intent.value.data.Some?
  }

  /** The cached frame is under the cap. */
  ghost predicate SlotInvariant(latestFrame: Option<string>) {
    latestFrame.Some? ==> |latestFrame.value| < MaxEncodedLength
  }

  /** The counter counts the stored frames, which are under the cap and spaced by the minimum interval. */
  ghost predicate StoreInvariant(frameCount: int, storedFrames: seq<StoredFrame>, lastFrameTime: int) {
    && frameCount == |storedFrames|
    && (forall i :: 0 <= i < |storedFrames| ==> |storedFrames[i].payload| < MaxEncodedLength)
    && FramesSpaced(storedFrames)
    && (storedFrames != [] ==> storedFrames[|storedFrames| - 1].timeMs <= lastFrameTime)
  }

  /** A frame stored at `lastFrameTime`, at least the minimum interval after the previous one, keeps the invariant. */
  lemma StoreInvariantAppend(frameCount: int, storedFrames: seq<StoredFrame>, lastFrameTime: int, payload: string)
    requires StoreInvariant(frameCount, storedFrames, lastFrameTime)
    requires storedFrames != [] ==> storedFrames[|storedFrames| - 1].timeMs + MinFrameIntervalMs <= lastFrameTime
    requires |payload| < MaxEncodedLength
    ensures StoreInvariant(frameCount + 1, storedFrames + [StoredFrame(lastFrameTime, payload)], lastFrameTime)
  {
  }

  /** Moving `lastFrameTime` forward keeps the store invariant and allows one more store. */
  lemma StoreInvariantLater(frameCount: int, storedFrames: seq<StoredFrame>, lastFrameTime: int, now: int)
    requires StoreInvariant(frameCount, storedFrames, lastFrameTime)
    requires lastFrameTime + MinFrameIntervalMs <= now
    ensures StoreInvariant(frameCount, storedFrames, now)
    ensures storedFrames != [] ==> storedFrames[|storedFrames| - 1].timeMs + MinFrameIntervalMs <= now
  {
  }

  /** Accepted notifications are spaced by the minimum interval; `lastFrameTime` is the latest. */
  ghost predicate RateInvariant(acceptedTimes: seq<int>, lastFrameTime: int) {
    && Spaced(acceptedTimes)
    && (acceptedTimes != [] ==> acceptedTimes[|acceptedTimes| - 1] == lastFrameTime)
  }

  lemma RateInvariantAccept(acceptedTimes: seq<int>, lastFrameTime: int, now: int)
    requires RateInvariant(acceptedTimes, lastFrameTime)
    requires lastFrameTime + MinFrameIntervalMs <= now
    ensures RateInvariant(acceptedTimes + [now], now)
  {
  }

  /**
   * The reader and the virtual display have the capture geometry, and a
   * virtual display is only held together with a reader. (After a second
   * start whose `createVirtualDisplay` throws, the held display may belong to
   * the previous reader, so their heights need not agree.)
   */
  ghost predicate HandlesInvariant(imageReader: Option<ImageReaderConfig>, virtualDisplay: Option<VirtualDisplayInfo>) {
    && (imageReader.Some? ==>
          imageReader.value.width == CaptureWidth && imageReader.value.height > 0
          && imageReader.value.format == Rgba8888 && imageReader.value.maxImages == ReaderMaxImages)
    && (virtualDisplay.Some? ==>
          imageReader.Some? && virtualDisplay.value.width == CaptureWidth && virtualDisplay.value.height > 0)
  }

  class ScreenCaptureService {
    /** JPEG compression at quality 40, then Base64 without line wrapping. */
    const encode: Bitmap -> string

    // Companion-object state; one service instance per process is modelled, so it starts with the instance.
    var isCapturing: bool
    var latestFrame: Option<string>
    var frameCount: int

    // Service state.
    var mediaProjection: Option<nat>
    var virtualDisplay: Option<VirtualDisplayInfo>
    var imageReader: Option<ImageReaderConfig>
    var lastFrameTime: int
    /** The service has asked to be stopped (`stopSelf` or `stopService`). */
    var stopRequested: bool

    /** Times of the notifications the rate limiter let through. */
    ghost var acceptedTimes: seq<int>
    /** Frames stored since the counter was last reset. */
    ghost var storedFrames: seq<StoredFrame>
    /** The `acquireLatestImage` and `Image.close` calls, by image identity, in order. */
    var acquiredImages: seq<nat>
    var closedImages: seq<nat>
    /** The `release`, `close` and `stop` calls on the handles, in order. */
    var released: seq<Resource>

    ghost predicate Valid()
      reads this
    {
      && SlotInvariant(latestFrame)
      && StoreInvariant(frameCount, storedFrames, lastFrameTime)
      && RateInvariant(acceptedTimes, lastFrameTime)
      && closedImages == acquiredImages
      && HandlesInvariant(imageReader, virtualDisplay)
    }

    /** The frame the pipeline stores for `image`: the encoded frame if extraction succeeds and it is under the cap. */
    function FrameToStore(image: Option<RawImage>): (r: Option<string>)
      ensures r.Some? ==> |r.value| < MaxEncodedLength
    {
      if image.None? then None
      else match Extract(image.value)
        case Failed(_) => None
        case Ok(x) =>
          var b64 := encode(x.bitmap);
          if |b64| < MaxEncodedLength then Some(b64) else None
    }

    /**
     * An acquired image is stored exactly when its buffer holds the padded
     * bitmap, the crop fits and the encoding is under the cap; what is stored
     * is the encoding of a `width` x `height` bitmap, which shows the captured
     * rows exactly when the plane's row stride is `BitmapBytesPerPixel` bytes
     * per padded pixel.
     */
    lemma FrameToStoreStoresEncodedFrame(img: RawImage)
      ensures img.pixelStride != 0 ==>
        var aligned := BitmapBytesPerPixel * PaddedWidth(img) == img.rowStride;
        var frame := encode(Bitmap(img.width, img.height, if aligned then Rows(img.id) else Sheared(img.id)));
        && (FrameToStore(Some(img)).Some? <==>
              0 < img.width <= PaddedWidth(img) && img.height > 0
              && img.bufferBytes >= BitmapBytesPerPixel * PaddedWidth(img) * img.height
              && |frame| < MaxEncodedLength)
        && (FrameToStore(Some(img)).Some? ==> FrameToStore(Some(img)).value == frame)
      ensures img.pixelStride == 0 ==> FrameToStore(Some(img)) == None
    {
      var r := Extract(img);
      if img.pixelStride != 0 {
        assert r.Ok? ==> r.extraction.bitmap == Bitmap(img.width, img.height, CopiedPixels(img));
      }
    }

    constructor(encode: Bitmap -> string)
      ensures Valid()
      ensures this.encode == encode
      ensures !isCapturing && latestFrame == None && frameCount == 0
      ensures mediaProjection == None && virtualDisplay == None && imageReader == None
      ensures lastFrameTime == 0 && !stopRequested
      ensures acceptedTimes == [] && storedFrames == [] && acquiredImages == [] && released == []
    {
      this.encode := encode;
      isCapturing, latestFrame, frameCount := false, None, 0;
      mediaProjection, virtualDisplay, imageReader := None, None, None;
      lastFrameTime, stopRequested := 0, false;
      acceptedTimes, storedFrames, acquiredImages, closedImages, released := [], [], [], [], [];
    }

    /** The companion `stop`: clear the frame slot and the counter, then ask the service to stop. */
    method CompanionStop()
      requires Valid()
      modifies this`latestFrame, this`frameCount, this`storedFrames, this`stopRequested
      ensures Valid()
      ensures latestFrame == None && frameCount == 0 && storedFrames == [] && stopRequested
    {
      latestFrame := None;
      frameCount := 0;
      storedFrames := [];
      stopRequested := true;
    }

    /**
     * `onStartCommand`: check the consent, start the foreground service
     * (`foregroundStarted` says whether that succeeded), then `startCapture`.
     */
    method OnStartCommand(intent: Option<StartIntent>, foregroundStarted: bool, metrics: DisplayMetrics,
                          projection: PlatformCall<nat>, display: PlatformCall<nat>)
      requires Valid()
      modifies this`stopRequested, this`mediaProjection, this`imageReader, this`virtualDisplay, this`isCapturing
      ensures Valid()
      ensures var step := StartOutcome(intent, foregroundStarted, metrics, projection, display);
        && stopRequested == (old(stopRequested) || !step.Capturing?)
        && isCapturing == (old(isCapturing) || step.Capturing?)
        && (!step.RanStartCapture() ==>
              mediaProjection == old(mediaProjection) && imageReader == old(imageReader)
              && virtualDisplay == old(virtualDisplay))
        && (step.RanStartCapture() ==> mediaProjection == Assigned(projection, old(mediaProjection)))
        && (step.CreatedReader() ==>
              imageReader == Some(ImageReaderConfig(CaptureWidth, CaptureHeight(metrics), Rgba8888, ReaderMaxImages)))
        && ((step.NoProjection? || step.ReaderRejected?) ==>
              imageReader == old(imageReader) && virtualDisplay == old(virtualDisplay))
        && (step.NoVirtualDisplay? ==> virtualDisplay == (if display.Null? then None else old(virtualDisplay)))
        && (step.Capturing? ==>
              virtualDisplay == Some(VirtualDisplayInfo(display.handle, CaptureWidth, CaptureHeight(metrics), metrics.densityDpi)))
    {
      if intent.None? {
        stopRequested := true;
        return;
      }
      var resultCode := intent.value.resultCode.GetOr(ResultCanceled);
      var data := intent.value.data;
      if resultCode != ResultOk || data.None? {
        stopRequested := true;
        return;
      }
      if !foregroundStarted {
        stopRequested := true;
        return;
      }
      StartCapture(metrics, projection, display);
    }

    /**
     * `startCapture`: take the projection, size the capture from the display,
     * create the reader (which rejects a zero height), install the listener,
     * create the virtual display, and only then mark capture as running. A
     * call that throws leaves its field as it was; `onStartCommand` catches
     * the exception and stops the service.
     */
    method StartCapture(metrics: DisplayMetrics, projection: PlatformCall<nat>, display: PlatformCall<nat>)
      requires Valid()
      modifies this`stopRequested, this`mediaProjection, this`imageReader, this`virtualDisplay, this`isCapturing
      ensures Valid()
      ensures mediaProjection == Assigned(projection, old(mediaProjection))
      ensures old(virtualDisplay).Some? && virtualDisplay.None? ==> projection.Granted? && display.Null?
      ensures var ch := CaptureHeight(metrics);
        && (!projection.Granted? || ch <= 0 ==>
              imageReader == old(imageReader) && virtualDisplay == old(virtualDisplay)
              && isCapturing == old(isCapturing) && stopRequested)
        && (projection.Granted? && ch > 0 ==>
              && imageReader == Some(ImageReaderConfig(CaptureWidth, ch, Rgba8888, ReaderMaxImages))
              && virtualDisplay == (match display
                                    case Granted(t) => Some(VirtualDisplayInfo(t, CaptureWidth, ch, metrics.densityDpi))
                                    case Null => None
                                    case Threw => old(virtualDisplay))
              && isCapturing == (old(isCapturing) || display.Granted?)
              && stopRequested == (old(stopRequested) || !display.Granted?))
    {
      if projection.Threw? {
        // `getMediaProjection` throws; `onStartCommand` catches it and stops the service.
        stopRequested := true;
        return;
      }
      mediaProjection := if projection.Granted? then Some(projection.handle) else None;
      if projection.Null? {
        stopRequested := true;
        return;
      }
      var cw := CaptureWidth;
      var ch := CaptureHeight(metrics);
      if ch <= 0 {
        // `ImageReader.newInstance` throws; `onStartCommand` catches it and stops the service.
        stopRequested := true;
        return;
      }
      imageReader := Some(ImageReaderConfig(cw, ch, Rgba8888, ReaderMaxImages));
      if display.Threw? {
        // `createVirtualDisplay` throws: the previous display, if any, stays held.
        stopRequested := true;
        return;
      }
      if display.Null? {
        virtualDisplay := None;
        stopRequested := true;
        return;
      }
      virtualDisplay := Some(VirtualDisplayInfo(display.handle, cw, ch, metrics.densityDpi));
      isCapturing := true;
    }

    /**
     * The image-available listener at time `now`; `latest` is what
     * `acquireLatestImage` returns (None for null; on the rejected path also for a caught exception).
     */
    method OnImageAvailable(now: int, latest: Option<RawImage>)
      requires Valid()
      modifies this`lastFrameTime, this`acceptedTimes, this`acquiredImages, this`closedImages
      modifies this`latestFrame, this`frameCount, this`storedFrames
      ensures Valid()
      ensures var ids := if latest.Some? then [latest.value.id] else [];
        acquiredImages == old(acquiredImages) + ids && closedImages == old(closedImages) + ids
      ensures now - old(lastFrameTime) < MinFrameIntervalMs ==>
        && lastFrameTime == old(lastFrameTime) && acceptedTimes == old(acceptedTimes)
        && latestFrame == old(latestFrame) && frameCount == old(frameCount) && storedFrames == old(storedFrames)
      ensures now - old(lastFrameTime) >= MinFrameIntervalMs ==>
        && lastFrameTime == now && acceptedTimes == old(acceptedTimes) + [now]
        && var stored := FrameToStore(latest);
           && latestFrame == (if stored.Some? then stored else old(latestFrame))
           && frameCount == old(frameCount) + (if stored.Some? then 1 else 0)
           && storedFrames == old(storedFrames) + (if stored.Some? then [StoredFrame(now, stored.value)] else [])
    {
      if now - lastFrameTime < MinFrameIntervalMs {
        // Drain the queue: acquire the newest image and close it at once.
        if latest.Some? {
          acquiredImages := acquiredImages + [latest.value.id];
          closedImages := closedImages + [latest.value.id];
        }
        return;
      }
      RateInvariantAccept(acceptedTimes, lastFrameTime, now);
      StoreInvariantLater(frameCount, storedFrames, lastFrameTime, now);
      lastFrameTime := now;
      acceptedTimes := acceptedTimes + [now];
      ghost var stored := FrameToStore(latest);
      ghost var slot, count, frames := latestFrame, frameCount, storedFrames;
      ProcessFrame(latest);
      assert latestFrame == (if stored.Some? then stored else slot);
      assert frameCount == count + (if stored.Some? then 1 else 0);
      assert storedFrames == frames + (if stored.Some? then [StoredFrame(now, stored.value)] else []);
    }

    /** No frame has been stored for the notification accepted at `lastFrameTime` yet. */
    ghost predicate StoreAllowed()
      reads this`storedFrames, this`lastFrameTime
    {
      storedFrames != [] ==> storedFrames[|storedFrames| - 1].timeMs + MinFrameIntervalMs <= lastFrameTime
    }

    /**
     * `processFrame`: acquire the newest image (`image`), extract, encode and
     * store it if it is under the cap; the image is closed on every path.
     */
    method ProcessFrame(image: Option<RawImage>)
      requires Valid() && StoreAllowed()
      modifies this`acquiredImages, this`closedImages, this`latestFrame, this`frameCount, this`storedFrames
      ensures Valid()
      ensures var ids := if image.Some? then [image.value.id] else [];
        acquiredImages == old(acquiredImages) + ids && closedImages == old(closedImages) + ids
      ensures var stored := FrameToStore(image);
        && latestFrame == (if stored.Some? then stored else old(latestFrame))
        && frameCount == old(frameCount) + (if stored.Some? then 1 else 0)
        && storedFrames == old(storedFrames) + (if stored.Some? then [StoredFrame(lastFrameTime, stored.value)] else [])
    {
      if image.None? {
        return;
      }
      var img := image.value;
      acquiredImages := acquiredImages + [img.id];
      var extracted := Extract(img);
      if extracted.Ok? {
        var b64 := encode(extracted.extraction.bitmap);
        if |b64| < MaxEncodedLength {
          assert FrameToStore(image) == Some(b64);
          StoreInvariantAppend(frameCount, storedFrames, lastFrameTime, b64);
          latestFrame, frameCount := Some(b64), frameCount + 1;
          storedFrames := storedFrames + [StoredFrame(lastFrameTime, b64)];
        } else {
          assert FrameToStore(image) == None;
        }
      } else {
        assert FrameToStore(image) == None;
      }
      // The `finally` block.
      closedImages := closedImages + [img.id];
    }

    /** `stopCapture`: clear the flags, then release each handle that is held. */
    method StopCapture()
      requires Valid()
      modifies this`isCapturing, this`latestFrame, this`virtualDisplay, this`imageReader, this`mediaProjection, this`released
      ensures Valid()
      ensures !isCapturing && latestFrame == None
      ensures virtualDisplay == None && imageReader == None && mediaProjection == None
      ensures released == old(released) + Releases(old(virtualDisplay), old(imageReader), old(mediaProjection))
    {
      // The counter, the stored frames and the rate history are untouched, so their invariants carry over.
      ghost var counted, stored, accepted := frameCount, storedFrames, acceptedTimes;
      ghost var before := lastFrameTime;
      assert StoreInvariant(counted, stored, before) && RateInvariant(accepted, before);
      // `virtualDisplay?.release()`, `imageReader?.close()`, `mediaProjection?.stop()`, in that order.
      var handles := Releases(virtualDisplay, imageReader, mediaProjection);
      isCapturing, latestFrame, released := false, None, released + handles;
      virtualDisplay, imageReader, mediaProjection := None, None, None;
      assert frameCount == counted && storedFrames == stored && acceptedTimes == accepted && lastFrameTime == before;
    }

    /** `onDestroy`: tear the capture down. */
    method OnDestroy()
      requires Valid()
      modifies this`isCapturing, this`latestFrame, this`virtualDisplay, this`imageReader, this`mediaProjection, this`released
      ensures Valid()
      ensures !isCapturing && latestFrame == None
      ensures virtualDisplay == None && imageReader == None && mediaProjection == None
      ensures released == old(released) + Releases(old(virtualDisplay), old(imageReader), old(mediaProjection))
    {
      StopCapture();
    }
  }

  /** A consent intent that passes the start guard. */
  const GrantedIntent: Option<StartIntent> := Some(StartIntent(Some(ResultOk), Some(1)))

  const TallPhone: DisplayMetrics := DisplayMetrics(1080, 2280, 440)

  lemma GrantedStartOnTallPhone(projection: nat, display: nat)
    ensures CaptureHeight(TallPhone) == 1013
    ensures StartOutcome(GrantedIntent, true, TallPhone, Granted(projection), Granted(display)) == Capturing
  {
    CaptureHeightOfTallPhone();
  }

  /** A tightly packed 480 x 1013 RGBA image. */
  function PackedImage(id: nat): RawImage {
    RawImage(id, 480, 1013, 480 * 4, 4, 480 * 4 * 1013)
  }

  lemma PackedImageIsNotCropped(id: nat)
    ensures Extract(PackedImage(id)) == Ok(Extracted(Bitmap(480, 1013, Rows(id)), false))
  {
    PaddedWidthIsStrideInPixels(PackedImage(id));
  }

  /** A fresh service that a granted start on the 1080 x 2280 display, with projection 7 and display 8, left capturing. */
  method CapturingOnTallPhone(encode: Bitmap -> string) returns (svc: ScreenCaptureService)
    ensures fresh(svc) && svc.Valid() && svc.encode == encode
    ensures svc.isCapturing && svc.latestFrame == None && svc.frameCount == 0 && svc.lastFrameTime == 0
    ensures svc.mediaProjection == Some(7) && svc.virtualDisplay == Some(VirtualDisplayInfo(8, 480, 1013, 440))
    ensures svc.imageReader == Some(ImageReaderConfig(480, 1013, Rgba8888, 3))
    ensures svc.closedImages == [] && svc.released == []
  {
    svc := new ScreenCaptureService(encode);
    GrantedStartOnTallPhone(7, 8);
    svc.OnStartCommand(GrantedIntent, true, TallPhone, Granted(7), Granted(8));
  }

  /** Starting on a 1080 x 2280 display captures at 480 x 1013 with a 3-image reader. */
  method StartOnTallPhone() returns (reader: Option<ImageReaderConfig>, capturing: bool)
    ensures reader == Some(ImageReaderConfig(480, 1013, Rgba8888, 3))
    ensures capturing
  {
    var svc := new ScreenCaptureService((b: Bitmap) => "frame");
    GrantedStartOnTallPhone(7, 8);
    svc.OnStartCommand(GrantedIntent, true, TallPhone, Granted(7), Granted(8));
    reader, capturing := svc.imageReader, svc.isCapturing;
  }

  /** Two notifications 100 ms apart store exactly one frame; both images are closed. */
  method TwoNotificationsTooClose() returns (frames: int, closed: seq<nat>)
    ensures frames == 1
    ensures closed == [1, 2]
  {
    var svc := CapturingOnTallPhone((b: Bitmap) => "frame");
    PackedImageIsNotCropped(1);
    svc.OnImageAvailable(100000, Some(PackedImage(1)));
    svc.OnImageAvailable(100100, Some(PackedImage(2)));
    frames := svc.frameCount;
    closed := svc.closedImages;
  }

  /** An encoded frame of 460 KiB is dropped: the counter stays and the slot stays empty. */
  method OversizedFrameDropped() returns (frames: int, latest: Option<string>, lastTime: int)
    ensures frames == 0 && latest == None
    ensures lastTime == 100000
  {
    var svc := CapturingOnTallPhone((b: Bitmap) => seq(460 * 1024, i => 'A'));
    PackedImageIsNotCropped(1);
    svc.OnImageAvailable(100000, Some(PackedImage(1)));
    frames, latest, lastTime := svc.frameCount, svc.latestFrame, svc.lastFrameTime;
  }

  lemma ReleasesWhenAllHeld(vd: VirtualDisplayInfo, reader: ImageReaderConfig, projection: nat)
    ensures Releases(Some(vd), Some(reader), Some(projection)) == [VirtualDisplayHandle, ImageReaderHandle, ProjectionHandle]
  {
  }

  /** Stopping twice releases the three handles once. */
  method StopTwice() returns (first: seq<Resource>, second: seq<Resource>)
    ensures first == [VirtualDisplayHandle, ImageReaderHandle, ProjectionHandle]
    ensures second == []
  {
    var svc := CapturingOnTallPhone((b: Bitmap) => "frame");
    ReleasesWhenAllHeld(svc.virtualDisplay.value, svc.imageReader.value, svc.mediaProjection.value);
    svc.StopCapture();
    first := svc.released;
    assert Releases(None, None, None) == [];
    svc.StopCapture();
    second := svc.released[|first|..];
  }

  /**
   * A second start while capturing is not refused: it replaces the held
   * handles without releasing the old ones.
   */
  method SecondStartReplacesHandles() returns (projection: Option<nat>, releasedCount: nat, capturing: bool)
    ensures projection == Some(9) && releasedCount == 0 && capturing
  {
    var svc := CapturingOnTallPhone((b: Bitmap) => "frame");
    GrantedStartOnTallPhone(9, 10);
    svc.OnStartCommand(GrantedIntent, true, TallPhone, Granted(9), Granted(10));
    projection, releasedCount, capturing := svc.mediaProjection, |svc.released|, svc.isCapturing;
  }

  lemma ThrowingStartOnTallPhone(projection: nat, display: nat)
    ensures CaptureHeight(TallPhone) == 1013
    ensures StartOutcome(GrantedIntent, true, TallPhone, Granted(projection), Threw) == NoVirtualDisplay
    ensures StartOutcome(GrantedIntent, true, TallPhone, Threw, Granted(display)) == NoProjection
  {
    CaptureHeightOfTallPhone();
  }

  /**
   * A second start whose `createVirtualDisplay` throws keeps the first
   * display; the teardown then still releases it.
   */
  method ThrowingDisplayKeepsHandle() returns (projection: Option<nat>, display: Option<nat>, released: seq<Resource>)
    ensures projection == Some(9) && display == Some(8)
    ensures released == [VirtualDisplayHandle, ImageReaderHandle, ProjectionHandle]
  {
    var svc := CapturingOnTallPhone((b: Bitmap) => "frame");
    ThrowingStartOnTallPhone(9, 10);
    svc.OnStartCommand(GrantedIntent, true, TallPhone, Granted(9), Threw);
    projection := svc.mediaProjection;
    display := if svc.virtualDisplay.Some? then Some(svc.virtualDisplay.value.token) else None;
    ReleasesWhenAllHeld(svc.virtualDisplay.value, svc.imageReader.value, svc.mediaProjection.value);
    svc.StopCapture();
    released := svc.released;
  }

  /** A second start whose `getMediaProjection` throws keeps the first projection and display. */
  method ThrowingProjectionKeepsHandle() returns (projection: Option<nat>, display: Option<nat>)
    ensures projection == Some(7) && display == Some(8)
  {
    var svc := CapturingOnTallPhone((b: Bitmap) => "frame");
    ThrowingStartOnTallPhone(9, 10);
    svc.OnStartCommand(GrantedIntent, true, TallPhone, Threw, Granted(10));
    projection := svc.mediaProjection;
    display := if svc.virtualDisplay.Some? then Some(svc.virtualDisplay.value.token) else None;
  }
}
