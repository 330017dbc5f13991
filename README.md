# AI Avatar Android services: frame pipeline, screen flattener, wake-word listener

This project models three Android services of the AI Avatar app in Dafny and proves properties of the model.

- **ScreenCaptureService** (`screen_capture.dfy`) is the screen-sharing frame pipeline:
  - the start guard on the consent intent;
  - the start sequence, which sizes the capture at 480 pixels wide with the display's aspect ratio and acquires the projection, the image reader and the virtual display;
  - the 450 ms rate limiter on image notifications, which acquires and closes a rejected image at once;
  - the frame extractor, which undoes row-stride padding and crops back to the image width;
  - the single-slot frame store, capped below 450 × 1024 characters;
  - the teardown, which releases only the handles that are held.

  The service is a class with the source's fields. Ghost histories record the accepted notification times and the stored frames, so the rate and store invariants can be stated. Acquired, closed and released handles are logged as sequences.
- **TouchAccessibilityService** (`accessibility.dfy`) covers the screen-element flattener and the companion-object guards.
  - The flattener is a depth-limited pre-order walk. It emits one line per labelled or clickable node and joins the lines with newlines. Three fixed strings mark the failure cases.
  - The guards belong to the gesture and global-action commands.
  - The walk is a pure recursive function (`Collect`). The in-place version, which appends to a mutable list as the source does, is a method proved equal to it (`CollectElements`).
  - A second, path-based description of the walk (`Walk`, `EntriesAt`) is the reference against which order, coverage and the depth bound are proved.
- **WakeWordService** (`wake_word.dfy`) is the wake-word listener state machine:
  - replacement of the wake-word list;
  - handling of final results, partial results and errors;
  - the `isRestarting` debounce;
  - the delayed restart;
  - teardown.

  Android delivers recogniser callbacks one at a time; the model makes each one a method call.

The modules `Basics` (`Option`, sequence helpers) and `Text` (decimal numerals and their parser, join and split, substring after last dot, lowercasing, substring search) hold the library functions the services rely on.

Android objects are opaque. Whatever the platform answers becomes a method parameter:
- the media projection, virtual display and latest image;
- the clock;
- the active window's root;
- whether a gesture or global action was dispatched;
- whether speech recognition is available;
- what the recogniser heard.

JPEG compression at quality 40 followed by Base64 without wrapping is the uninterpreted function `encode`, a constant of the capture service.

Three behaviours of the capture service's start and teardown are modelled as the code has them:
- **Second start.** `onStartCommand` has no guard against a second start while capturing: it overwrites the held handles without releasing them (`SecondStartReplacesHandles`).
- **Release order.** `stopCapture` releases the virtual display, then the image reader, then the projection (`Releases`).
- **Failed start.** A failed start only calls `stopSelf`. The handles acquired so far stay held until `onDestroy` runs `stopCapture`. The model records the stop request (`stopRequested`) and keeps the handles.

The as-written model also shows three behaviours of the wake-word listener:
- An error that arrives after a restart, but before the new recogniser is ready, posts no further restart. Listening then stays stopped until the next `onStartCommand` (`ErrorBeforeReadyStalls`).
- A busy error never restarts (`BusyErrorDoesNotRestart`).
- A restart posted before `onDestroy` still runs. It creates a recogniser for the destroyed service, because `isDestroyed()` always answers false (`RestartAfterDestroy`).

## Model

Source paths are relative to the repository root.

| member | source | states |
|---|---|---|
| ScreenCapture.CaptureHeight | ai-avatar-app/app/src/main/java/com/aiavatar/app/ScreenCaptureService.kt:147 | The capture height h is the floor of 480 · heightPixels / widthPixels: h · width ≤ 480 · height < (h + 1) · width, and h ≥ 0. |
| ScreenCapture.CaptureHeightOfTallPhone | ai-avatar-app/app/src/main/java/com/aiavatar/app/ScreenCaptureService.kt:147 | A 1080 × 2280 display is captured 1013 pixels high. |
| ScreenCapture.TruncDiv | ai-avatar-app/app/src/main/java/com/aiavatar/app/ScreenCaptureService.kt:190 | Kotlin `Int` division: the quotient truncates toward zero, \|q\|·\|b\| ≤ \|a\| < (\|q\|+1)·\|b\|, and a non-zero quotient has the sign of the product of the operands. |
| ScreenCapture.PaddedWidthIsStrideInPixels | ai-avatar-app/app/src/main/java/com/aiavatar/app/ScreenCaptureService.kt:188-190 | When a row holds at least `width` pixels, `width + rowPadding / pixelStride` is the row stride in pixels. |
| ScreenCapture.Extract | ai-avatar-app/app/src/main/java/com/aiavatar/app/ScreenCaptureService.kt:184-199 | Extraction succeeds exactly when the pixel stride is non-zero, the padded width and the height are positive, the buffer holds the padded bitmap and the crop fits. A success is always `width × height`. It shows the captured rows exactly when the row stride is 4 bytes per padded pixel, and sheared rows otherwise. It is cropped exactly when the padded width differs from the width. |
| ScreenCapture.PaddedWidth | ai-avatar-app/app/src/main/java/com/aiavatar/app/ScreenCaptureService.kt:188-190 | `width + (rowStride - pixelStride * width) / pixelStride` with Kotlin's truncating division; `PaddedWidthIsStrideInPixels` states what it comes to. |
| ScreenCapture.CopiedPixels | ai-avatar-app/app/src/main/java/com/aiavatar/app/ScreenCaptureService.kt:191-192 | `copyPixelsFromBuffer` keeps the captured rows only when a bitmap row of `bmpWidth` pixels is exactly one row stride; the extraction contract and the two lemmas below state its cases. |
| ScreenCapture.RgbaPlaneKeepsRows | ai-avatar-app/app/src/main/java/com/aiavatar/app/ScreenCaptureService.kt:188-192 | An RGBA_8888 plane, with pixel stride 4 and a row stride that is a whole number of pixels, is copied row for row. |
| ScreenCapture.OddRowStrideShears | ai-avatar-app/app/src/main/java/com/aiavatar/app/ScreenCaptureService.kt:188-199 | A 481-pixel image whose row stride is 2 bytes longer than its pixels extracts without error and without a crop, but its rows come out sheared. |
| ScreenCapture.ExtractCropsPaddedRows | ai-avatar-app/app/src/main/java/com/aiavatar/app/ScreenCaptureService.kt:188-199 | A 481-pixel image with rows padded to 512 pixels gives a padded width of 512 and comes out cropped to exactly 481 wide. |
| ScreenCapture.PackedImageIsNotCropped | ai-avatar-app/app/src/main/java/com/aiavatar/app/ScreenCaptureService.kt:195-199 | A tightly packed 480 × 1013 image is extracted without a crop. |
| ScreenCapture.Releases | ai-avatar-app/app/src/main/java/com/aiavatar/app/ScreenCaptureService.kt:223-225 | Teardown releases each handle exactly when it is held, one release per held handle, no handle twice, and always in the order virtual display, image reader, projection. |
| ScreenCapture.StartOutcome | ai-avatar-app/app/src/main/java/com/aiavatar/app/ScreenCaptureService.kt:71-123 | `startCapture` runs exactly when the consent is valid and the foreground start succeeded. Capture is reached exactly when, in addition, the projection is granted, the height is positive and the virtual display is created. |
| ScreenCapture.ValidConsent | ai-avatar-app/app/src/main/java/com/aiavatar/app/ScreenCaptureService.kt:74-86 | The start guard: the result code, read as `RESULT_CANCELED` when missing, is `RESULT_OK`, and the consent data is present. `StartOutcome` states its role. |
| ScreenCapture.Assigned | ai-avatar-app/app/src/main/java/com/aiavatar/app/ScreenCaptureService.kt:138-173 | The field after `field = call()`: a granted handle is always taken, a handle already held is lost exactly when the platform answers null, and the field never holds anything but its previous handle or a granted one. |
| ScreenCapture.RateInvariantAccept | ai-avatar-app/app/src/main/java/com/aiavatar/app/ScreenCaptureService.kt:156-160 | Accepting a notification at least 450 ms after `lastFrameTime` keeps the accepted times spaced by at least 450 ms, with the newest equal to `lastFrameTime`. |
| ScreenCapture.StoreInvariantLater | ai-avatar-app/app/src/main/java/com/aiavatar/app/ScreenCaptureService.kt:156-161 | Moving `lastFrameTime` forward by the interval keeps the store invariant and leaves room for one more store. |
| ScreenCapture.StoreInvariantAppend | ai-avatar-app/app/src/main/java/com/aiavatar/app/ScreenCaptureService.kt:206-208 | Storing a frame under the cap advances the counter exactly by one with the stored frames. Stored frames stay under the cap and spaced by the interval. |
| ScreenCapture.ScreenCaptureService.FrameToStore | ai-avatar-app/app/src/main/java/com/aiavatar/app/ScreenCaptureService.kt:201-212 | A frame chosen for storage is shorter than 450 × 1024 characters. |
| ScreenCapture.ScreenCaptureService.FrameToStoreStoresEncodedFrame | ai-avatar-app/app/src/main/java/com/aiavatar/app/ScreenCaptureService.kt:182-212 | An acquired image is stored exactly when the pixel stride is non-zero, the crop fits in the padded width, the height is positive, the buffer holds the padded bitmap and the encoding of the `width` × `height` bitmap is under the cap. What is stored is that encoding. The bitmap shows the captured rows exactly when the row stride is 4 bytes per padded pixel. A zero pixel stride stores nothing. |
| ScreenCapture.ScreenCaptureService.constructor | ai-avatar-app/app/src/main/java/com/aiavatar/app/ScreenCaptureService.kt:40-61 | The initial state: not capturing, empty slot, zero counter, no handles, `lastFrameTime` 0. |
| ScreenCapture.ScreenCaptureService.CompanionStop | ai-avatar-app/app/src/main/java/com/aiavatar/app/ScreenCaptureService.kt:49-53 | The companion `stop` empties the slot, resets the counter and requests the stop. |
| ScreenCapture.ScreenCaptureService.OnStartCommand | ai-avatar-app/app/src/main/java/com/aiavatar/app/ScreenCaptureService.kt:71-123 | Each way the start can end: a missing intent, an invalid result or missing data, or a failed foreground start requests the stop and leaves the handles alone. Otherwise the result of `startCapture` holds, whose exceptions are caught and stop the service. The projection and a throwing virtual display keep their previous handles, as `Assigned` says. `isCapturing` becomes true only when every step succeeded. |
| ScreenCapture.ScreenCaptureService.StartCapture | ai-avatar-app/app/src/main/java/com/aiavatar/app/ScreenCaptureService.kt:135-179 | The projection field is assigned from `getMediaProjection`, keeping the old one when the call throws. A null or throwing projection, or a zero height, stops before the reader. The reader is 480 × height, RGBA_8888, 3 images. A null virtual display clears the field, and a throwing one keeps the previous display; both stop without capturing. Otherwise the display matches the reader and `isCapturing` is set. A display held before the start is lost only when the projection was granted and `createVirtualDisplay` answered null. |
| ScreenCapture.ScreenCaptureService.OnImageAvailable | ai-avatar-app/app/src/main/java/com/aiavatar/app/ScreenCaptureService.kt:154-162 | Under 450 ms, the newest image is acquired and closed, and nothing else changes. Otherwise `lastFrameTime` becomes `now` even if the frame is then dropped. The slot, counter and stored frames change exactly as `FrameToStore` says. The invariants are preserved. |
| ScreenCapture.ScreenCaptureService.ProcessFrame | ai-avatar-app/app/src/main/java/com/aiavatar/app/ScreenCaptureService.kt:181-218 | An acquired image is closed exactly once on every path. A null acquisition changes nothing. The slot is overwritten and the counter incremented by one exactly when `FrameToStore` yields a frame. |
| ScreenCapture.ScreenCaptureService.StopCapture | ai-avatar-app/app/src/main/java/com/aiavatar/app/ScreenCaptureService.kt:220-227 | Teardown leaves `isCapturing` false, the slot empty and all handles null. It releases exactly the handles that were held, in source order, so a second call releases nothing. |
| ScreenCapture.ScreenCaptureService.OnDestroy | ai-avatar-app/app/src/main/java/com/aiavatar/app/ScreenCaptureService.kt:127-133 | Destruction is the teardown. |
| ScreenCapture.StartOnTallPhone | ai-avatar-app/app/src/main/java/com/aiavatar/app/ScreenCaptureService.kt:147-176 | A granted start on a 1080 × 2280 display creates a 480 × 1013 RGBA reader of 3 images and captures. |
| ScreenCapture.TwoNotificationsTooClose | ai-avatar-app/app/src/main/java/com/aiavatar/app/ScreenCaptureService.kt:155-161 | Two notifications 100 ms apart store one frame and close both images. |
| ScreenCapture.OversizedFrameDropped | ai-avatar-app/app/src/main/java/com/aiavatar/app/ScreenCaptureService.kt:206-212 | A 460 KiB encoding is dropped: the counter and slot stay, while `lastFrameTime` advances. |
| ScreenCapture.StopTwice | ai-avatar-app/app/src/main/java/com/aiavatar/app/ScreenCaptureService.kt:220-227 | A second teardown releases nothing; the first released the virtual display, the reader and the projection in that order. |
| ScreenCapture.SecondStartReplacesHandles | ai-avatar-app/app/src/main/java/com/aiavatar/app/ScreenCaptureService.kt:135-176 | A second start while capturing replaces the projection without releasing anything and keeps capturing. |
| ScreenCapture.ThrowingDisplayKeepsHandle | ai-avatar-app/app/src/main/java/com/aiavatar/app/ScreenCaptureService.kt:112-120 | A second start whose `createVirtualDisplay` throws keeps the first display (8) beside the new projection (9). The teardown then releases the display, the reader and the projection. |
| ScreenCapture.ThrowingProjectionKeepsHandle | ai-avatar-app/app/src/main/java/com/aiavatar/app/ScreenCaptureService.kt:112-120 | A second start whose `getMediaProjection` throws keeps the first projection (7) and display (8). |
| Accessibility.Label | ai-avatar-app/app/src/main/java/com/aiavatar/app/TouchAccessibilityService.kt:43-47 | The label is the text if non-empty, else the content description; missing values count as "". It is empty exactly when both are. |
| Accessibility.CenterX | ai-avatar-app/app/src/main/java/com/aiavatar/app/TouchAccessibilityService.kt:50 | `Rect.centerX()` halves `left + right` rounding down: 2x ≤ left + right < 2x + 2. |
| Accessibility.CenterY | ai-avatar-app/app/src/main/java/com/aiavatar/app/TouchAccessibilityService.kt:51 | `Rect.centerY()` halves `top + bottom` rounding down: 2y ≤ top + bottom < 2y + 2. |
| Accessibility.Emits | ai-avatar-app/app/src/main/java/com/aiavatar/app/TouchAccessibilityService.kt:49 | A node is emitted when it has a label or is clickable; `AddOwnLine` and `CollectIsEntriesOfWalk` state its effect. |
| Accessibility.EntryOf | ai-avatar-app/app/src/main/java/com/aiavatar/app/TouchAccessibilityService.kt:41-52 | A node's entry: its centre, clickability, label, short class name and bounds. `EntryOfButton` shows one. |
| Accessibility.Collect | ai-avatar-app/app/src/main/java/com/aiavatar/app/TouchAccessibilityService.kt:39-60 | The entries `collectElements` appends for a node at a depth: none above depth 8, then the node's own entry if it emits, then its children's. `CollectIsEntriesOfWalk` and `CollectBelowLimit` state what it computes. |
| Accessibility.CollectFrom | ai-avatar-app/app/src/main/java/com/aiavatar/app/TouchAccessibilityService.kt:55-59 | The entries of the children from index `i` on, in index order, one level deeper; `CollectFromIsEntriesOfWalkFrom` relates it to the walk. |
| Accessibility.CollectChild | ai-avatar-app/app/src/main/java/com/aiavatar/app/TouchAccessibilityService.kt:56-58 | The entries of child `i`: none for a null child, the child's subtree otherwise; `CollectChildIsEntriesOfWalkChild` relates it to the walk. |
| Accessibility.ShortClassName | ai-avatar-app/app/src/main/java/com/aiavatar/app/TouchAccessibilityService.kt:45 | The short class name holds no '.', is "" for a missing class name and is the part after the last '.' otherwise. |
| Text.AfterLastDotWithoutDot | ai-avatar-app/app/src/main/java/com/aiavatar/app/TouchAccessibilityService.kt:45 | A name without '.' is left whole. |
| Text.AfterLastDotOfQualified | ai-avatar-app/app/src/main/java/com/aiavatar/app/TouchAccessibilityService.kt:45 | For any qualifier `a` and a simple name `b`, `a.b` shortens to `b`. |
| Accessibility.EntryOfButton | ai-avatar-app/app/src/main/java/com/aiavatar/app/TouchAccessibilityService.kt:41-53 | A clickable `android.widget.Button` "OK" at (0,0,100,40) gives the entry centred at (50,20), labelled "OK", of class "Button". |
| Accessibility.CollectIsEntriesOfWalk | ai-avatar-app/app/src/main/java/com/aiavatar/app/TouchAccessibilityService.kt:39-60 | The flattener's entries are exactly the entries of the emitting nodes among the visited paths, in visiting order. |
| Accessibility.WalkVisits | ai-avatar-app/app/src/main/java/com/aiavatar/app/TouchAccessibilityService.kt:40-57 | A path is visited exactly when every step names a present child and the node's depth is at most 8. Null children and deeper nodes, with their subtrees, are skipped. |
| Accessibility.WalkIsOrdered | ai-avatar-app/app/src/main/java/com/aiavatar/app/TouchAccessibilityService.kt:49-59 | The visited paths are strictly in document order: a node before its descendants, earlier children's subtrees before later ones. |
| Accessibility.AncestorPrecedes | ai-avatar-app/app/src/main/java/com/aiavatar/app/TouchAccessibilityService.kt:49-57 | In document order, an ancestor precedes each of its descendants. |
| Accessibility.PreLessAsymmetric | ai-avatar-app/app/src/main/java/com/aiavatar/app/TouchAccessibilityService.kt:49-59 | Of two paths, at most one precedes the other in document order. |
| Accessibility.WalkAncestorFirst | ai-avatar-app/app/src/main/java/com/aiavatar/app/TouchAccessibilityService.kt:49-59 | In the walk, every node is visited before each of its descendants. |
| Accessibility.PreLessIrreflexive | ai-avatar-app/app/src/main/java/com/aiavatar/app/TouchAccessibilityService.kt:55-59 | Document order is strict. |
| Accessibility.OrderedHasNoDuplicates | ai-avatar-app/app/src/main/java/com/aiavatar/app/TouchAccessibilityService.kt:55-59 | A strictly ordered walk visits no node twice. |
| Accessibility.CollectIsBoundedByWalk | ai-avatar-app/app/src/main/java/com/aiavatar/app/TouchAccessibilityService.kt:49-53 | There are no more entries than nodes at depth at most 8. |
| Accessibility.CollectBelowLimit | ai-avatar-app/app/src/main/java/com/aiavatar/app/TouchAccessibilityService.kt:40 | A node deeper than 8 yields nothing and is not descended into. |
| Accessibility.Render | ai-avatar-app/app/src/main/java/com/aiavatar/app/TouchAccessibilityService.kt:52 | A rendered entry is non-empty and starts with '['. |
| Accessibility.ScreenElements | ai-avatar-app/app/src/main/java/com/aiavatar/app/TouchAccessibilityService.kt:25-33 | What `getScreenElements` returns for a connection state and an active window; `ScreenElementsReport` states its cases. |
| Accessibility.CoordinatesRoundTrip | ai-avatar-app/app/src/main/java/com/aiavatar/app/TouchAccessibilityService.kt:52 | The comma-separated numbers of a line split back into as many numerals, which parse back to the numbers. |
| Accessibility.RenderIsOneLine | ai-avatar-app/app/src/main/java/com/aiavatar/app/TouchAccessibilityService.kt:52 | A rendered entry holds no newline when its label and class name hold none. |
| Accessibility.ScreenElementsReport | ai-avatar-app/app/src/main/java/com/aiavatar/app/TouchAccessibilityService.kt:25-33 | Each sentinel appears exactly in its case. "service_not_running" means no instance, "no_root_window" means no root, and "no_elements" means no entry. Otherwise the report starts with '['. When no label or class name holds a newline, it splits on newlines back into the rendered entries. |
| Accessibility.ActionMessageInjective | ai-avatar-app/app/src/main/java/com/aiavatar/app/TouchAccessibilityService.kt:115-134 | The global-action status lines tell the three actions and success from failure apart; they start with ✅ exactly on success. |
| Accessibility.ActionMessage | ai-avatar-app/app/src/main/java/com/aiavatar/app/TouchAccessibilityService.kt:117-133 | The status line of a global action, ✅ or ❌ with the action's name; `ActionMessageInjective` states that the lines are distinct. |
| Accessibility.ElementList.Add | ai-avatar-app/app/src/main/java/com/aiavatar/app/TouchAccessibilityService.kt:52 | `list.add` appends the line. |
| Accessibility.CollectElements | ai-avatar-app/app/src/main/java/com/aiavatar/app/TouchAccessibilityService.kt:39-60 | The in-place flattener appends to the list exactly the rendered entries of `Collect`. |
| Accessibility.AddOwnLine | ai-avatar-app/app/src/main/java/com/aiavatar/app/TouchAccessibilityService.kt:49-53 | A node adds its own line exactly when it is labelled or clickable. |
| Accessibility.CollectChildren | ai-avatar-app/app/src/main/java/com/aiavatar/app/TouchAccessibilityService.kt:55-59 | The loop over the children appends their lines in index order, one level deeper. |
| Accessibility.CollectChildElements | ai-avatar-app/app/src/main/java/com/aiavatar/app/TouchAccessibilityService.kt:56-57 | A null child adds nothing; a present child adds its subtree's lines. |
| Accessibility.TouchAccessibilityService.constructor | ai-avatar-app/app/src/main/java/com/aiavatar/app/TouchAccessibilityService.kt:17-22 | Initially there is no instance, `isRunning` is false and `lastResult` is "". |
| Accessibility.TouchAccessibilityService.OnServiceConnected | ai-avatar-app/app/src/main/java/com/aiavatar/app/TouchAccessibilityService.kt:137-143 | Connecting registers the instance, sets `isRunning` and the started status line. |
| Accessibility.TouchAccessibilityService.OnDestroy | ai-avatar-app/app/src/main/java/com/aiavatar/app/TouchAccessibilityService.kt:148-153 | Destruction clears the instance and `isRunning`. |
| Accessibility.TouchAccessibilityService.GetScreenElements | ai-avatar-app/app/src/main/java/com/aiavatar/app/TouchAccessibilityService.kt:25-33 | The imperative report built through the mutable list equals `ScreenElements`, whose properties `ScreenElementsReport` states. It is the same report whether the connection is read from `instance` or from the published `isRunning`, which stay in step. |
| Accessibility.TouchAccessibilityService.Tap | ai-avatar-app/app/src/main/java/com/aiavatar/app/TouchAccessibilityService.kt:62-89 | The tap returns true exactly when connected and the gesture was dispatched. With no instance it sets "服务未运行". A false dispatch sets the dispatchGesture status line, and a thrown dispatch sets the failure line with the message. A success implies `isRunning`, which stays in step with `instance`. |
| Accessibility.TouchAccessibilityService.Swipe | ai-avatar-app/app/src/main/java/com/aiavatar/app/TouchAccessibilityService.kt:91-113 | The swipe returns true exactly when connected and dispatched. With no instance it sets "服务未运行". A false dispatch leaves the status line, and a thrown dispatch sets the failure line. A success implies `isRunning`, which stays in step with `instance`. |
| Accessibility.TouchAccessibilityService.Press | ai-avatar-app/app/src/main/java/com/aiavatar/app/TouchAccessibilityService.kt:115-134 | Back, Home and Recents return true exactly when connected and performed. With no instance they leave `lastResult` alone; otherwise they set the action's success or failure line. A success implies `isRunning`, which stays in step with `instance`. |
| Text.ParseIntOfIntToString | ai-avatar-app/app/src/main/java/com/aiavatar/app/TouchAccessibilityService.kt:52 | The decimal form of an integer parses back to it. |
| Text.IntToString | ai-avatar-app/app/src/main/java/com/aiavatar/app/TouchAccessibilityService.kt:52 | The decimal form of an integer is non-empty, starts with '-' exactly for a negative number, and is digits otherwise. |
| Text.Join | ai-avatar-app/app/src/main/java/com/aiavatar/app/TouchAccessibilityService.kt:33 | `joinToString` with a one-character separator; `SplitJoin` and `JoinAvoids` state its properties. |
| Text.AfterLastDot | ai-avatar-app/app/src/main/java/com/aiavatar/app/TouchAccessibilityService.kt:45 | `substringAfterLast('.')` is a dot-free suffix of the name, preceded by a '.' whenever it is shorter than the name. |
| Text.SplitJoin | ai-avatar-app/app/src/main/java/com/aiavatar/app/TouchAccessibilityService.kt:33 | Joining a non-empty list of pieces that avoid the separator and splitting the result again gives the pieces back. |
| Text.Contains | ai-avatar-app/app/src/main/java/com/aiavatar/app/WakeWordService.kt:87 | `contains` holds exactly when the pattern occurs at some offset. |
| Text.LowerIsLowercase | ai-avatar-app/app/src/main/java/com/aiavatar/app/WakeWordService.kt:83 | Lowercasing leaves no upper-case letter and is idempotent. |
| Text.Lower | ai-avatar-app/app/src/main/java/com/aiavatar/app/WakeWordService.kt:83 | Lowercasing keeps the length and lowercases each character, ASCII letters only; `LowerIsLowercase` proves the result has no upper case and is a fixed point. |
| WakeWord.ErrorNameInjective | ai-avatar-app/app/src/main/java/com/aiavatar/app/WakeWordService.kt:105-112 | Distinct error codes are logged under distinct names, including the `error_<n>` fallback. |
| WakeWord.ErrorName | ai-avatar-app/app/src/main/java/com/aiavatar/app/WakeWordService.kt:105-112 | The name under which an error code is logged; `ErrorNameInjective` states that distinct codes get distinct names. |
| WakeWord.ReplaceWakeWords | ai-avatar-app/app/src/main/java/com/aiavatar/app/WakeWordService.kt:44-46 | A supplied non-empty list replaces the wake words; a missing or empty one keeps them. `ReplaceWakeWordsKeepsList` proves the list is never emptied and the replacement is idempotent. |
| WakeWord.ReplaceWakeWordsKeepsList | ai-avatar-app/app/src/main/java/com/aiavatar/app/WakeWordService.kt:44-46 | The list is never emptied, and supplying the same list twice is the same as once. |
| WakeWord.FirstResult | ai-avatar-app/app/src/main/java/com/aiavatar/app/WakeWordService.kt:82-83 | The heard text is the lowercased first candidate, or "" with no candidates, and has no upper-case letter. |
| WakeWord.AnyMatches | ai-avatar-app/app/src/main/java/com/aiavatar/app/WakeWordService.kt:87 | The in-order scan finds a match exactly when some lowercased wake word occurs in the text. |
| WakeWord.HearingAWakeWordDetects | ai-avatar-app/app/src/main/java/com/aiavatar/app/WakeWordService.kt:83-89 | Hearing a wake word in any letter case, alone or inside a longer utterance, is a detection. |
| WakeWord.EmptyWakeWordAlwaysDetects | ai-avatar-app/app/src/main/java/com/aiavatar/app/WakeWordService.kt:87 | An empty wake word in a supplied list matches every utterance. |
| WakeWord.WakeWordService.constructor | ai-avatar-app/app/src/main/java/com/aiavatar/app/WakeWordService.kt:27-36 | Initially: the wake words ["小助手", "你好", "嗨"], nothing heard, nothing detected, not listening, not restarting, no recogniser. |
| WakeWord.WakeWordService.OnStartCommand | ai-avatar-app/app/src/main/java/com/aiavatar/app/WakeWordService.kt:43-54 | The wake words become `ReplaceWakeWords` of the old ones, then listening starts. |
| WakeWord.WakeWordService.StartListening | ai-avatar-app/app/src/main/java/com/aiavatar/app/WakeWordService.kt:65-73 | Unavailable recognition changes nothing. Otherwise the old recogniser is destroyed and a new one becomes current. |
| WakeWord.WakeWordService.StopListening | ai-avatar-app/app/src/main/java/com/aiavatar/app/WakeWordService.kt:151-157 | The current recogniser, if any, is destroyed and forgotten. No recogniser is ever destroyed twice. |
| WakeWord.WakeWordService.OnReadyForSpeech | ai-avatar-app/app/src/main/java/com/aiavatar/app/WakeWordService.kt:75-79 | Readiness sets `isListening` and clears `isRestarting`. |
| WakeWord.WakeWordService.OnResults | ai-avatar-app/app/src/main/java/com/aiavatar/app/WakeWordService.kt:81-96 | `lastHeard` becomes the lowercased first result. `wakeDetected` becomes true if a wake word occurs in it and is never reset. Each detection fires one wake event. A restart is posted unless one is under way. |
| WakeWord.WakeWordService.OnPartialResults | ai-avatar-app/app/src/main/java/com/aiavatar/app/WakeWordService.kt:98-102 | Only a non-empty partial result replaces `lastHeard`. |
| WakeWord.WakeWordService.OnError | ai-avatar-app/app/src/main/java/com/aiavatar/app/WakeWordService.kt:104-118 | The error is named by `ErrorName`. A busy error changes nothing; every other code asks for a restart. |
| WakeWord.WakeWordService.RestartListening | ai-avatar-app/app/src/main/java/com/aiavatar/app/WakeWordService.kt:141-149 | While `isRestarting` is set nothing happens; otherwise it is set and one restart is posted. |
| WakeWord.WakeWordService.RunPendingRestart | ai-avatar-app/app/src/main/java/com/aiavatar/app/WakeWordService.kt:144-148 | A posted restart runs once and starts listening; `isDestroyed()` is always false. |
| WakeWord.WakeWordService.OnDestroy | ai-avatar-app/app/src/main/java/com/aiavatar/app/WakeWordService.kt:58-63 | Destruction leaves no recogniser and `isListening` false. |
| WakeWord.ErrorBeforeReadyStalls | ai-avatar-app/app/src/main/java/com/aiavatar/app/WakeWordService.kt:141-149 | After a restart, an error before readiness posts no restart, leaving `isRestarting` set with nothing pending. |
| WakeWord.BusyErrorDoesNotRestart | ai-avatar-app/app/src/main/java/com/aiavatar/app/WakeWordService.kt:115-117 | A busy error posts no restart even when none is under way. |
| WakeWord.RestartAfterDestroy | ai-avatar-app/app/src/main/java/com/aiavatar/app/WakeWordService.kt:144-148 | A restart posted before `onDestroy` creates a new recogniser after it, while `isListening` stays false. |
| WakeWord.DetectionIsSticky | ai-avatar-app/app/src/main/java/com/aiavatar/app/WakeWordService.kt:87-89 | An empty supplied list keeps the defaults. Hearing "你好" detects, and a later miss does not clear the flag. |

## Left out

- Logging, `debugInfo` and `lastError`, notification channels, notifications and their texts are left out: they are diagnostics and user interface. The foreground-service start is a boolean parameter of `onStartCommand`; the wake-word notification update and the `onWakeDetected` callback are counted as `wakeEvents`.
- Threads and timing are left out: the capture handler thread, `@Volatile` fields, and the 500 ms delay of `postDelayed`. Every callback is a sequential method call, and the delayed restart is a pending task run by `RunPendingRestart`.
- ScreenCapture.CaptureHeight: the source computes the height in single-precision floating point and truncates it. The model uses integer floor division, which agrees except where float rounding crosses an integer. The display width and height are positive by type; a zero width, where the source's quotient would be infinite, is not modelled.
- ScreenCapture.ScreenCaptureService.FrameToStore: JPEG compression and Base64 are the uninterpreted `encode`. Only the encoded length matters to the pipeline.
- ScreenCapture.Extract: the pixels are not modelled byte by byte. A bitmap shows either the image's captured rows or sheared rows. Int overflow in the 32-bit arithmetic of the padding computation is not modelled.
- `frameCount` is a Kotlin `Long`; the model's counter is unbounded, so overflow after 2^63 frames is not modelled.
- Which Android version is running is left out. That covers the choice between the two `getParcelableExtra` calls and the foreground service types. It also covers the "needs Android 7+" branch of `tap` and `swipe`, which is dead because the app's minimum SDK level is 26.
- `Bitmap.recycle`, `AccessibilityNodeInfo.recycle` and `HandlerThread.quitSafely` have no observable effect in the model.
- The companion-object state outliving a service instance is not modelled. The model covers one service instance per process, and its constructor starts the companion fields with the instance. In the source, `isCapturing`, `latestFrame` and `frameCount` of the capture service, and `wakeWords`, `lastHeard`, `wakeDetected` and `isListening` of the wake-word service, persist across instances. So after `onDestroy` and a new start, the source keeps counting frames, while the new instance's `lastFrameTime` is 0. A frame can then be stored within 450 ms of the previous instance's last frame; the model's store invariant does not cover that history.
- A throwing `acquireLatestImage` in `processFrame` is not modelled. That call sits outside the `try` block and the exception escapes the listener. The model's `None` stands only for a null image there; on the rejected path a thrown exception is caught and counts as no image.
- `stopSelf` and `stopService` are recorded as the `stopRequested` flag. The system's later `onDestroy` call is a separate method.
- The `error: <message>` result of `getScreenElements` is left out. It only arises when the platform throws while the live node tree is read, and the model's tree is an immutable value.
- The gesture callbacks `onCompleted` and `onCancelled` are left out. They set `lastResult` later, with float coordinates formatted into the text. The stroke path and the swipe duration only go to the platform.
- Text.Lower: Kotlin's `lowercase()` is full Unicode lowercasing. The model lowercases ASCII letters only, which covers the Chinese defaults (they have no case) and Latin wake words.
- WakeWord.WakeWordService.StopListening: a throwing `stopListening()` call on the recogniser skips its `destroy()` while the field is still cleared. The model always logs the recogniser as destroyed; the recogniser itself is platform code outside the model.
- The recognition intent extras (language zh-CN, partial results, one result) are not modelled. A failing `startListening` call is caught and changes nothing.
- `onCreate`, `onBind`, `onAccessibilityEvent` and `onInterrupt` hold no logic the model needs.
- MainActivity.kt, ReminderReceiver.kt and the build configuration are not part of this model.
