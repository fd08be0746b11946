/** The barcode decode cascade `decode_image_isbn` (app.py:436-553) over abstract
    image frames. The image operations (colour conversion, Otsu thresholding, rotation,
    cropping), the barcode reader and the vision model are parameters: only the order
    in which frames are tried, the crop arithmetic and the parsing of the model's reply
    are modelled. */
module Scanner {
  import opened Options
  import opened Text

  /** One symbol the barcode reader reports: its symbology and its payload, already
      decoded from UTF-8. */
  datatype Symbol = Symbol(kind: string, data: string)

  /** The frames the cascade scans. */
  datatype Variant = Original | Gray | Thresh | GrayCrop | ThreshCrop | GrayFull | ThreshFull | Gray90 | Thresh90

  /** The order of app.py:457-513: the untouched image, grayscale, binarized, then the
      queued attempts (centre crop, full frame, rotated). */
  const ScanOrder: seq<Variant> :=
    [Original, Gray, Thresh, GrayCrop, ThreshCrop, GrayFull, ThreshFull, Gray90, Thresh90]

  /** A rectangle of an image: `img[top:top+height, left:left+width]`. */
  datatype Window = Window(top: int, left: int, height: int, width: int)

  /** The centre crop of app.py:492-495: half the height and half the width, inside the
      image and centred to within one pixel on each axis. */
  function CentreCrop(h: nat, w: nat): (win: Window)
    ensures win.height == h / 2 && win.width == w / 2
    ensures 0 <= win.top && win.top + win.height <= h
    ensures 0 <= win.left && win.left + win.width <= w
    ensures -1 <= win.top - (h - (win.top + win.height)) <= 1
    ensures -1 <= win.left - (w - (win.left + win.width)) <= 1
  {
    var cy, cx := h / 2, w / 2;
    var ch, cw := h / 2, w / 2;
    Window(cy - ch / 2, cx - cw / 2, ch, cw)
  }

  /** The image operations the cascade calls. `toBgr` is `np.array(image.convert('RGB'))`
      with its channels reversed, `None` when that raises; `shape` gives `(height, width)`. */
  datatype Imaging<!Img> = Imaging(
    toBgr: Img -> Option<Img>,
    grayscale: Img -> Img,
    binarize: Img -> Img,
    rotate90: Img -> Img,
    crop: (Img, Window) -> Img,
    shape: Img -> (nat, nat))

  /** Everything else the cascade depends on: whether pyzbar imported, the reader
      (`None` when it raises), the image operations, the configured API key and the vision
      model's reply to this image (`None` when the call raises). */
  datatype Setup<!Img> = Setup(
    pyzbar: bool,
    scan: Img -> Option<seq<Symbol>>,
    imaging: Imaging<Img>,
    apiKey: string,
    aiReply: Option<string>)

  /** The payload of the first `EAN13` symbol. */
  function FirstEan13(symbols: seq<Symbol>): Option<string>
    decreases |symbols|
  {
    if symbols == [] then None
    else if symbols[0].kind == "EAN13" then Some(symbols[0].data)
    else FirstEan13(symbols[1..])
  }

  /** `FirstEan13` finds nothing exactly when no symbol is an `EAN13`, and otherwise
      returns the payload of the first one. */
  lemma {:induction false} FirstEan13Spec(symbols: seq<Symbol>)
    ensures var r := FirstEan13(symbols);
            && (r.None? <==> forall i :: 0 <= i < |symbols| ==> symbols[i].kind != "EAN13")
            && (r.Some? ==>
                  exists i :: 0 <= i < |symbols| && symbols[i].kind == "EAN13" && r.value == symbols[i].data
                              && forall j :: 0 <= j < i ==> symbols[j].kind != "EAN13")
    decreases |symbols|
  {
    if symbols != [] && symbols[0].kind != "EAN13" {
      FirstEan13Spec(symbols[1..]);
      var r := FirstEan13(symbols[1..]);
      if r.Some? {
        var i :| 0 <= i < |symbols[1..]| && symbols[1..][i].kind == "EAN13" && r.value == symbols[1..][i].data
                 && forall j :: 0 <= j < i ==> symbols[1..][j].kind != "EAN13";
        assert symbols[i + 1] == symbols[1..][i];
        assert forall j :: 1 <= j < i + 1 ==> symbols[j] == symbols[1..][j - 1];
      } else {
        assert forall i :: 1 <= i < |symbols| ==> symbols[i] == symbols[1..][i - 1];
      }
    }
  }

  /** scan_frame (app.py:447-455): nothing without pyzbar or when the reader raises,
      otherwise the payload of the first `EAN13` symbol. */
  function ScanFrame<Img>(env: Setup<Img>, frame: Img): Option<string> {
    if !env.pyzbar then None
    else match env.scan(frame)
      case None => None
      case Some(symbols) => FirstEan13(symbols)
  }

  /** A frame yields something only when pyzbar is present, the reader returned, and one
      of the symbols it returned is an `EAN13` carrying exactly that payload. */
  lemma ScanFrameSpec<Img>(env: Setup<Img>, frame: Img)
    ensures var r := ScanFrame(env, frame);
            r.Some? ==> env.pyzbar && env.scan(frame).Some?
                        && exists s :: s in env.scan(frame).value && s.kind == "EAN13" && s.data == r.value
  {
    if env.pyzbar && env.scan(frame).Some? {
      FirstEan13Spec(env.scan(frame).value);
    }
  }

  /** `if res:` — a result counts only when it is a non-empty string. */
  predicate Found(res: Option<string>) {
    res.Some? && res.value != ""
  }

  /** The frame each variant names, built from the image and its BGR conversion. */
  function FrameOf<Img>(im: Imaging<Img>, image: Img, bgr: Img, v: Variant): Img {
    var crop := im.crop(bgr, CentreCrop(im.shape(bgr).0, im.shape(bgr).1));
    match v
    case Original => image
    case Gray => im.grayscale(bgr)
    case Thresh => im.binarize(im.grayscale(bgr))
    case GrayCrop => im.grayscale(crop)
    case ThreshCrop => im.binarize(im.grayscale(crop))
    case GrayFull => im.grayscale(bgr)
    case ThreshFull => im.binarize(im.grayscale(bgr))
    case Gray90 => im.grayscale(im.rotate90(bgr))
    case Thresh90 => im.binarize(im.grayscale(im.rotate90(bgr)))
  }

  /** What scanning variant `v` yields; every variant but the original needs the BGR
      conversion, and yields nothing when it failed. */
  function Attempt<Img>(env: Setup<Img>, image: Img, v: Variant): Option<string> {
    if v == Original then ScanFrame(env, image)
    else match env.imaging.toBgr(image)
      case None => None
      case Some(bgr) => ScanFrame(env, FrameOf(env.imaging, image, bgr, v))
  }

  /** The result of the first variant of `vs` that finds something. */
  function FirstFound<Img>(env: Setup<Img>, image: Img, vs: seq<Variant>): Option<string>
    decreases |vs|
  {
    if vs == [] then None
    else if Found(Attempt(env, image, vs[0])) then Attempt(env, image, vs[0])
    else FirstFound(env, image, vs[1..])
  }

  /** `FirstFound` finds nothing exactly when no variant does, and otherwise returns a
      non-empty result of one of the variants. */
  lemma {:induction false} FirstFoundSpec<Img>(env: Setup<Img>, image: Img, vs: seq<Variant>)
    ensures var r := FirstFound(env, image, vs);
            && (r.None? <==> forall k :: 0 <= k < |vs| ==> !Found(Attempt(env, image, vs[k])))
            && (r.Some? ==> Found(r) && exists k :: 0 <= k < |vs| && r == Attempt(env, image, vs[k]))
    decreases |vs|
  {
    if vs != [] && !Found(Attempt(env, image, vs[0])) {
      FirstFoundSpec(env, image, vs[1..]);
      var r := FirstFound(env, image, vs[1..]);
      if r.Some? {
        var k :| 0 <= k < |vs[1..]| && r == Attempt(env, image, vs[1..][k]);
        assert vs[k + 1] == vs[1..][k];
      } else {
        forall k | 0 <= k < |vs| ensures !Found(Attempt(env, image, vs[k])) {
          if k > 0 {
            assert vs[k] == vs[1..][k - 1];
          }
        }
      }
    }
  }

  /** The first successful variant decides the result. */
  lemma {:induction false} FirstFoundIsFirst<Img>(env: Setup<Img>, image: Img, vs: seq<Variant>, k: nat)
    requires k < |vs| && Found(Attempt(env, image, vs[k]))
    requires forall j :: 0 <= j < k ==> !Found(Attempt(env, image, vs[j]))
    ensures FirstFound(env, image, vs) == Attempt(env, image, vs[k])
    decreases k
  {
    if k > 0 {
      assert !Found(Attempt(env, image, vs[0]));
      assert vs[1..][k - 1] == vs[k];
      FirstFoundIsFirst(env, image, vs[1..], k - 1);
    }
  }

  /** Scanning `a` then `b` is scanning `a + b`. */
  lemma {:induction false} FirstFoundAppend<Img>(env: Setup<Img>, image: Img, a: seq<Variant>, b: seq<Variant>)
    ensures FirstFound(env, image, a + b)
            == if FirstFound(env, image, a).Some? then FirstFound(env, image, a) else FirstFound(env, image, b)
    decreases |a|
  {
    if a == [] {
      assert a + b == b;
    } else {
      assert (a + b)[0] == a[0];
      assert (a + b)[1..] == a[1..] + b;
      FirstFoundAppend(env, image, a[1..], b);
    }
  }

  /** The AI step (app.py:516-553): only with an API key, and nothing when the call raises. */
  function AiFallback(apiKey: string, reply: Option<string>): (r: Option<string>)
    ensures apiKey == "" || reply.None? ==> r.None?
    ensures apiKey != "" && reply.Some? ==> r == ParseAiReply(reply.value)
  {
    if apiKey == "" then None
    else match reply
      case None => None
      case Some(text) => ParseAiReply(text)
  }

  /** What decode_image_isbn returns when none of its OpenCV calls raises: the first frame
      that yields a non-empty result; `None` if the BGR conversion failed; otherwise the AI
      step. */
  function Scanned<Img>(env: Setup<Img>, image: Img): Option<string> {
    var hit := FirstFound(env, image, ScanOrder);
    if hit.Some? then hit
    else if env.imaging.toBgr(image).None? then None
    else AiFallback(env.apiKey, env.aiReply)
  }

  /** How decode_image_isbn ends: it returns a value, or an exception escapes it. */
  datatype Outcome = Raised | Returned(value: Option<string>)

  /** `cv2.cvtColor` raises on a frame with no pixel, and only the BGR conversion is guarded
      (app.py:462-467). The converted image has no pixel when it has no row or no column: the
      call at app.py:470 raises once the untouched image has been scanned. The centre crop has
      no pixel when the image is under two pixels high or wide: the call at app.py:500 raises
      once the first three variants have been scanned. The result is the number of variants
      scanned before the exception, or `None` when no call raises. */
  function FailurePoint<Img>(env: Setup<Img>, image: Img): (k: Option<nat>)
    ensures k.Some? ==> k.value == 1 || k.value == 3
    ensures k.Some? ==> env.imaging.toBgr(image).Some?
  {
    match env.imaging.toBgr(image)
    case None => None
    case Some(bgr) =>
      var size := env.imaging.shape(bgr);
      var win := CentreCrop(size.0, size.1);
      if size.0 == 0 || size.1 == 0 then Some(1)
      else if win.height == 0 || win.width == 0 then Some(3)
      else None
  }

  /** What decode_image_isbn does: it raises when an OpenCV call fails before a scanned variant
      succeeded, and otherwise returns `Scanned`. */
  function Cascade<Img>(env: Setup<Img>, image: Img): Outcome {
    match FailurePoint(env, image)
    case Some(k) => if FirstFound(env, image, ScanOrder[..k]).None? then Raised else Returned(Scanned(env, image))
    case None => Returned(Scanned(env, image))
  }

  /** decode_image_isbn (app.py:436-553). Besides the outcome it reports the variants it
      scanned, in order: a prefix of `ScanOrder` that stops at the first success, at the
      failed conversion, or where an OpenCV call raised. */
  method DecodeImageIsbn<Img>(env: Setup<Img>, image: Img) returns (r: Outcome, tried: seq<Variant>)
    ensures r == Cascade(env, image)
    ensures 1 <= |tried| <= |ScanOrder| && tried == ScanOrder[..|tried|]
    ensures forall j :: 0 <= j < |tried| - 1 ==> !Found(Attempt(env, image, ScanOrder[j]))
    ensures r.Raised? ==>
              FailurePoint(env, image) == Some(|tried|) && !Found(Attempt(env, image, ScanOrder[|tried| - 1]))
    ensures r.Returned? && |tried| < |ScanOrder| ==>
              || (Found(Attempt(env, image, ScanOrder[|tried| - 1])) && r.value == Attempt(env, image, ScanOrder[|tried| - 1]))
              || (|tried| == 1 && env.imaging.toBgr(image).None? && r.value.None?)
  {
    var im := env.imaging;
    // 1. the untouched image
    tried := ScanOrder[..1];
    var res := ScanFrame(env, image);
    if Found(res) {
      EarliestVariantWins(env, image, 0);
      return Returned(res), tried;
    }
    var converted := im.toBgr(image);
    if converted.None? {
      ConversionFailureSkipsAi(env, image);
      return Returned(None), tried;
    }
    r, tried := ScanConverted(env, image, converted.value);
  }

  /** Steps 2 and 3 of decode_image_isbn (app.py:469-477) on the BGR conversion, then the
      queued attempts. */
  method ScanConverted<Img>(env: Setup<Img>, image: Img, bgr: Img) returns (r: Outcome, tried: seq<Variant>)
    requires env.imaging.toBgr(image) == Some(bgr)
    requires !Found(Attempt(env, image, Original))
    ensures r == Cascade(env, image)
    ensures 1 <= |tried| <= |ScanOrder| && tried == ScanOrder[..|tried|]
    ensures forall j :: 0 <= j < |tried| - 1 ==> !Found(Attempt(env, image, ScanOrder[j]))
    ensures r.Raised? ==>
              FailurePoint(env, image) == Some(|tried|) && !Found(Attempt(env, image, ScanOrder[|tried| - 1]))
    ensures r.Returned? ==> 2 <= |tried|
    ensures r.Returned? && |tried| < |ScanOrder| ==>
              Found(Attempt(env, image, ScanOrder[|tried| - 1])) && r.value == Attempt(env, image, ScanOrder[|tried| - 1])
  {
    var im := env.imaging;
    tried := ScanOrder[..1];
    var size := im.shape(bgr);
    if size.0 == 0 || size.1 == 0 {
      // cv2.cvtColor raises on an image with no pixel
      FailureRaises(env, image, 1);
      return Raised, tried;
    }
    // 2. grayscale
    var gray := im.grayscale(bgr);
    tried := ScanOrder[..2];
    var res := ScanFrame(env, gray);
    if Found(res) {
      EarliestVariantWins(env, image, 1);
      return Returned(res), tried;
    }
    // 3. binarized
    var thresh := im.binarize(gray);
    tried := ScanOrder[..3];
    res := ScanFrame(env, thresh);
    if Found(res) {
      EarliestVariantWins(env, image, 2);
      return Returned(res), tried;
    }
    r, tried := ScanQueued(env, image, bgr);
  }

  /** The queued attempts of decode_image_isbn (app.py:483-513), built before any is
      scanned and then scanned in order, then the AI step (app.py:516-553) when none of them
      finds anything. */
  method ScanQueued<Img>(env: Setup<Img>, image: Img, bgr: Img) returns (r: Outcome, tried: seq<Variant>)
    requires env.imaging.toBgr(image) == Some(bgr)
    requires env.imaging.shape(bgr).0 > 0 && env.imaging.shape(bgr).1 > 0
    requires forall j :: 0 <= j < 3 ==> !Found(Attempt(env, image, ScanOrder[j]))
    ensures r == Cascade(env, image)
    ensures 3 <= |tried| <= |ScanOrder| && tried == ScanOrder[..|tried|]
    ensures forall j :: 0 <= j < |tried| - 1 ==> !Found(Attempt(env, image, ScanOrder[j]))
    ensures r.Raised? <==> |tried| == 3
    ensures r.Raised? ==> FailurePoint(env, image) == Some(3)
    ensures r.Returned? && |tried| < |ScanOrder| ==>
              Found(Attempt(env, image, ScanOrder[|tried| - 1])) && r.value == Attempt(env, image, ScanOrder[|tried| - 1])
  {
    var im := env.imaging;
    var shape := im.shape(bgr);
    var h, w := shape.0, shape.1;
    var img90 := im.rotate90(bgr);
    var win := CentreCrop(h, w);
    var imgCrop := im.crop(bgr, win);
    var grayFull := im.grayscale(bgr);
    var gray90 := im.grayscale(img90);
    tried := ScanOrder[..3];
    if win.height == 0 || win.width == 0 {
      // cv2.cvtColor raises on the empty centre crop
      FailureRaises(env, image, 3);
      return Raised, tried;
    }
    var grayCrop := im.grayscale(imgCrop);
    var threshFull := im.binarize(grayFull);
    var thresh90 := im.binarize(gray90);
    var threshCrop := im.binarize(grayCrop);
    var attempts := [grayCrop, threshCrop, grayFull, threshFull, gray90, thresh90];
    assert forall i :: 0 <= i < 6 ==> attempts[i] == FrameOf(im, image, bgr, ScanOrder[3 + i]);
    for i := 0 to |attempts|
      invariant tried == ScanOrder[..3 + i]
      invariant forall j :: 0 <= j < 3 + i ==> !Found(Attempt(env, image, ScanOrder[j]))
    {
      tried := ScanOrder[..4 + i];
      var res := ScanFrame(env, attempts[i]);
      if Found(res) {
        EarliestVariantWins(env, image, 3 + i);
        return Returned(res), tried;
      }
    }
    AllMissedLeavesAi(env, image);
    r := Returned(AiFallback(env.apiKey, env.aiReply));
  }

  // ---- The cascade's promises ----

  /** Every returned result comes from a successful scan of one of the nine variants or
      from the parsed AI reply. */
  lemma CascadeSound<Img>(env: Setup<Img>, image: Img)
    ensures var r := Cascade(env, image);
            r.Returned? && r.value.Some? ==>
              || (exists k :: 0 <= k < |ScanOrder| && Found(Attempt(env, image, ScanOrder[k])) && r.value == Attempt(env, image, ScanOrder[k]))
              || (env.apiKey != "" && env.aiReply.Some? && r.value == ParseAiReply(env.aiReply.value))
  {
    FirstFoundSpec(env, image, ScanOrder);
  }

  /** The earliest variant that finds something wins, whatever later variants would find,
      provided it is scanned before an OpenCV call raises: a barcode readable only in the
      binarized centre crop is returned before any rotated frame is tried. */
  lemma EarliestVariantWins<Img>(env: Setup<Img>, image: Img, k: nat)
    requires k < |ScanOrder| && Found(Attempt(env, image, ScanOrder[k]))
    requires forall j :: 0 <= j < k ==> !Found(Attempt(env, image, ScanOrder[j]))
    requires FailurePoint(env, image).None? || k < FailurePoint(env, image).value
    ensures Cascade(env, image) == Returned(Attempt(env, image, ScanOrder[k]))
  {
    FirstFoundIsFirst(env, image, ScanOrder, k);
    var p := FailurePoint(env, image);
    if p.Some? {
      var prefix := ScanOrder[..p.value];
      assert forall j :: 0 <= j <= k ==> prefix[j] == ScanOrder[j];
      FirstFoundIsFirst(env, image, prefix, k);
    }
  }

  /** When an OpenCV call raises after `k` variants were scanned and all of them missed,
      the exception escapes decode_image_isbn. */
  lemma FailureRaises<Img>(env: Setup<Img>, image: Img, k: nat)
    requires FailurePoint(env, image) == Some(k)
    requires forall j :: 0 <= j < k ==> !Found(Attempt(env, image, ScanOrder[j]))
    ensures Cascade(env, image) == Raised
  {
    var prefix := ScanOrder[..k];
    assert forall j :: 0 <= j < k ==> prefix[j] == ScanOrder[j];
    FirstFoundSpec(env, image, prefix);
  }

  /** An image under two pixels high or wide, whose untouched, grayscale and binarized
      frames find nothing, makes decode_image_isbn raise: its centre crop has no pixel. The
      AI step is never reached. */
  lemma ThinImageRaises<Img>(env: Setup<Img>, image: Img, bgr: Img)
    requires env.imaging.toBgr(image) == Some(bgr)
    requires var size := env.imaging.shape(bgr); 0 < size.0 && 0 < size.1 && (size.0 < 2 || size.1 < 2)
    requires forall j :: 0 <= j < 3 ==> !Found(Attempt(env, image, ScanOrder[j]))
    ensures Cascade(env, image) == Raised
  {
    FailureRaises(env, image, 3);
  }

  /** When all nine variants find nothing on a convertible image that no OpenCV call
      rejects, the AI step decides. */
  lemma AllMissedLeavesAi<Img>(env: Setup<Img>, image: Img)
    requires env.imaging.toBgr(image).Some? && FailurePoint(env, image).None?
    requires forall k :: 0 <= k < |ScanOrder| ==> !Found(Attempt(env, image, ScanOrder[k]))
    ensures Cascade(env, image) == Returned(AiFallback(env.apiKey, env.aiReply))
  {
    FirstFoundSpec(env, image, ScanOrder);
  }

  /** Without pyzbar and without an API key nothing is ever found: the cascade raises or
      returns `None`. */
  lemma NothingWithoutCapability<Img>(env: Setup<Img>, image: Img)
    requires !env.pyzbar && env.apiKey == ""
    ensures Cascade(env, image).Returned? ==> Cascade(env, image).value == None
  {
    forall k | 0 <= k < |ScanOrder| ensures !Found(Attempt(env, image, ScanOrder[k])) {
    }
    FirstFoundSpec(env, image, ScanOrder);
  }

  /** When the untouched image yields nothing and the RGB conversion raises, the result is
      `None` and the AI step is never reached, whatever the key and the reply. */
  lemma ConversionFailureSkipsAi<Img>(env: Setup<Img>, image: Img)
    requires !Found(ScanFrame(env, image)) && env.imaging.toBgr(image).None?
    ensures Cascade(env, image) == Returned(None)
  {
    forall k | 0 <= k < |ScanOrder| ensures !Found(Attempt(env, image, ScanOrder[k])) {
    }
    FirstFoundSpec(env, image, ScanOrder);
  }

  /** A variant whose frame yields exactly what an earlier variant's frame yields can be
      dropped without changing the result. */
  lemma DropRepeatedVariant<Img>(env: Setup<Img>, image: Img, vs: seq<Variant>, j: nat, k: nat, rest: seq<Variant>)
    requires j < k < |vs| && Attempt(env, image, vs[j]) == Attempt(env, image, vs[k])
    requires rest == vs[..k] + vs[k + 1..]
    ensures FirstFound(env, image, vs) == FirstFound(env, image, rest)
  {
    assert vs == vs[..k] + vs[k..];
    FirstFoundAppend(env, image, vs[..k], vs[k..]);
    FirstFoundAppend(env, image, vs[..k], vs[k + 1..]);
    if FirstFound(env, image, vs[..k]).None? {
      FirstFoundSpec(env, image, vs[..k]);
      assert vs[..k][j] == vs[j];
      assert vs[k..][0] == vs[k] && vs[k..][1..] == vs[k + 1..];
    }
  }

  /** The order without the full-frame attempts. */
  const ReducedOrder: seq<Variant> := [Original, Gray, Thresh, GrayCrop, ThreshCrop, Gray90, Thresh90]

  /** `gray_full` and `thresh_full` are the grayscale and binarized frames of steps 2 and 3
      rebuilt from the same image, so they can never succeed where those failed: dropping
      them changes no result. */
  lemma FullFrameAttemptsRedundant<Img>(env: Setup<Img>, image: Img)
    ensures FirstFound(env, image, ScanOrder) == FirstFound(env, image, ReducedOrder)
  {
    var once := [Original, Gray, Thresh, GrayCrop, ThreshCrop, ThreshFull, Gray90, Thresh90];
    OrdersSplice(once);
    FullFramesRepeat(env, image);
    DropRepeatedVariant(env, image, ScanOrder, 1, 5, once);
    DropRepeatedVariant(env, image, once, 2, 5, ReducedOrder);
  }

  /** Dropping position 5 twice from `ScanOrder` leaves `ReducedOrder`. */
  lemma OrdersSplice(once: seq<Variant>)
    requires once == [Original, Gray, Thresh, GrayCrop, ThreshCrop, ThreshFull, Gray90, Thresh90]
    ensures once == ScanOrder[..5] + ScanOrder[6..]
    ensures ReducedOrder == once[..5] + once[6..]
  {
  }

  /** The full-frame attempts rebuild the frames of steps 2 and 3. */
  lemma FullFramesRepeat<Img>(env: Setup<Img>, image: Img)
    ensures Attempt(env, image, GrayFull) == Attempt(env, image, Gray)
    ensures Attempt(env, image, ThreshFull) == Attempt(env, image, Thresh)
  {
  }

  // ---- The AI reply ----

  /** `d[i:]` starts with `978` and has ten more characters: a match of `978\d{10}` when
      `d` holds only digits. */
  predicate BooklandAt(d: string, i: nat) {
    i + 13 <= |d| && d[i..i + 3] == "978"
  }

  /** The position of the leftmost match at or after `i`, the way `re.findall` scans. */
  function FindBookland(d: string, i: nat): (k: Option<nat>)
    requires i <= |d|
    ensures k.Some? ==> i <= k.value && BooklandAt(d, k.value) && forall j: nat :: i <= j < k.value ==> !BooklandAt(d, j)
    ensures k.None? ==> forall j: nat :: i <= j ==> !BooklandAt(d, j)
    decreases |d| - i
  {
    if i + 13 > |d| then None
    else if d[i..i + 3] == "978" then Some(i)
    else FindBookland(d, i + 1)
  }

  /** The reply parse of app.py:533-544: keep the digits; return the first match of
      `978\d{10}`, or else the whole digit string when it is 13 long and starts with `978`. */
  function ParseAiReply(text: string): (r: Option<string>)
    ensures var d := DigitsOnly(text);
            && (r.Some? <==> exists i: nat :: BooklandAt(d, i))
            && (r.Some? ==> exists i: nat :: BooklandAt(d, i) && r.value == d[i..i + 13]
                                          && forall j: nat :: j < i ==> !BooklandAt(d, j))
    ensures r.Some? ==> |r.value| == 13 && AllDigits(r.value) && StartsWith(r.value, "978")
  {
    DigitsIgnoreSpace(text);
    ParseDigits(DigitsOnly(Strip(text)))
  }

  /** The parse applied to the digit string `d`. */
  function ParseDigits(d: string): (r: Option<string>)
    ensures r.Some? <==> exists i: nat :: BooklandAt(d, i)
    ensures r.Some? ==> exists i: nat :: BooklandAt(d, i) && r.value == d[i..i + 13]
                                      && forall j: nat :: j < i ==> !BooklandAt(d, j)
    ensures AllDigits(d) && r.Some? ==> |r.value| == 13 && AllDigits(r.value) && StartsWith(r.value, "978")
  {
    match FindBookland(d, 0)
    case Some(i) =>
      assert d[i..i + 13][..3] == d[i..i + 3];
      Some(d[i..i + 13])
    case None =>
      if |d| == 13 && StartsWith(d, "978") then Some(d) else None
  }

  /** The second rule of the parse (app.py:542-544) never adds a result: a 13-digit string
      starting with `978` is already the first rule's match at position 0, so the parse is
      the leftmost match alone. */
  lemma SecondRuleRedundant(d: string)
    ensures var k := FindBookland(d, 0);
            ParseDigits(d) == if k.Some? then Some(d[k.value..k.value + 13]) else None
  {
    if FindBookland(d, 0).None? {
      assert !BooklandAt(d, 0);
    }
  }
}
