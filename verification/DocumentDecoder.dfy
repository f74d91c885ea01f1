/** The application's side of a document job: it takes the response in chunks of any
    size, byte by byte, and believes nothing it has not checked. */
module DocumentDecoder {
  import opened DocumentEngine
  import opened DocumentFrames
  import opened RecordBytes
  import opened Utf8
  import opened Volumes

  const MAX_CHUNK_BYTES := 65536

  datatype Reason =
    | OutputLimit
    | InvalidProtocol
    | RasterLimit
    | InvalidUtf8
    | WorkerFailed(code: Scalars)

  datatype WorkerPage = WorkerPage(page: int, ocr: bool, text: Scalars, width: int, height: int)

  /** What has been read: the length so far, the announced frame and its bytes, and what
      the frames before it added up to. */
  datatype Decoding = Decoding(
    prefix: Text,
    announced: Option<nat>,
    body: Text,
    outputBytes: int,
    pixels: int,
    pages: seq<WorkerPage>,
    terminal: bool)
  {
    predicate BetweenFrames() {
      prefix == [] && announced.None? && body == []
    }
  }

  const START := Decoding([], None, [], 0, 0, [], false)

  datatype Verdict = Going(state: Decoding) | Refused(reason: Reason)

  /** The text of a frame; a byte order mark in front is dropped. */
  function TextOf(bytes: Text): Option<Scalars> {
    match Decode(bytes)
    case None => None
    case Some(values) => Some(WithoutMark(values))
  }

  function WithoutMark(values: Scalars): Scalars {
    if values != [] && values[0] == 0xfeff then values[1..] else values
  }

  /** The bytes of U+FEFF come first. */
  predicate Marked(bytes: Text) {
    |bytes| >= 3 && bytes[0] == 0xef && bytes[1] == 0xbb && bytes[2] == 0xbf
  }

  lemma MarkOfThree(a: Byte, b: Byte, c: Byte)
    requires Three(a, b, c).Some?
    ensures Three(a, b, c).value.value == 0xfeff <==> a == 0xef && b == 0xbb && c == 0xbf
  {
    ThreeSextets(a - 0xe0, b - 0x80, c - 0x80);
  }

  lemma MarkedFirst(bytes: Text)
    requires DecodeOne(bytes).Some?
    ensures DecodeOne(bytes).value.value == 0xfeff <==> Marked(bytes)
  {
    if 0xe0 <= bytes[0] < 0xf0 {
      MarkOfThree(bytes[0], bytes[1], bytes[2]);
    }
  }

  /** A text is read as it was written exactly when it does not start with a mark. */
  lemma TextIsKeptExactlyWhen(bytes: Text)
    ensures TextOf(bytes) == Decode(bytes) <==> Decode(bytes).None? || !Marked(bytes)
  {
    if Decode(bytes).Some? && bytes != [] {
      MarkedFirst(bytes);
      assert Decode(bytes).value[0] == DecodeOne(bytes).value.value;
    }
  }

  predicate IsCode(code: Scalars) {
    code in {INVALID_REQUEST, UNSUPPORTED, INVALID_DOCUMENT, LIMIT, UNAVAILABLE}
  }

  /** checkedRasterPixels divides where the engine multiplies. */
  predicate RasterAllowed(limits: Limits, width: int, height: int) {
    && 1 <= width <= limits.rasterDimension && 1 <= height <= limits.rasterDimension
    && width <= limits.pagePixels / height
  }

  lemma MultiplyMonotone(a: int, b: int, c: int)
    requires a <= b && 0 <= c
    ensures a * c <= b * c
  {
  }

  lemma DivisionBounds(a: int, b: int, c: int)
    requires 0 < b
    ensures c <= a / b <==> c * b <= a
  {
    var q, r := a / b, a % b;
    assert a == q * b + r;
    if c <= q {
      MultiplyMonotone(c, q, b);
    } else {
      MultiplyMonotone(q + 1, c, b);
      assert (q + 1) * b == q * b + b;
    }
  }

  lemma RasterAllowedExactlyWhenFits(limits: Limits, width: int, height: int)
    ensures RasterAllowed(limits, width, height) <==> RasterFits(limits, width, height)
  {
    if 1 <= height {
      DivisionBounds(limits.pagePixels, height, width);
    }
  }

  // ---------------------------------------------------------------- one frame

  predicate WellFormed(job: Text, d: Decoding, f: Fields, length: nat) {
    && f.version == 1 && f.frame.job == job && f.frame.index == |d.pages|
    && f.frame.offset == d.outputBytes && f.truncated == 0 && f.textLength == length - HEADER_BYTES
  }

  function ConsumeLast(request: Request, d: Decoding, f: Frame): Verdict {
    if f.status != 0 || f.page != 0 || f.width != 0 || f.height != 0 || f.text != [] || |d.pages| != request.pageCount
    then Refused(InvalidProtocol)
    else Going(d.(terminal := true))
  }

  function Reported(text: Text): Verdict {
    match TextOf(text)
    case None => Refused(InvalidUtf8)
    case Some(code) => Refused(if IsCode(code) then WorkerFailed(code) else InvalidProtocol)
  }

  function ConsumeError(d: Decoding, f: Frame): Verdict {
    if f.page != 0 || f.offset != 0 || f.width != 0 || f.height != 0 || f.text == [] || d.pages != [] || f.status != 0
    then Refused(InvalidProtocol)
    else Reported(f.text)
  }

  function ConsumePage(request: Request, d: Decoding, f: Frame): Verdict {
    if f.kind != 0 || |d.pages| >= request.pageCount || f.page != request.firstPage + |d.pages| then
      Refused(InvalidProtocol)
    else if f.status != (if request.Ocr() then 1 else 0) then Refused(InvalidProtocol)
    else if request.Ocr() && !(RasterAllowed(request.limits, f.width, f.height)
                               && f.width * f.height <= request.limits.totalPixels - d.pixels) then Refused(RasterLimit)
    else if !request.Ocr() && (f.width != 0 || f.height != 0) then Refused(InvalidProtocol)
    else match TextOf(f.text)
      case None => Refused(InvalidUtf8)
      case Some(text) =>
        Going(d.(outputBytes := d.outputBytes + |f.text|,
                 pixels := d.pixels + f.width * f.height,
                 pages := d.pages + [WorkerPage(f.page, request.Ocr(), text, f.width, f.height)]))
  }

  function Consume(request: Request, job: Text, d: Decoding, body: Text): Verdict
    requires |body| >= HEADER_BYTES
  {
    var fields := ReadFields(body);
    if !WellFormed(job, d, fields, |body|) then Refused(InvalidProtocol)
    else if fields.frame.kind == 1 then ConsumeLast(request, d, fields.frame)
    else if fields.frame.kind == 2 then ConsumeError(d, fields.frame)
    else ConsumePage(request, d, fields.frame)
  }

  // ---------------------------------------------------------------- one byte, and all bytes

  predicate LengthAllowed(request: Request, d: Decoding, length: nat) {
    && HEADER_BYTES <= length <= HEADER_BYTES + request.limits.pageOutputBytes
    && length - HEADER_BYTES <= request.limits.outputBytes - d.outputBytes
  }

  function FeedLength(request: Request, d: Decoding, prefix: Text): Verdict {
    if |prefix| != 4 then Going(d.(prefix := prefix))
    else if LengthAllowed(request, d, BigNumber(prefix)) then
      Going(d.(prefix := [], announced := Some(BigNumber(prefix)), body := []))
    else Refused(OutputLimit)
  }

  function FeedBody(request: Request, job: Text, d: Decoding, body: Text): Verdict
    requires d.announced.Some?
  {
    if |body| < d.announced.value || |body| < HEADER_BYTES then Going(d.(body := body))
    else Consume(request, job, d.(announced := None, body := []), body)
  }

  function FeedByte(request: Request, job: Text, d: Decoding, byte: Byte): Verdict {
    if d.terminal then Refused(InvalidProtocol)
    else if d.announced.None? then FeedLength(request, d, d.prefix + [byte])
    else FeedBody(request, job, d, d.body + [byte])
  }

  function Feed(request: Request, job: Text, d: Decoding, bytes: Text): Verdict
    decreases |bytes|
  {
    if bytes == [] then Going(d)
    else match FeedByte(request, job, d, bytes[0])
      case Refused(reason) => Refused(reason)
      case Going(next) => Feed(request, job, next, bytes[1..])
  }

  function FeedOn(request: Request, job: Text, verdict: Verdict, bytes: Text): Verdict {
    match verdict
    case Refused(reason) => Refused(reason)
    case Going(d) => Feed(request, job, d, bytes)
  }

  /** Where the response is cut into chunks makes no difference. */
  lemma {:induction false} FeedJoined(request: Request, job: Text, d: Decoding, a: Text, b: Text)
    ensures Feed(request, job, d, a + b) == FeedOn(request, job, Feed(request, job, d, a), b)
    decreases |a|
  {
    if a == [] {
      assert a + b == b;
    } else {
      assert (a + b)[1..] == a[1..] + b;
      var verdict := FeedByte(request, job, d, a[0]);
      if verdict.Going? {
        FeedJoined(request, job, verdict.state, a[1..], b);
      }
    }
  }

  /** The application's own bound on the whole response. */
  function MaxWire(request: Request): int {
    request.limits.outputBytes + (request.pageCount + 1) * (4 + HEADER_BYTES)
  }

  function FeedChunks(request: Request, job: Text, verdict: Verdict, wire: int, chunks: seq<Text>): Verdict
    decreases |chunks|
  {
    if chunks == [] || verdict.Refused? then verdict
    else if |chunks[0]| > MAX_CHUNK_BYTES || |chunks[0]| > MaxWire(request) - wire then Refused(OutputLimit)
    else FeedChunks(request, job, FeedOn(request, job, verdict, chunks[0]), wire + |chunks[0]|, chunks[1..])
  }

  function Stream(chunks: seq<Text>): Text {
    if chunks == [] then [] else chunks[0] + Stream(chunks[1..])
  }

  lemma {:induction false} ChunksAreOneStream(
      request: Request, job: Text, verdict: Verdict, wire: int, chunks: seq<Text>)
    requires forall chunk <- chunks :: |chunk| <= MAX_CHUNK_BYTES
    requires wire + |Stream(chunks)| <= MaxWire(request)
    ensures FeedChunks(request, job, verdict, wire, chunks) == FeedOn(request, job, verdict, Stream(chunks))
    decreases |chunks|
  {
    if chunks != [] && verdict.Going? {
      FeedJoined(request, job, verdict.state, chunks[0], Stream(chunks[1..]));
      ChunksAreOneStream(request, job, FeedOn(request, job, verdict, chunks[0]), wire + |chunks[0]|, chunks[1..]);
    }
  }

  // ---------------------------------------------------------------- whole frames

  lemma FourByOne(a: Byte, b: Byte, c: Byte, e: Byte, request: Request, job: Text, d: Decoding)
    requires d.BetweenFrames() && !d.terminal
    ensures Feed(request, job, d, [a, b, c, e]) == FeedLength(request, d, [a, b, c, e])
  {
    var one, two, three := d.(prefix := [a]), d.(prefix := [a, b]), d.(prefix := [a, b, c]);
    assert [] + [a] == [a];
    assert FeedByte(request, job, d, a) == Going(one);
    assert FeedByte(request, job, one, b) == Going(two);
    assert FeedByte(request, job, two, c) == Going(three);
    FeedOne(request, job, three, e);
    FeedMore(request, job, two, c, [e]);
    FeedMore(request, job, one, b, [c, e]);
    FeedMore(request, job, d, a, [b, c, e]);
    assert [c] + [e] == [c, e] && [b] + [c, e] == [b, c, e] && [a] + [b, c, e] == [a, b, c, e];
  }

  lemma FeedOne(request: Request, job: Text, d: Decoding, byte: Byte)
    ensures Feed(request, job, d, [byte]) == FeedByte(request, job, d, byte)
  {
    assert [byte][1..] == [];
  }

  lemma FeedMore(request: Request, job: Text, d: Decoding, byte: Byte, others: Text)
    ensures Feed(request, job, d, [byte] + others) == FeedOn(request, job, FeedByte(request, job, d, byte), others)
  {
    FeedJoined(request, job, d, [byte], others);
    FeedOne(request, job, d, byte);
  }

  lemma FeedFrom(request: Request, job: Text, d: Decoding, chunk: Text, i: nat)
    requires i < |chunk|
    ensures Feed(request, job, d, chunk[i..]) ==
              FeedOn(request, job, FeedByte(request, job, d, chunk[i]), chunk[i + 1..])
  {
    assert [chunk[i]] + chunk[i + 1..] == chunk[i..];
    FeedMore(request, job, d, chunk[i], chunk[i + 1..]);
  }

  lemma ByteOfFrame(request: Request, job: Text, d: Decoding, byte: Byte)
    requires d.announced.Some? && d.announced.value >= HEADER_BYTES && !d.terminal
    requires |d.body| < d.announced.value
    ensures FeedByte(request, job, d, byte) ==
              if |d.body| + 1 < d.announced.value then Going(d.(body := d.body + [byte]))
              else Consume(request, job, d.(announced := None, body := []), d.body + [byte])
  {
  }

  /** An announced frame is consumed when its last byte has come. */
  lemma {:induction false} FeedAnnounced(
      request: Request, job: Text, d: Decoding, bytes: Text, free: Decoding, whole: Text)
    requires d.announced.Some? && d.announced.value >= HEADER_BYTES && !d.terminal && bytes != []
    requires free == d.(announced := None, body := []) && whole == d.body + bytes && |whole| == d.announced.value
    ensures Feed(request, job, d, bytes) == Consume(request, job, free, whole)
    decreases |bytes|
  {
    ByteOfFrame(request, job, d, bytes[0]);
    assert d.body + [bytes[0]] + bytes[1..] == whole;
    if |bytes| > 1 {
      FeedFirst(request, job, d, bytes);
      FeedAnnounced(request, job, d.(body := d.body + [bytes[0]]), bytes[1..], free, whole);
    } else {
      assert bytes == [bytes[0]] && d.body + [bytes[0]] == whole;
      FeedOne(request, job, d, bytes[0]);
    }
  }

  lemma FeedFirst(request: Request, job: Text, d: Decoding, bytes: Text)
    requires bytes != []
    ensures Feed(request, job, d, bytes) == FeedOn(request, job, FeedByte(request, job, d, bytes[0]), bytes[1..])
  {
  }

  /** A frame sent between two frames is judged by its fields. */
  lemma FeedFrame(request: Request, job: Text, d: Decoding, f: Frame)
    requires f.Typed() && d.BetweenFrames() && !d.terminal
    ensures Feed(request, job, d, FrameBytes(f)) ==
              if LengthAllowed(request, d, HEADER_BYTES + |f.text|) then Consume(request, job, d, Body(f))
              else Refused(OutputLimit)
  {
    var length := HEADER_BYTES + |f.text|;
    var prefix := Big(length);
    FeedJoined(request, job, d, prefix, Body(f));
    FourByOne(prefix[0], prefix[1], prefix[2], prefix[3], request, job, d);
    assert prefix == [prefix[0], prefix[1], prefix[2], prefix[3]];
    BigRoundTrip(length);
    if LengthAllowed(request, d, length) {
      var waiting := d.(announced := Some(length));
      assert [] + Body(f) == Body(f);
      FeedAnnounced(request, job, waiting, Body(f), d, Body(f));
    }
  }

  // ---------------------------------------------------------------- whole responses

  predicate AllText(pages: seq<Page>) {
    forall i | 0 <= i < |pages| :: Decode(pages[i].text).Some?
  }

  /** What the application makes of the pages. */
  function Received(ocr: bool, pages: seq<Page>): (received: seq<WorkerPage>)
    requires AllText(pages)
    ensures |received| == |pages|
  {
    if pages == [] then [] else
    var last := pages[|pages| - 1];
    Received(ocr, pages[..|pages| - 1])
    + [WorkerPage(last.number, ocr, WithoutMark(Decode(last.text).value), last.width, last.height)]
  }

  /** The decoder after the frames of these pages. */
  function After(ocr: bool, pages: seq<Page>): Decoding
    requires AllText(pages)
  {
    Decoding([], None, [], TextTotal(pages), PixelTotal(pages), Received(ocr, pages), false)
  }

  /** The pages a budgeted result sends in its first frames. */
  predicate Sendable(request: Request, pages: seq<Page>) {
    && request.Accepted() && |pages| <= request.pageCount && request.firstPage + |pages| < WORD
    && (forall i | 0 <= i < |pages| :: pages[i].number == request.firstPage + i && PageFits(request, pages[i]))
    && TextTotal(pages) <= request.limits.outputBytes && PixelTotal(pages) <= request.limits.totalPixels
    && Positive(pages)
  }

  /** Without a valid text somewhere the response is refused at that page; otherwise every
      page arrives. */
  lemma {:induction false} PagesAreReceived(request: Request, job: Text, pages: seq<Page>)
    requires Sendable(request, pages) && |job| == 16
    ensures Feed(request, job, START, PagesBytes(job, request.Ocr(), pages)) ==
              if AllText(pages) then Going(After(request.Ocr(), pages)) else Refused(InvalidUtf8)
  {
    if pages != [] {
      var before, last := pages[..|pages| - 1], pages[|pages| - 1];
      SendablePrefix(request, pages);
      PagesAreReceived(request, job, before);
      var frame := FrameBytes(PageFrame(job, request.Ocr(), |before|, TextTotal(before), last));
      FeedJoined(request, job, START, PagesBytes(job, request.Ocr(), before), frame);
      AllTextOneMore(pages);
      if AllText(before) {
        PageIsReceived(request, job, After(request.Ocr(), before), last);
        AfterOneMore(request.Ocr(), pages);
      }
    }
  }

  lemma AllTextOneMore(pages: seq<Page>)
    requires pages != []
    ensures AllText(pages) <==> AllText(pages[..|pages| - 1]) && Decode(pages[|pages| - 1].text).Some?
  {
    if AllText(pages[..|pages| - 1]) && Decode(pages[|pages| - 1].text).Some? {
      forall i | 0 <= i < |pages| ensures Decode(pages[i].text).Some? {
        if i < |pages| - 1 {
          assert pages[..|pages| - 1][i] == pages[i];
        }
      }
    }
  }

  lemma SendablePrefix(request: Request, pages: seq<Page>)
    requires Sendable(request, pages) && pages != []
    ensures var before, last := pages[..|pages| - 1], pages[|pages| - 1];
            && Sendable(request, before) && last.number == request.firstPage + |before|
            && Fits(request, TextTotal(before), PixelTotal(before), last)
  {
    var i := |pages| - 1;
    assert PageFits(request, pages[i]);
    if request.Ocr() {
      ProductFits(pages[i].width, pages[i].height);
    }
  }

  /** The page fits into what is left of the budgets. */
  predicate Fits(request: Request, output: int, pixels: int, page: Page) {
    && PageFits(request, page) && |page.text| <= request.limits.outputBytes - output
    && pixels + page.width * page.height <= request.limits.totalPixels
    && 0 <= page.width <= 4096 && 0 <= page.height <= 4096
  }

  /** The decoder with one page more. */
  function WithPage(ocr: bool, d: Decoding, page: Page, text: Scalars): Decoding {
    d.(outputBytes := d.outputBytes + |page.text|,
       pixels := d.pixels + page.width * page.height,
       pages := d.pages + [WorkerPage(page.number, ocr, text, page.width, page.height)])
  }

  /** A page with its text, or the refusal of a text that is not one. */
  function PageVerdict(ocr: bool, d: Decoding, page: Page): Verdict {
    match TextOf(page.text)
    case None => Refused(InvalidUtf8)
    case Some(text) => Going(WithPage(ocr, d, page, text))
  }

  /** A page frame that follows on is accepted if its text is text. */
  lemma PageIsConsumed(request: Request, job: Text, d: Decoding, f: Frame)
    requires f.Typed() && f.kind == 0 && f.job == job && f.status == (if request.Ocr() then 1 else 0)
    requires f.index == |d.pages| < request.pageCount && f.offset == d.outputBytes
    requires f.page == request.firstPage + |d.pages|
    requires request.Ocr() ==> RasterFits(request.limits, f.width, f.height)
                               && d.pixels + f.width * f.height <= request.limits.totalPixels
    requires !request.Ocr() ==> f.width == 0 && f.height == 0
    ensures Consume(request, job, d, Body(f)) ==
              PageVerdict(request.Ocr(), d, Page(f.page, f.text, f.width, f.height))
  {
    FieldsOfBody(f);
    RasterAllowedExactlyWhenFits(request.limits, f.width, f.height);
  }

  lemma PageIsReceived(request: Request, job: Text, d: Decoding, page: Page)
    requires request.Accepted() && |job| == 16 && d.BetweenFrames() && !d.terminal
    requires 0 <= d.outputBytes <= request.limits.outputBytes && |d.pages| < request.pageCount
    requires 0 <= page.number == request.firstPage + |d.pages| < WORD
    requires Fits(request, d.outputBytes, d.pixels, page)
    ensures Feed(request, job, d, FrameBytes(PageFrame(job, request.Ocr(), |d.pages|, d.outputBytes, page))) ==
              PageVerdict(request.Ocr(), d, page)
  {
    var f := PageFrame(job, request.Ocr(), |d.pages|, d.outputBytes, page);
    FeedFrame(request, job, d, f);
    PageIsConsumed(request, job, d, f);
  }

  lemma AfterOneMore(ocr: bool, pages: seq<Page>)
    requires pages != [] && AllText(pages[..|pages| - 1])
    ensures PageVerdict(ocr, After(ocr, pages[..|pages| - 1]), pages[|pages| - 1]) ==
              if AllText(pages) then Going(After(ocr, pages)) else Refused(InvalidUtf8)
  {
    AllTextOneMore(pages);
  }

  // ---------------------------------------------------------------- from the worker to the application

  lemma LastFrameIsReceived(request: Request, job: Text, pages: seq<Page>)
    requires Sendable(request, pages) && |pages| == request.pageCount && |job| == 16 && AllText(pages)
    ensures Feed(request, job, After(request.Ocr(), pages), FrameBytes(LastFrame(job, pages))) ==
              Going(After(request.Ocr(), pages).(terminal := true))
  {
    FeedFrame(request, job, After(request.Ocr(), pages), LastFrame(job, pages));
    FieldsOfBody(LastFrame(job, pages));
  }

  /** Whatever the engine delivers within its budgets, the application receives, page for
      page, however the response is cut into chunks; the one thing it refuses is a text
      that is not valid UTF-8. */
  lemma ResponseIsReceived(request: Request, job: Text, pages: seq<Page>, chunks: seq<Text>)
    requires request.Accepted() && WithinBudgets(request, pages) && |job| == 16
    requires request.firstPage <= request.limits.pdfPages
    requires forall chunk <- chunks :: |chunk| <= MAX_CHUNK_BYTES
    ensures Positive(pages)
    ensures Stream(chunks) == ResponseBytes(job, request.Ocr(), pages) ==>
              FeedChunks(request, job, Going(START), 0, chunks) ==
                if AllText(pages) then Going(After(request.Ocr(), pages).(terminal := true)) else Refused(InvalidUtf8)
  {
    ResponseFits(request, job, pages);
    if Stream(chunks) == ResponseBytes(job, request.Ocr(), pages) {
      ChunksAreOneStream(request, job, Going(START), 0, chunks);
      FeedJoined(request, job, START, PagesBytes(job, request.Ocr(), pages), FrameBytes(LastFrame(job, pages)));
      PagesAreReceived(request, job, pages);
      if AllText(pages) {
        LastFrameIsReceived(request, job, pages);
      }
    }
  }

  // ---------------------------------------------------------------- nothing else is received

  /** What the decoder has read of the frame that is coming. */
  function Partial(d: Decoding): Text {
    if d.announced.None? then d.prefix else Big(d.announced.value) + d.body
  }

  /** A state the decoder gets into: it has read the frames of these pages, and the start of
      one more or the last frame. */
  predicate Reading(request: Request, job: Text, d: Decoding, bytes: Text, pages: seq<Page>) {
    && Numbered(request, pages) && |job| == 16 && AllText(pages)
    && d.outputBytes == TextTotal(pages) <= request.limits.outputBytes
    && d.pixels == PixelTotal(pages) <= request.limits.totalPixels
    && d.pages == Received(request.Ocr(), pages)
    && if d.terminal then
         && |pages| == request.pageCount && d.BetweenFrames()
         && bytes == ResponseBytes(job, request.Ocr(), pages)
       else
         && bytes == PagesBytes(job, request.Ocr(), pages) + Partial(d)
         && Waiting(request, d)
  }

  predicate Waiting(request: Request, d: Decoding) {
    if d.announced.None? then |d.prefix| < 4 && d.body == []
    else
      && LengthAllowed(request, d, d.announced.value) && d.announced.value < WORD
      && d.prefix == [] && |d.body| < d.announced.value
  }

  predicate Numbered(request: Request, pages: seq<Page>) {
    && |pages| <= request.pageCount && Positive(pages)
    && forall i | 0 <= i < |pages| :: pages[i].number == request.firstPage + i && PageFits(request, pages[i])
  }

  lemma LengthByteKeeps(request: Request, job: Text, d: Decoding, bytes: Text, pages: seq<Page>, byte: Byte)
    requires Reading(request, job, d, bytes, pages) && !d.terminal && d.announced.None?
    requires FeedByte(request, job, d, byte).Going?
    ensures Reading(request, job, FeedByte(request, job, d, byte).state, bytes + [byte], pages)
  {
    Associate(PagesBytes(job, request.Ocr(), pages), d.prefix, [byte]);
    if |d.prefix + [byte]| == 4 {
      BigOfNumber(d.prefix + [byte]);
      assert Big(BigNumber(d.prefix + [byte])) + [] == d.prefix + [byte];
    }
  }

  lemma BodyByteKeeps(request: Request, job: Text, d: Decoding, bytes: Text, pages: seq<Page>, byte: Byte)
    requires Reading(request, job, d, bytes, pages) && !d.terminal && d.announced.Some?
    requires |d.body| + 1 < d.announced.value
    ensures FeedByte(request, job, d, byte) == Going(d.(body := d.body + [byte]))
    ensures Reading(request, job, d.(body := d.body + [byte]), bytes + [byte], pages)
  {
    Associate(PagesBytes(job, request.Ocr(), pages), Partial(d), [byte]);
    Associate(Big(d.announced.value), d.body, [byte]);
  }

  /** A body that is taken is the body of its frame, and that is the next page or the last
      frame. */
  lemma ConsumedIs(request: Request, job: Text, d: Decoding, body: Text) returns (f: Frame)
    requires HEADER_BYTES <= |body| < WORD && |job| == 16 && Consume(request, job, d, body).Going?
    requires 0 <= d.outputBytes
    ensures f.Typed() && Body(f) == body && f == ReadFields(body).frame
    ensures f.kind == 1 ==>
              && f == Frame(1, job, |d.pages|, 0, d.outputBytes, 0, 0, 0, []) && |d.pages| == request.pageCount
              && Consume(request, job, d, body) == Going(d.(terminal := true))
    ensures f.kind != 1 ==>
              && Consume(request, job, d, body) == ConsumePage(request, d, f)
              && f.job == job && f.index == |d.pages| && f.offset == d.outputBytes
  {
    f := ReadFields(body).frame;
    BodyOfFields(body);
  }

  lemma PageTaken(request: Request, job: Text, d: Decoding, f: Frame) returns (page: Page)
    requires f.Typed() && f.job == job && f.index == |d.pages| && f.offset == d.outputBytes
    requires ConsumePage(request, d, f).Going?
    requires |f.text| <= request.limits.pageOutputBytes
    ensures page == Page(f.page, f.text, f.width, f.height)
    ensures f == PageFrame(job, request.Ocr(), |d.pages|, d.outputBytes, page)
    ensures |d.pages| < request.pageCount && page.number == request.firstPage + |d.pages|
    ensures PageFits(request, page) && Decode(page.text).Some?
    ensures d.pixels + page.width * page.height <= request.limits.totalPixels || !request.Ocr()
    ensures ConsumePage(request, d, f) ==
              Going(WithPage(request.Ocr(), d, page, WithoutMark(Decode(page.text).value)))
  {
    page := Page(f.page, f.text, f.width, f.height);
    RasterAllowedExactlyWhenFits(request.limits, f.width, f.height);
  }

  lemma PageAppended(request: Request, job: Text, pages: seq<Page>, page: Page)
    requires Numbered(request, pages) && |pages| < request.pageCount && |job| == 16 && AllText(pages)
    requires page.number == request.firstPage + |pages| && PageFits(request, page) && Decode(page.text).Some?
    requires page.number >= 0 && page.width >= 0 && page.height >= 0
    ensures Numbered(request, pages + [page]) && AllText(pages + [page])
    ensures TextTotal(pages + [page]) == TextTotal(pages) + |page.text|
    ensures PixelTotal(pages + [page]) == PixelTotal(pages) + page.width * page.height
    ensures Received(request.Ocr(), pages + [page]) ==
              Received(request.Ocr(), pages)
              + [WorkerPage(page.number, request.Ocr(), WithoutMark(Decode(page.text).value), page.width, page.height)]
    ensures PagesBytes(job, request.Ocr(), pages + [page]) ==
              PagesBytes(job, request.Ocr(), pages)
              + FrameBytes(PageFrame(job, request.Ocr(), |pages|, TextTotal(pages), page))
  {
    TotalsAppended(pages, page);
    var longer := pages + [page];
    assert longer[..|longer| - 1] == pages;
    AllTextOneMore(longer);
  }

  lemma PageReading(request: Request, job: Text, d: Decoding, bytes: Text, pages: seq<Page>, page: Page, text: Scalars)
    requires Reading(request, job, d, bytes, pages) && d.BetweenFrames() && !d.terminal
    requires |pages| < request.pageCount && page.number == request.firstPage + |pages|
    requires PageFits(request, page) && Decode(page.text).Some? && text == WithoutMark(Decode(page.text).value)
    requires page.number >= 0 && page.width >= 0 && page.height >= 0
    requires |page.text| <= request.limits.outputBytes - d.outputBytes
    requires d.pixels + page.width * page.height <= request.limits.totalPixels
    ensures Reading(request, job, WithPage(request.Ocr(), d, page, text),
                    bytes + FrameBytes(PageFrame(job, request.Ocr(), |d.pages|, d.outputBytes, page)), pages + [page])
  {
    PageAppended(request, job, pages, page);
    var sent := PagesBytes(job, request.Ocr(), pages + [page]);
    assert bytes == PagesBytes(job, request.Ocr(), pages) && sent + [] == sent;
  }

  /** After the frame of the next page the decoder is between two frames again. */
  lemma PageKeeps(request: Request, job: Text, d: Decoding, bytes: Text, pages: seq<Page>, f: Frame)
    returns (longer: seq<Page>)
    requires Reading(request, job, d, bytes, pages) && d.BetweenFrames() && !d.terminal
    requires f.Typed() && f.job == job && f.index == |d.pages| && f.offset == d.outputBytes
    requires LengthAllowed(request, d, HEADER_BYTES + |f.text|) && ConsumePage(request, d, f).Going?
    ensures Reading(request, job, ConsumePage(request, d, f).state, bytes + FrameBytes(f), longer)
  {
    var page := PageTaken(request, job, d, f);
    if !request.Ocr() {
      assert page.width * page.height == 0;
    }
    longer := pages + [page];
    PageReading(request, job, d, bytes, pages, page, WithoutMark(Decode(page.text).value));
  }

  lemma LastKeeps(request: Request, job: Text, d: Decoding, bytes: Text, pages: seq<Page>)
    requires Reading(request, job, d, bytes, pages) && d.BetweenFrames() && !d.terminal
    requires |pages| == request.pageCount
    ensures Reading(request, job, d.(terminal := true), bytes + FrameBytes(LastFrame(job, pages)), pages)
  {
    assert PagesBytes(job, request.Ocr(), pages) + [] == PagesBytes(job, request.Ocr(), pages);
  }

  lemma FreeReading(request: Request, job: Text, d: Decoding, bytes: Text, pages: seq<Page>)
    requires Reading(request, job, d, bytes, pages) && !d.terminal
    ensures Reading(request, job, d.(prefix := [], announced := None, body := []),
                    PagesBytes(job, request.Ocr(), pages), pages)
  {
    assert PagesBytes(job, request.Ocr(), pages) + [] == PagesBytes(job, request.Ocr(), pages);
  }

  lemma LastByteKeeps(request: Request, job: Text, d: Decoding, bytes: Text, pages: seq<Page>, byte: Byte)
    returns (longer: seq<Page>)
    requires Reading(request, job, d, bytes, pages) && !d.terminal && d.announced.Some?
    requires |d.body| + 1 == d.announced.value && FeedByte(request, job, d, byte).Going?
    ensures Reading(request, job, FeedByte(request, job, d, byte).state, bytes + [byte], longer)
  {
    var free, body := d.(announced := None, body := []), d.body + [byte];
    var sent := PagesBytes(job, request.Ocr(), pages);
    Associate(sent, Partial(d), [byte]);
    Associate(Big(d.announced.value), d.body, [byte]);
    FreeReading(request, job, d, bytes, pages);
    var f := ConsumedIs(request, job, free, body);
    if f.kind == 1 {
      LastKeeps(request, job, free, sent, pages);
      longer := pages;
    } else {
      longer := PageKeeps(request, job, free, sent, pages, f);
    }
  }

  lemma ByteKeeps(request: Request, job: Text, d: Decoding, bytes: Text, pages: seq<Page>, byte: Byte)
    returns (longer: seq<Page>)
    requires Reading(request, job, d, bytes, pages) && FeedByte(request, job, d, byte).Going?
    ensures Reading(request, job, FeedByte(request, job, d, byte).state, bytes + [byte], longer)
  {
    longer := pages;
    if d.announced.None? {
      LengthByteKeeps(request, job, d, bytes, pages, byte);
    } else if |d.body| + 1 < d.announced.value {
      BodyByteKeeps(request, job, d, bytes, pages, byte);
    } else {
      longer := LastByteKeeps(request, job, d, bytes, pages, byte);
    }
  }

  lemma {:induction false} ReadSoFar(request: Request, job: Text, bytes: Text) returns (pages: seq<Page>)
    requires request.Accepted() && |job| == 16 && Feed(request, job, START, bytes).Going?
    ensures Reading(request, job, Feed(request, job, START, bytes).state, bytes, pages)
    decreases |bytes|
  {
    if bytes == [] {
      pages := [];
      assert PagesBytes(job, request.Ocr(), []) + [] == [];
    } else {
      var before, last := bytes[..|bytes| - 1], bytes[|bytes| - 1];
      assert bytes == before + [last];
      FeedJoined(request, job, START, before, [last]);
      var d := Feed(request, job, START, before).state;
      FeedOne(request, job, d, last);
      pages := ReadSoFar(request, job, before);
      pages := ByteKeeps(request, job, d, before, pages, last);
    }
  }

  /** The application takes no response but one: the frames of exactly the pages it asked
      for, with valid texts, within all of its limits, and the last frame. */
  lemma OnlyResponsesAreReceived(request: Request, job: Text, bytes: Text) returns (pages: seq<Page>)
    requires request.Accepted() && |job| == 16
    requires Feed(request, job, START, bytes).Going? && Feed(request, job, START, bytes).state.terminal
    ensures WithinBudgets(request, pages) && AllText(pages) && Positive(pages)
    ensures bytes == ResponseBytes(job, request.Ocr(), pages)
    ensures Feed(request, job, START, bytes) == Going(After(request.Ocr(), pages).(terminal := true))
  {
    pages := ReadSoFar(request, job, bytes);
  }

  lemma {:induction false} ReceivedChunksAreOneStream(
      request: Request, job: Text, verdict: Verdict, wire: int, chunks: seq<Text>)
    requires FeedChunks(request, job, verdict, wire, chunks).Going?
    ensures FeedChunks(request, job, verdict, wire, chunks) == FeedOn(request, job, verdict, Stream(chunks))
    ensures forall chunk <- chunks :: |chunk| <= MAX_CHUNK_BYTES
    decreases |chunks|
  {
    if chunks != [] {
      FeedJoined(request, job, verdict.state, chunks[0], Stream(chunks[1..]));
      ReceivedChunksAreOneStream(
        request, job, FeedOn(request, job, verdict, chunks[0]), wire + |chunks[0]|, chunks[1..]);
    }
  }

  /** Chunks are received to the end exactly when none is over 65536 bytes and together they
      are the response of pages within the limits whose texts are texts. */
  lemma ReceivedExactlyWhenSent(request: Request, job: Text, chunks: seq<Text>)
    requires request.Accepted() && request.firstPage <= request.limits.pdfPages && |job| == 16
    ensures var verdict := FeedChunks(request, job, Going(START), 0, chunks);
            verdict.Going? && verdict.state.terminal <==>
              && (forall chunk <- chunks :: |chunk| <= 65536)
              && exists pages ::
                   && WithinBudgets(request, pages) && AllText(pages) && Positive(pages)
                   && Stream(chunks) == ResponseBytes(job, request.Ocr(), pages)
  {
    var verdict := FeedChunks(request, job, Going(START), 0, chunks);
    if verdict.Going? && verdict.state.terminal {
      ReceivedChunksAreOneStream(request, job, Going(START), 0, chunks);
      var pages := OnlyResponsesAreReceived(request, job, Stream(chunks));
    }
    if (forall chunk <- chunks :: |chunk| <= 65536)
       && exists pages ::
            && WithinBudgets(request, pages) && AllText(pages) && Positive(pages)
            && Stream(chunks) == ResponseBytes(job, request.Ocr(), pages)
    {
      var pages :| WithinBudgets(request, pages) && AllText(pages) && Positive(pages)
                   && Stream(chunks) == ResponseBytes(job, request.Ocr(), pages);
      ResponseIsReceived(request, job, pages, chunks);
    }
  }

  lemma {:induction false} ReceivedAt(ocr: bool, pages: seq<Page>, i: nat)
    requires AllText(pages) && i < |pages|
    ensures var page := pages[i];
            Received(ocr, pages)[i] ==
              WorkerPage(page.number, ocr, WithoutMark(Decode(page.text).value), page.width, page.height)
  {
    if i < |pages| - 1 {
      ReceivedAt(ocr, pages[..|pages| - 1], i);
    }
  }

  /** These are the pages that were sent, texts included. */
  predicate ArrivedAsSent(sent: seq<Page>, received: seq<WorkerPage>) {
    |received| == |sent| && forall i | 0 <= i < |sent| :: Decode(sent[i].text) == Some(received[i].text)
  }

  /** The pages of a delivered response arrive with the texts that were sent exactly when
      all of them are texts and none starts with a mark. */
  lemma ResponseArrivesAsSentExactlyWhen(request: Request, job: Text, pages: seq<Page>, chunks: seq<Text>)
    requires request.Accepted() && WithinBudgets(request, pages) && |job| == 16
    requires request.firstPage <= request.limits.pdfPages
    requires forall chunk <- chunks :: |chunk| <= MAX_CHUNK_BYTES
    ensures Positive(pages)
    ensures Stream(chunks) == ResponseBytes(job, request.Ocr(), pages) ==>
              var verdict := FeedChunks(request, job, Going(START), 0, chunks);
              verdict.Going? && ArrivedAsSent(pages, verdict.state.pages)
              <==> AllText(pages) && forall i | 0 <= i < |pages| :: !Marked(pages[i].text)
  {
    ResponseIsReceived(request, job, pages, chunks);
    if AllText(pages) {
      forall i | 0 <= i < |pages|
        ensures Decode(pages[i].text) == Some(Received(request.Ocr(), pages)[i].text) <==> !Marked(pages[i].text)
      {
        ReceivedAt(request.Ocr(), pages, i);
        TextIsKeptExactlyWhen(pages[i].text);
      }
    }
  }

  /** The text layers of a PDF arrive character for character exactly when no page has
      U+FEFF as its first character. */
  lemma TextLayersArriveExactlyWhen(request: Request, job: Text, chosen: seq<PdfPage>, chunks: seq<Text>)
    requires request.Accepted() && request.operation == PdfText && |job| == 16 && AllReadable(false, chosen)
    requires WithinBudgets(request, Ideals(false, request.firstPage, chosen))
    requires request.firstPage <= request.limits.pdfPages
    requires forall chunk <- chunks :: |chunk| <= MAX_CHUNK_BYTES
    ensures Positive(Ideals(false, request.firstPage, chosen))
    ensures Stream(chunks) == ResponseBytes(job, false, Ideals(false, request.firstPage, chosen)) ==>
              var verdict := FeedChunks(request, job, Going(START), 0, chunks);
              && verdict.Going? && verdict.state.terminal && |verdict.state.pages| == |chosen|
              && forall i | 0 <= i < |chosen| ::
                   var values := Present(chosen[i].layer.values);
                   verdict.state.pages[i].text == values <==> values == [] || values[0] != 0xfeff
  {
    var pages := Ideals(false, request.firstPage, chosen);
    TextLayersAreText(request.firstPage, chosen);
    ResponseIsReceived(request, job, pages, chunks);
    forall i | 0 <= i < |chosen|
      ensures Received(false, pages)[i].text == WithoutMark(Present(chosen[i].layer.values))
    {
      ReceivedAt(false, pages, i);
    }
  }

  const ONE_PAGE := Request(PdfText, 1, 1, CEILINGS, 100)

  const MARKED_PAGE := PdfPage(Characters([0xfeff, 65]), None, None, false, RecognitionFailed(Unavailable))

  const MARKED_TEXT := Page(1, [0xef, 0xbb, 0xbf, 65], 0, 0)

  /** A page whose text layer is U+FEFF and the letter A is extracted with both. */
  lemma MarkedPageIsDelivered()
    ensures Present(MARKED_PAGE.layer.values) == [0xfeff, 65]
    ensures AllReadable(false, [MARKED_PAGE]) && Ideals(false, 1, [MARKED_PAGE]) == [MARKED_TEXT]
    ensures ONE_PAGE.Accepted() && WithinBudgets(ONE_PAGE, [MARKED_TEXT])
  {
    MarkAndLetter();
    MarkedTotals();
  }

  lemma MarkedTotals()
    ensures TextTotal([MARKED_TEXT]) == 4 && PixelTotal([MARKED_TEXT]) == 0
  {
    assert [MARKED_TEXT][..0] == [];
    assert TextTotal([]) == 0 && PixelTotal([]) == 0;
  }

  lemma MarkedReceived()
    ensures AllText([MARKED_TEXT])
    ensures After(false, [MARKED_TEXT]) == Decoding([], None, [], 4, 0, [WorkerPage(1, false, [65], 0, 0)], false)
  {
    MarkAndLetter();
    EncodedIsDecoded([0xfeff, 65]);
    MarkedTotals();
    ReceivedAt(false, [MARKED_TEXT], 0);
    assert Received(false, [MARKED_TEXT]) == [WorkerPage(1, false, [65], 0, 0)];
  }

  /** The application receives the letter alone. */
  lemma MarkIsLost(job: Text)
    requires |job| == 16
    ensures Positive([MARKED_TEXT])
    ensures FeedChunks(ONE_PAGE, job, Going(START), 0, [ResponseBytes(job, false, [MARKED_TEXT])]) ==
              Going(Decoding([], None, [], 4, 0, [WorkerPage(1, false, [65], 0, 0)], true))
  {
    MarkedPageIsDelivered();
    MarkedReceived();
    MarkedTotals();
    OneChunkIsReceived(ONE_PAGE, job, [MARKED_TEXT]);
  }

  lemma OneChunkIsReceived(request: Request, job: Text, pages: seq<Page>)
    requires request.Accepted() && WithinBudgets(request, pages) && |job| == 16 && AllText(pages)
    requires request.firstPage <= request.limits.pdfPages && TextTotal(pages) + 51 * (|pages| + 1) <= MAX_CHUNK_BYTES
    ensures Positive(pages)
    ensures FeedChunks(request, job, Going(START), 0, [ResponseBytes(job, request.Ocr(), pages)]) ==
              Going(After(request.Ocr(), pages).(terminal := true))
  {
    ResponseFits(request, job, pages);
    OneChunk(ResponseBytes(job, request.Ocr(), pages));
    ResponseIsReceived(request, job, pages, [ResponseBytes(job, request.Ocr(), pages)]);
  }

  lemma OneChunk(chunk: Text)
    ensures Stream([chunk]) == chunk
  {
    assert [chunk][1..] == [];
  }

  lemma MarkAndLetter()
    ensures Present([0xfeff, 65]) == [0xfeff, 65]
    ensures EncodeAll([0xfeff, 65]) == [0xef, 0xbb, 0xbf, 65]
  {
    assert [0xfeff, 65][..1] == [0xfeff] && [0xfeff][..0] == [];
    assert Present([0xfeff]) == [0xfeff];
    assert [0xfeff, 65][1..] == [65] && [65][1..] == [];
    assert EncodeAll([65]) == [65];
  }

  /** The text layer of a PDF always arrives. */
  lemma TextLayersAreText(first: int, chosen: seq<PdfPage>)
    requires AllReadable(false, chosen)
    ensures AllText(Ideals(false, first, chosen))
    ensures forall i | 0 <= i < |chosen| ::
              Decode(Ideals(false, first, chosen)[i].text) == Some(Present(chosen[i].layer.values))
  {
    forall i | 0 <= i < |chosen|
      ensures Decode(Ideals(false, first, chosen)[i].text) == Some(Present(chosen[i].layer.values))
    {
      assert Readable(false, chosen[i]);
      EncodedIsDecoded(Present(chosen[i].layer.values));
    }
  }

  lemma CodeIsKnown(error: Error)
    ensures IsCode(Code(error))
  {
  }

  lemma ErrorFrameIsConsumed(request: Request, job: Text, f: Frame)
    requires f.Typed() && f == Frame(2, job, 0, 0, 0, 0, 0, 0, f.text) && f.text != []
    ensures Consume(request, job, START, Body(f)) == Reported(f.text)
  {
    FieldsOfBody(f);
  }

  lemma AsciiIsReported(code: Text)
    requires forall i | 0 <= i < |code| :: code[i] < 128
    requires IsCode(code)
    ensures Reported(code) == Refused(WorkerFailed(code))
  {
    AsciiIsItself(code);
  }

  /** A failed job is reported with its code exactly when the code itself is within the
      output limits; otherwise the application sees only that a limit was exceeded. The
      request need not be one the engine accepts. */
  lemma ErrorIsReported(request: Request, job: Text, error: Error)
    requires |job| == 16 && error != NoError
    ensures var verdict := Feed(request, job, START, FrameBytes(ErrorFrame(job, error)));
            verdict == if |Code(error)| <= Least(request.limits.pageOutputBytes, request.limits.outputBytes)
                       then Refused(WorkerFailed(Code(error))) else Refused(OutputLimit)
  {
    CodeIsKnown(error);
    ErrorFrameIsReported(request, job, ErrorFrame(job, error));
  }

  /** With one byte of output for a page, an unreadable document is reported as too much
      output. */
  lemma ErrorCanBeLost(job: Text) returns (request: Request)
    requires |job| == 16
    ensures request.Accepted() && request.limits.pageOutputBytes == 1
    ensures Feed(request, job, START, FrameBytes(ErrorFrame(job, InvalidDocument))) == Refused(OutputLimit)
  {
    request := ONE_PAGE.(limits := CEILINGS.(pageOutputBytes := 1));
    ErrorIsReported(request, job, InvalidDocument);
  }

  lemma ErrorFrameIsReported(request: Request, job: Text, f: Frame)
    requires f.Typed() && f == Frame(2, job, 0, 0, 0, 0, 0, 0, f.text)
    requires f.text != [] && IsCode(f.text) && forall i | 0 <= i < |f.text| :: f.text[i] < 128
    ensures Feed(request, job, START, FrameBytes(f)) ==
              if |f.text| <= Least(request.limits.pageOutputBytes, request.limits.outputBytes)
              then Refused(WorkerFailed(f.text)) else Refused(OutputLimit)
  {
    FeedFrame(request, job, START, f);
    ErrorFrameIsConsumed(request, job, f);
    AsciiIsReported(f.text);
  }

  lemma {:induction false} AsciiIsItself(text: Text)
    requires forall i | 0 <= i < |text| :: text[i] < 128
    ensures Decode(text) == Some(text)
  {
    if text != [] {
      AsciiIsItself(text[1..]);
      assert [text[0]] + text[1..] == text;
    }
  }

  /** No response of the Windows worker is ever accepted: its first page is framed as a
      last frame, and its error as a frame without a code. */
  lemma WindowsResponseIsNeverReceived(request: Request, job: Text, result: Result)
    requires |job| == 16 && request.limits.Bounded()
    requires if result.error == NoError
             then && request.Accepted() && request.firstPage <= request.limits.pdfPages
                  && WithinBudgets(request, result.pages)
             else result.pages == []
    ensures Positive(result.pages)
    ensures Feed(request, job, START, WindowsResponseBytes(job, result)) == Refused(InvalidProtocol)
  {
    var pages := result.pages;
    if result.error == NoError {
      BudgetsArePositive(request, pages);
      OffsetFits(request, pages, 0);
      WindowsPagesAreRefused(request, job, pages);
      var last := Frame(2, job, |pages|, 0, 0, ErrorNumber(result.error), 0, 0, []);
      FeedJoined(request, job, START, WindowsPagesBytes(job, pages), FrameBytes(last));
    } else {
      var f := Frame(2, job, 0, 0, 0, ErrorNumber(result.error), 0, 0, []);
      assert [] + FrameBytes(f) == FrameBytes(f);
      FeedFrame(request, job, START, f);
      FieldsOfBody(f);
    }
  }

  lemma {:induction false} WindowsPagesAreRefused(request: Request, job: Text, pages: seq<Page>)
    requires request.Accepted() && |job| == 16 && request.firstPage <= request.limits.pdfPages
    requires pages != [] && Positive(pages)
    requires pages[0].number == request.firstPage && PageFits(request, pages[0])
    requires |pages[0].text| <= request.limits.outputBytes
    ensures Feed(request, job, START, WindowsPagesBytes(job, pages)) == Refused(InvalidProtocol)
  {
    var before, last := pages[..|pages| - 1], pages[|pages| - 1];
    var f := Frame(1, job, |before|, last.number, 0, 0, last.width, last.height, last.text);
    FeedJoined(request, job, START, WindowsPagesBytes(job, before), FrameBytes(f));
    if before != [] {
      WindowsPagesAreRefused(request, job, before);
    } else {
      FeedFrame(request, job, START, f);
      FieldsOfBody(f);
    }
  }

  // ---------------------------------------------------------------- the decoder itself

  class ResponseDecoder {
    const request: Request
    const job: Text
    var prefix: Text
    var announced: Option<nat>
    var body: Text
    var outputBytes: int
    var pixels: int
    var pages: seq<WorkerPage>
    var wireBytes: int
    var terminal: bool
    var failed: bool

    constructor (request: Request, job: Text)
      ensures this.request == request && this.job == job && State() == START && wireBytes == 0 && !failed
    {
      this.request, this.job := request, job;
      prefix, announced, body := [], None, [];
      outputBytes, pixels, pages, wireBytes, terminal, failed := 0, 0, [], 0, false, false;
    }

    function State(): Decoding
      reads this
    {
      Decoding(prefix, announced, body, outputBytes, pixels, pages, terminal)
    }

    /** Every field of a frame is checked against what has been received so far. */
    method ConsumeFrame(frame: Text) returns (reason: Option<Reason>)
      requires |frame| >= HEADER_BYTES
      modifies this`outputBytes, this`pixels, this`pages, this`terminal
      ensures match Consume(request, job, old(State()), frame)
              case Going(d) => reason == None && State() == d
              case Refused(r) => reason == Some(r)
    {
      var fields := ReadFields(frame);
      var f := fields.frame;
      if fields.version != 1 || f.job != job || f.index != |pages| || f.offset != outputBytes
         || fields.truncated != 0 || fields.textLength != |frame| - HEADER_BYTES {
        return Some(InvalidProtocol);
      }
      if f.kind == 1 {
        if || f.status != 0 || f.page != 0 || f.width != 0 || f.height != 0 || f.text != []
           || |pages| != request.pageCount
        {
          return Some(InvalidProtocol);
        }
        terminal := true;
        return None;
      }
      if f.kind == 2 {
        return Some(ConsumeError(State(), f).reason);
      }
      reason := ConsumePageFrame(f);
    }

    method ConsumePageFrame(f: Frame) returns (reason: Option<Reason>)
      modifies this`outputBytes, this`pixels, this`pages
      ensures match ConsumePage(request, old(State()), f)
              case Going(d) => reason == None && State() == d
              case Refused(r) => reason == Some(r)
    {
      if f.kind != 0 || |pages| >= request.pageCount || f.page != request.firstPage + |pages|
         || f.status != (if request.Ocr() then 1 else 0) {
        return Some(InvalidProtocol);
      }
      var area := f.width * f.height;
      if request.Ocr() {
        if !RasterAllowed(request.limits, f.width, f.height) || area > request.limits.totalPixels - pixels {
          return Some(RasterLimit);
        }
      } else if f.width != 0 || f.height != 0 {
        return Some(InvalidProtocol);
      }
      var text := TextOf(f.text);
      if text.None? {
        return Some(InvalidUtf8);
      }
      pixels := pixels + area;
      outputBytes := outputBytes + |f.text|;
      pages := pages + [WorkerPage(f.page, request.Ocr(), text.value, f.width, f.height)];
      reason := None;
    }

    method AddByte(byte: Byte) returns (reason: Option<Reason>)
      modifies this
      ensures wireBytes == old(wireBytes) && failed == old(failed)
      ensures match FeedByte(request, job, old(State()), byte)
              case Going(d) => reason == None && State() == d
              case Refused(r) => reason == Some(r)
    {
      if terminal {
        return Some(InvalidProtocol);
      }
      if announced.None? {
        prefix := prefix + [byte];
        if |prefix| == 4 {
          var length := BigNumber(prefix);
          if length < HEADER_BYTES || length > HEADER_BYTES + request.limits.pageOutputBytes
             || length - HEADER_BYTES > request.limits.outputBytes - outputBytes {
            return Some(OutputLimit);
          }
          prefix, announced, body := [], Some(length), [];
        }
        return None;
      }
      body := body + [byte];
      if |body| < announced.value || |body| < HEADER_BYTES {
        return None;
      }
      var frame := body;
      announced, body := None, [];
      reason := ConsumeFrame(frame);
    }

    /** One chunk. A refused chunk makes every later one refused as well. */
    method Add(chunk: Text) returns (reason: Option<Reason>)
      modifies this
      ensures old(failed) ==> failed && reason == Some(OutputLimit)
      ensures !old(failed) && (|chunk| > MAX_CHUNK_BYTES || |chunk| > MaxWire(request) - old(wireBytes)) ==>
                failed && reason == Some(OutputLimit)
      ensures !old(failed) && |chunk| <= MAX_CHUNK_BYTES && |chunk| <= MaxWire(request) - old(wireBytes) ==>
                match Feed(request, job, old(State()), chunk)
                case Going(d) => reason == None && State() == d && !failed && wireBytes == old(wireBytes) + |chunk|
                case Refused(r) => reason == Some(r) && failed
    {
      if failed || |chunk| > MAX_CHUNK_BYTES || |chunk| > MaxWire(request) - wireBytes {
        failed := true;
        return Some(OutputLimit);
      }
      wireBytes := wireBytes + |chunk|;
      var i := 0;
      while i < |chunk|
        invariant 0 <= i <= |chunk| && !failed && wireBytes == old(wireBytes) + |chunk|
        invariant Feed(request, job, old(State()), chunk) == Feed(request, job, State(), chunk[i..])
      {
        FeedFrom(request, job, State(), chunk, i);
        reason := AddByte(chunk[i]);
        if reason.Some? {
          failed := true;
          return;
        }
        i := i + 1;
      }
      reason := None;
    }

    /** The pages, if the response ended with its last frame. */
    method Finish() returns (received: Option<seq<WorkerPage>>)
      ensures received == if !failed && terminal && prefix == [] && announced.None? then Some(pages) else None
    {
      received := if failed || !terminal || prefix != [] || announced.Some? then None else Some(pages);
    }
  }
}
