/** The response of a document worker: one frame a page, each with a fixed header of 47
    bytes behind its length, and a last frame without text. Numbers are big-endian. */
module DocumentFrames {
  import opened DocumentEngine
  import opened RecordBytes
  import opened Volumes

  const HEADER_BYTES := 47
  const WORD := 0x1_0000_0000

  /** u32: the four low bytes, the highest first. */
  function Big(value: nat): (bytes: Text)
    ensures |bytes| == 4
  {
    [value / 0x100_0000 % 256, value / 0x1_0000 % 256, value / 256 % 256, value % 256]
  }

  function BigNumber(bytes: Text): (value: nat)
    requires |bytes| == 4
    ensures value < WORD
  {
    (bytes[0] as int) * 0x100_0000 + (bytes[1] as int) * 0x1_0000 + (bytes[2] as int) * 256 + bytes[3] as int
  }

  lemma BigRoundTrip(value: nat)
    requires value < WORD
    ensures BigNumber(Big(value)) == value
  {
    var a, b, c := value / 256, value / 0x1_0000, value / 0x100_0000;
    assert b == a / 256 && c == b / 256;
    assert value == a * 256 + value % 256 && a == b * 256 + a % 256 && b == c * 256 + b % 256;
  }

  lemma OneByteMore(high: nat, low: nat)
    requires low < 256
    ensures (high * 256 + low) / 256 == high && (high * 256 + low) % 256 == low
  {
  }

  /** And the bytes of the number that was read are the bytes it was read from. */
  lemma BigOfNumber(bytes: Text)
    requires |bytes| == 4
    ensures Big(BigNumber(bytes)) == bytes
  {
    var c := bytes[0] as int;
    var b := c * 256 + bytes[1];
    var a := b * 256 + bytes[2];
    var value := BigNumber(bytes);
    assert value == a * 256 + bytes[3];
    OneByteMore(c, bytes[1]);
    OneByteMore(b, bytes[2]);
    OneByteMore(a, bytes[3]);
    assert value / 0x1_0000 == value / 256 / 256 && value / 0x100_0000 == value / 0x1_0000 / 256;
  }

  datatype Frame = Frame(
    kind: Byte,
    job: Text,
    index: nat,
    page: nat,
    offset: nat,
    status: Byte,
    width: nat,
    height: nat,
    text: Text)
  {
    /** Every number fits its field. */
    predicate Typed() {
      && |job| == 16 && index < WORD && page < WORD && offset < WORD
      && width < WORD && height < WORD && HEADER_BYTES + |text| < WORD
    }
  }

  /** What follows the length: the version, the fields and the text. */
  function Body(f: Frame): (bytes: Text)
    requires |f.job| == 16
    ensures |bytes| == HEADER_BYTES + |f.text|
  {
    Place(f) + Content(f)
  }

  function Place(f: Frame): (bytes: Text)
    requires |f.job| == 16
    ensures |bytes| == 31
  {
    [1, f.kind] + f.job + Big(f.index) + Big(f.page) + Big(f.offset) + [f.status]
  }

  function Content(f: Frame): (bytes: Text)
    ensures |bytes| == 16 + |f.text|
  {
    Big(0) + Big(f.width) + Big(f.height) + Big(|f.text|) + f.text
  }

  function FrameBytes(f: Frame): (bytes: Text)
    requires |f.job| == 16
    ensures |bytes| == 4 + HEADER_BYTES + |f.text|
  {
    Big(HEADER_BYTES + |f.text|) + Body(f)
  }

  /** The fields of a frame by their places, as a reader finds them. */
  datatype Fields = Fields(version: Byte, frame: Frame, truncated: nat, textLength: nat)

  function ReadFields(body: Text): Fields
    requires |body| >= HEADER_BYTES
  {
    Fields(body[0],
           Frame(body[1], body[2..18], BigNumber(body[18..22]), BigNumber(body[22..26]), BigNumber(body[26..30]),
                 body[30], BigNumber(body[35..39]), BigNumber(body[39..43]), body[47..]),
           BigNumber(body[31..35]), BigNumber(body[43..47]))
  }

  /** Every field is read back where it was written. */
  lemma FieldsOfBody(f: Frame)
    requires f.Typed()
    ensures ReadFields(Body(f)) == Fields(1, f, 0, |f.text|)
  {
    var body := Body(f);
    assert body[2..18] == f.job && body[18..22] == Big(f.index) && body[22..26] == Big(f.page);
    assert body[26..30] == Big(f.offset) && body[31..35] == Big(0) && body[35..39] == Big(f.width);
    assert body[39..43] == Big(f.height) && body[43..47] == Big(|f.text|) && body[47..] == f.text;
    BigRoundTrip(f.index);
    BigRoundTrip(f.page);
    BigRoundTrip(f.offset);
    BigRoundTrip(f.width);
    BigRoundTrip(f.height);
    BigRoundTrip(|f.text|);
  }

  /** A body whose fields are in order is the body of the frame that is read from it. */
  lemma BodyOfFields(body: Text)
    requires HEADER_BYTES <= |body| < WORD
    requires var fields := ReadFields(body);
             fields.version == 1 && fields.truncated == 0 && fields.textLength == |body| - HEADER_BYTES
    ensures ReadFields(body).frame.Typed() && Body(ReadFields(body).frame) == body
  {
    var f := ReadFields(body).frame;
    BigOfNumber(body[18..22]);
    BigOfNumber(body[22..26]);
    BigOfNumber(body[26..30]);
    BigOfNumber(body[31..35]);
    BigOfNumber(body[35..39]);
    BigOfNumber(body[39..43]);
    BigOfNumber(body[43..47]);
    assert Place(f) == body[..31];
    assert Content(f) == body[31..];
  }

  /** The number four bytes stand for, the highest first. */
  predicate NumberAt(bytes: Text, at: nat, value: int) {
    && at + 4 <= |bytes|
    && value == (bytes[at] as int) * 16777216 + (bytes[at + 1] as int) * 65536
                + (bytes[at + 2] as int) * 256 + bytes[at + 3] as int
  }

  lemma BigAt(bytes: Text, at: nat, value: nat)
    requires at + 4 <= |bytes| && bytes[at..at + 4] == Big(value) && value < WORD
    ensures NumberAt(bytes, at, value)
  {
    BigRoundTrip(value);
    var four := bytes[at..at + 4];
    assert four[0] == bytes[at] && four[1] == bytes[at + 1] && four[2] == bytes[at + 2] && four[3] == bytes[at + 3];
  }

  /** Where every field of a frame is on the wire. */
  lemma FrameLayout(f: Frame)
    requires f.Typed()
    ensures var wire := FrameBytes(f);
            && |wire| == 51 + |f.text|
            && NumberAt(wire, 0, 47 + |f.text|)
            && wire[4] == 1 && wire[5] == f.kind && wire[6..22] == f.job
            && NumberAt(wire, 22, f.index) && NumberAt(wire, 26, f.page) && NumberAt(wire, 30, f.offset)
            && wire[34] == f.status
            && NumberAt(wire, 35, 0) && NumberAt(wire, 39, f.width) && NumberAt(wire, 43, f.height)
            && NumberAt(wire, 47, |f.text|) && wire[51..] == f.text
  {
    var wire := FrameBytes(f);
    PlaceLayout(f);
    assert wire[35..] == Content(f);
    assert wire[35..39] == Big(0) && wire[39..43] == Big(f.width) && wire[43..47] == Big(f.height);
    assert wire[47..51] == Big(|f.text|) && wire[51..] == f.text;
    BigAt(wire, 35, 0);
    BigAt(wire, 39, f.width);
    BigAt(wire, 43, f.height);
    BigAt(wire, 47, |f.text|);
  }

  lemma PlaceLayout(f: Frame)
    requires f.Typed()
    ensures var wire := FrameBytes(f);
            && NumberAt(wire, 0, 47 + |f.text|)
            && wire[4] == 1 && wire[5] == f.kind && wire[6..22] == f.job
            && NumberAt(wire, 22, f.index) && NumberAt(wire, 26, f.page) && NumberAt(wire, 30, f.offset)
            && wire[34] == f.status
  {
    var wire := FrameBytes(f);
    assert wire[..4] == Big(HEADER_BYTES + |f.text|) && wire[4..35] == Place(f);
    assert wire[0..4] == wire[..4];
    assert wire[22..26] == Big(f.index) && wire[26..30] == Big(f.page) && wire[30..34] == Big(f.offset);
    BigAt(wire, 0, HEADER_BYTES + |f.text|);
    BigAt(wire, 22, f.index);
    BigAt(wire, 26, f.page);
    BigAt(wire, 30, f.offset);
  }

  // ---------------------------------------------------------------- what the workers send

  function PageFrame(job: Text, ocr: bool, index: nat, offset: nat, page: Page): Frame
    requires page.number >= 0 && page.width >= 0 && page.height >= 0
  {
    Frame(0, job, index, page.number, offset, if ocr then 1 else 0, page.width, page.height, page.text)
  }

  predicate Positive(pages: seq<Page>) {
    forall i | 0 <= i < |pages| :: pages[i].number >= 0 && pages[i].width >= 0 && pages[i].height >= 0
  }

  /** Page frames carry the number of text bytes before them. */
  function PagesBytes(job: Text, ocr: bool, pages: seq<Page>): Text
    requires |job| == 16 && Positive(pages)
  {
    if pages == [] then [] else
    var last := |pages| - 1;
    PagesBytes(job, ocr, pages[..last]) + FrameBytes(PageFrame(job, ocr, last, TextTotal(pages[..last]), pages[last]))
  }

  function LastFrame(job: Text, pages: seq<Page>): Frame {
    Frame(1, job, |pages|, 0, TextTotal(pages), 0, 0, 0, [])
  }

  function ResponseBytes(job: Text, ocr: bool, pages: seq<Page>): Text
    requires |job| == 16 && Positive(pages)
  {
    PagesBytes(job, ocr, pages) + FrameBytes(LastFrame(job, pages))
  }

  lemma {:induction false} PagesSize(job: Text, ocr: bool, pages: seq<Page>)
    requires |job| == 16 && Positive(pages)
    ensures |PagesBytes(job, ocr, pages)| == TextTotal(pages) + 51 * |pages|
  {
    if pages != [] {
      PagesSize(job, ocr, pages[..|pages| - 1]);
    }
  }

  lemma BudgetsArePositive(request: Request, pages: seq<Page>)
    requires request.Accepted() && WithinBudgets(request, pages)
    ensures Positive(pages)
  {
    forall i | 0 <= i < |pages| ensures pages[i].number >= 0 && pages[i].width >= 0 && pages[i].height >= 0 {
      assert PageFits(request, pages[i]);
    }
  }

  /** The response to a request is its text and 51 bytes a frame, so neither the check of
      the native side nor that of the service ever fires. */
  lemma ResponseFits(request: Request, job: Text, pages: seq<Page>)
    requires request.Accepted() && WithinBudgets(request, pages) && |job| == 16
    ensures Positive(pages)
    ensures var size := |ResponseBytes(job, request.Ocr(), pages)|;
            && size == TextTotal(pages) + 51 * (request.pageCount + 1)
            && size <= request.limits.outputBytes + 51 * (request.pageCount + 1)
            && size <= request.limits.outputBytes + 4096 <= 1048576 + 4096
  {
    BudgetsArePositive(request, pages);
    PagesSize(job, request.Ocr(), pages);
  }

  /** The code a failed job is reported with. */
  function Code(error: Error): (code: Text)
    ensures 0 < |code| <= 31
    ensures forall i | 0 <= i < |code| :: 95 <= code[i] < 128
  {
    match error
    case InvalidRequest => INVALID_REQUEST
    case Unsupported => UNSUPPORTED
    case InvalidDocument => INVALID_DOCUMENT
    case LimitExceeded => LIMIT
    case _ => UNAVAILABLE
  }

  // invalid_document_worker_request
  const INVALID_REQUEST: Text := [105, 110, 118, 97, 108, 105, 100, 95, 100, 111, 99, 117, 109, 101, 110, 116, 95, 119,
                                  111, 114, 107, 101, 114, 95, 114, 101, 113, 117, 101, 115, 116]
  // document_worker_unsupported
  const UNSUPPORTED: Text := [100, 111, 99, 117, 109, 101, 110, 116, 95, 119, 111, 114, 107, 101, 114, 95, 117, 110,
                              115, 117, 112, 112, 111, 114, 116, 101, 100]
  // invalid_document
  const INVALID_DOCUMENT: Text := [105, 110, 118, 97, 108, 105, 100, 95, 100, 111, 99, 117, 109, 101, 110, 116]
  // document_limit
  const LIMIT: Text := [100, 111, 99, 117, 109, 101, 110, 116, 95, 108, 105, 109, 105, 116]
  // document_worker_unavailable
  const UNAVAILABLE: Text := [100, 111, 99, 117, 109, 101, 110, 116, 95, 119, 111, 114, 107, 101, 114, 95, 117, 110,
                              97, 118, 97, 105, 108, 97, 98, 108, 101]

  predicate Spells(bytes: Text, letters: string) {
    |bytes| == |letters| && forall i | 0 <= i < |letters| :: bytes[i] == letters[i] as int
  }

  /** How the codes are spelled. */
  lemma CodesOfRequests()
    ensures Spells(Code(InvalidRequest), "invalid_document_worker_request")
    ensures Spells(Code(Unsupported), "document_worker_unsupported")
  {
  }

  lemma CodesOfDocuments()
    ensures Spells(Code(InvalidDocument), "invalid_document")
    ensures Spells(Code(LimitExceeded), "document_limit")
    ensures Spells(Code(Unavailable), "document_worker_unavailable")
  {
  }

  function ErrorFrame(job: Text, error: Error): Frame {
    Frame(2, job, 0, 0, 0, 0, 0, 0, Code(error))
  }

  /** The same pages as the Windows worker frames them: kind 1 where the reader knows kind
      0, no offsets, and kind 2 for the last frame. */
  function WindowsPagesBytes(job: Text, pages: seq<Page>): Text
    requires |job| == 16 && Positive(pages)
  {
    if pages == [] then [] else
    var last := |pages| - 1;
    WindowsPagesBytes(job, pages[..last])
    + FrameBytes(Frame(1, job, last, pages[last].number, 0, 0, pages[last].width, pages[last].height, pages[last].text))
  }

  function ErrorNumber(error: Error): Byte {
    match error
    case NoError => 0
    case InvalidRequest => 1
    case Unsupported => 2
    case InvalidDocument => 3
    case LimitExceeded => 4
    case Unavailable => 5
  }

  function WindowsResponseBytes(job: Text, result: Result): Text
    requires |job| == 16 && Positive(result.pages)
  {
    WindowsPagesBytes(job, result.pages)
    + FrameBytes(Frame(2, job, |result.pages|, 0, 0, ErrorNumber(result.error), 0, 0, []))
  }

  /** A frame tells in its second byte what it is: a page, the last one, or an error. */
  lemma KindsOnTheWire(job: Text, ocr: bool, index: nat, offset: nat, page: Page, pages: seq<Page>, error: Error)
    requires page.number >= 0 && page.width >= 0 && page.height >= 0
    requires PageFrame(job, ocr, index, offset, page).Typed() && LastFrame(job, pages).Typed()
    ensures var wire := FrameBytes(PageFrame(job, ocr, index, offset, page));
            wire[5] == 0 && wire[34] == (if ocr then 1 else 0) && NumberAt(wire, 26, page.number)
            && NumberAt(wire, 39, page.width) && NumberAt(wire, 43, page.height) && wire[51..] == page.text
    ensures var wire := FrameBytes(LastFrame(job, pages));
            wire[5] == 1 && wire[34] == 0 && NumberAt(wire, 22, |pages|) && |wire| == 51
    ensures var wire := FrameBytes(ErrorFrame(job, error));
            wire[5] == 2 && wire[34] == 0 && NumberAt(wire, 22, 0) && wire[51..] == Code(error)
  {
    FrameLayout(PageFrame(job, ocr, index, offset, page));
    FrameLayout(LastFrame(job, pages));
    FrameLayout(ErrorFrame(job, error));
  }

  // ---------------------------------------------------------------- building a response

  method PushBig(out: Output, value: nat)
    modifies out
    ensures out.bytes == old(out.bytes) + Big(value)
  {
    out.Push(value / 0x100_0000 % 256);
    out.Push(value / 0x1_0000 % 256);
    out.Push(value / 256 % 256);
    out.Push(value % 256);
  }

  method AppendPlace(out: Output, f: Frame)
    requires |f.job| == 16
    modifies out
    ensures out.bytes == old(out.bytes) + Place(f)
  {
    out.Push(1);
    out.Push(f.kind);
    out.bytes := out.bytes + f.job;
    PushBig(out, f.index);
    PushBig(out, f.page);
    PushBig(out, f.offset);
    out.Push(f.status);
  }

  method AppendContent(out: Output, f: Frame)
    modifies out
    ensures out.bytes == old(out.bytes) + Content(f)
  {
    PushBig(out, 0);
    PushBig(out, f.width);
    PushBig(out, f.height);
    PushBig(out, |f.text|);
    out.bytes := out.bytes + f.text;
  }

  method AppendFrame(out: Output, f: Frame)
    requires |f.job| == 16
    modifies out
    ensures out.bytes == old(out.bytes) + FrameBytes(f)
  {
    PushBig(out, HEADER_BYTES + |f.text|);
    AppendPlace(out, f);
    AppendContent(out, f);
    Associate(old(out.bytes) + Big(HEADER_BYTES + |f.text|), Place(f), Content(f));
    Associate(old(out.bytes), Big(HEADER_BYTES + |f.text|), Body(f));
  }

  lemma PagesOneMore(job: Text, ocr: bool, pages: seq<Page>, i: nat)
    requires |job| == 16 && Positive(pages) && i < |pages|
    ensures Positive(pages[..i]) && Positive(pages[..i + 1])
    ensures PagesBytes(job, ocr, pages[..i + 1]) ==
              PagesBytes(job, ocr, pages[..i]) + FrameBytes(PageFrame(job, ocr, i, TextTotal(pages[..i]), pages[i]))
  {
    assert pages[..i + 1][..i] == pages[..i];
  }

  /** nativeProcess after the engine is done: the offset never wraps, and a response is
      always returned. */
  method Respond(request: Request, job: Text, result: Result) returns (response: Option<Text>)
    requires |job| == 16
    requires if result.error == NoError then request.Accepted() && WithinBudgets(request, result.pages)
             else result.pages == []
    ensures Positive(result.pages)
    ensures response == Some(if result.error == NoError then ResponseBytes(job, request.Ocr(), result.pages)
                             else FrameBytes(ErrorFrame(job, result.error)))
  {
    var out := new Output();
    if result.error == NoError {
      var pages := result.pages;
      BudgetsArePositive(request, pages);
      var offset: Size, index := 0, 0;
      assert pages[..0] == [];
      while index < |pages|
        invariant 0 <= index <= |pages| && fresh(out)
        invariant offset == TextTotal(pages[..index])
        invariant Positive(pages[..index]) && out.bytes == PagesBytes(job, request.Ocr(), pages[..index])
      {
        AppendFrame(out, PageFrame(job, request.Ocr(), index, offset, pages[index]));
        OffsetFits(request, pages, index);
        PagesOneMore(job, request.Ocr(), pages, index);
        offset, index := offset + |pages[index].text|, index + 1;
      }
      assert pages[..index] == pages;
      AppendFrame(out, LastFrame(job, pages));
      ResponseFits(request, job, pages);
    } else {
      AppendFrame(out, ErrorFrame(job, result.error));
      assert [] + FrameBytes(ErrorFrame(job, result.error)) == FrameBytes(ErrorFrame(job, result.error));
    }
    if |out.bytes| > 1048576 + 4096 {
      return None;
    }
    response := Some(out.bytes);
  }

  /** Offsets are the sums of the pages before, and at most the output limit. */
  lemma OffsetFits(request: Request, pages: seq<Page>, i: nat)
    requires request.Accepted() && WithinBudgets(request, pages) && i < |pages|
    ensures TextTotal(pages[..i + 1]) == TextTotal(pages[..i]) + |pages[i].text| <= request.limits.outputBytes
  {
    RastersCount(request, pages);
    TotalsGrow(request, pages, i + 1);
    TotalsOfOneMore(pages, i);
  }
}
