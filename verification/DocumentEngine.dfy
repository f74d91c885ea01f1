/** The document engine: it extracts the text of selected pages, and every page, the whole
    output and every raster stay within the limits of the request. */
module DocumentEngine {
  import opened RecordBytes
  import opened Utf8
  import opened Volumes

  datatype Operation = PdfText | PdfOcr | ImageOcr

  datatype Error = NoError | InvalidRequest | Unsupported | InvalidDocument | LimitExceeded | Unavailable

  datatype Limits = Limits(
    sourceBytes: int,
    pdfPages: int,
    selectedPages: int,
    rasterDimension: int,
    pagePixels: int,
    totalPixels: int,
    pageOutputBytes: int,
    outputBytes: int)
  {
    /** Every limit is positive and below its ceiling. */
    predicate Bounded() {
      && 0 < sourceBytes <= 10485760 && 0 < pdfPages <= 100 && 0 < selectedPages <= 25
      && 0 < rasterDimension <= 4096 && 0 < pagePixels <= 4000000 && 0 < totalPixels <= 20000000
      && 0 < pageOutputBytes <= 262144 && 0 < outputBytes <= 1048576
    }

    predicate Accepted() {
      Bounded() && pagePixels <= totalPixels
    }
  }

  const CEILINGS := Limits(10485760, 100, 25, 4096, 4000000, 20000000, 262144, 1048576)

  datatype Request = Request(operation: Operation, firstPage: int, pageCount: int, limits: Limits, source: nat) {
    predicate Accepted() {
      && limits.Accepted() && 0 < source <= limits.sourceBytes
      && 0 < firstPage && 0 < pageCount <= limits.selectedPages
    }

    predicate Ocr() {
      operation != PdfText
    }
  }

  datatype Page = Page(number: int, text: Text, width: int, height: int)

  datatype Result = Result(error: Error, pageCount: int, pages: seq<Page>)

  /** A 32-bit size_t, the narrowest there is: what does not wrap in it wraps nowhere. */
  type Size = n: int | 0 <= n < 0x1_0000_0000

  // ---------------------------------------------------------------- what the libraries report

  /** What PDFium says about the characters of a page; zero stands for no character. */
  datatype TextLayer = NoTextPage | CountFailed | Characters(values: seq<nat>)

  /** A symbol Tesseract found, a C string, and whether a line or a word ends with it. */
  datatype Symbol = Symbol(text: Option<Text>, endsLine: bool, endsWord: bool)

  datatype Recognition = RecognitionFailed(error: Error) | Recognized(symbols: seq<Symbol>)

  /** `width` and `height` are in points; `None` is a number that is not finite. */
  datatype PdfPage =
    | NotLoaded
    | PdfPage(layer: TextLayer, width: Option<real>, height: Option<real>, rasterFails: bool, seen: Recognition)

  datatype Pdf = Unreadable | Pdf(pages: seq<PdfPage>)

  // ---------------------------------------------------------------- budgets

  function TextTotal(pages: seq<Page>): nat {
    if pages == [] then 0 else TextTotal(pages[..|pages| - 1]) + |pages[|pages| - 1].text|
  }

  function PixelTotal(pages: seq<Page>): int {
    if pages == [] then 0
    else PixelTotal(pages[..|pages| - 1]) + pages[|pages| - 1].width * pages[|pages| - 1].height
  }

  predicate RasterFits(limits: Limits, width: int, height: int) {
    && 0 < width <= limits.rasterDimension && 0 < height <= limits.rasterDimension
    && width * height <= limits.pagePixels
  }

  predicate PageFits(request: Request, page: Page) {
    && |page.text| <= request.limits.pageOutputBytes
    && if request.Ocr() then RasterFits(request.limits, page.width, page.height)
       else page.width == 0 && page.height == 0
  }

  /** The pages that were asked for, in order, and within every limit. */
  predicate WithinBudgets(request: Request, pages: seq<Page>) {
    && |pages| == request.pageCount
    && (forall i | 0 <= i < |pages| :: pages[i].number == request.firstPage + i && PageFits(request, pages[i]))
    && TextTotal(pages) <= request.limits.outputBytes
    && PixelTotal(pages) <= request.limits.totalPixels
  }

  lemma {:induction false} TotalsGrow(request: Request, pages: seq<Page>, i: nat)
    requires i <= |pages| && forall j | i <= j < |pages| :: pages[j].width * pages[j].height >= 0
    ensures TextTotal(pages[..i]) <= TextTotal(pages)
    ensures PixelTotal(pages[..i]) <= PixelTotal(pages)
  {
    if i < |pages| {
      var shorter := pages[..|pages| - 1];
      TotalsGrow(request, shorter, i);
      assert shorter[..i] == pages[..i];
    } else {
      assert pages[..i] == pages;
    }
  }

  lemma TotalsOfOneMore(pages: seq<Page>, i: nat)
    requires i < |pages|
    ensures TextTotal(pages[..i + 1]) == TextTotal(pages[..i]) + |pages[i].text|
    ensures PixelTotal(pages[..i + 1]) == PixelTotal(pages[..i]) + pages[i].width * pages[i].height
  {
    assert pages[..i + 1][..i] == pages[..i];
  }

  // ---------------------------------------------------------------- appending

  /** append: the text grows only if it stays within the limit. */
  method Append(text: Text, bytes: Text, limit: Size) returns (fits: bool, grown: Text)
    ensures fits <==> |text| + |bytes| <= limit
    ensures grown == if fits then text + bytes else text
  {
    fits := false;
    if |text| <= limit {
      var left: Size := limit - |text|;
      fits := |bytes| <= left;
    }
    grown := if fits then text + bytes else text;
  }

  method AppendUnicode(text: Text, value: nat, limit: Size) returns (error: Error, grown: Text)
    ensures error == NoError <==> IsScalar(value) && |text| + |Encode(value)| <= limit
    ensures error == InvalidDocument <==> !IsScalar(value)
    ensures error == NoError ==> grown == text + Encode(value)
  {
    if !IsScalar(value) {
      return InvalidDocument, text;
    }
    var fits;
    fits, grown := Append(text, Encode(value), limit);
    error := if fits then NoError else LimitExceeded;
  }

  /** check_pixels: no product and no sum wraps. */
  method CheckPixels(width: int, height: int, limits: Limits, total: Size) returns (fits: bool, grown: Size)
    requires limits.Accepted()
    ensures fits <==>
              && 0 < width <= limits.rasterDimension && 0 < height <= limits.rasterDimension
              && width * height <= limits.pagePixels && total + width * height <= limits.totalPixels
    ensures grown == if fits then total + width * height else total
  {
    if width <= 0 || height <= 0 || width > limits.rasterDimension || height > limits.rasterDimension {
      return false, total;
    }
    ProductFits(width, height);
    var pixels: Size := width * height;
    if pixels > limits.pagePixels || total > limits.totalPixels {
      return false, total;
    }
    var left: Size := limits.totalPixels - total;
    if pixels > left {
      return false, total;
    }
    var bytes: Size := pixels * 4;
    return true, total + pixels;
  }

  lemma ProductFits(width: int, height: int)
    requires 0 < width <= 4096 && 0 < height <= 4096
    ensures 0 < width * height <= 4096 * 4096
  {
    assert width * height <= 4096 * height;
  }

  // ---------------------------------------------------------------- the text of a page

  predicate AllScalars(values: seq<nat>) {
    forall i | 0 <= i < |values| :: values[i] == 0 || IsScalar(values[i])
  }

  /** The characters that are there. */
  function Present(values: seq<nat>): Scalars
    requires AllScalars(values)
  {
    if values == [] then []
    else Present(values[..|values| - 1]) + if values[|values| - 1] == 0 then [] else [values[|values| - 1]]
  }

  /** Nothing but the zeros is left out, and the rest stays in order. */
  lemma {:induction false} PresentJoined(a: seq<nat>, b: seq<nat>)
    requires AllScalars(a) && AllScalars(b)
    ensures AllScalars(a + b) && Present(a + b) == Present(a) + Present(b)
  {
    if b == [] {
      assert a + b == a && Present(a) + Present(b) == Present(a);
    } else {
      var shorter, last := b[..|b| - 1], if b[|b| - 1] == 0 then [] else [b[|b| - 1]];
      PresentJoined(a, shorter);
      assert (a + b)[..|a + b| - 1] == a + shorter;
      JoinScalars(Present(a), Present(shorter), last);
    }
  }

  lemma JoinScalars(a: Scalars, b: Scalars, c: Scalars)
    ensures (a + b) + c == a + (b + c)
  {
  }

  lemma OneCharacter(value: Scalar)
    ensures Present([0]) == [] && (value != 0 ==> AllScalars([value]) && Present([value]) == [value])
  {
    assert forall v: nat :: [v][..0] == [];
  }

  lemma {:induction false} EncodeOneMore(values: Scalars, last: Scalar)
    ensures EncodeAll(values + [last]) == EncodeAll(values) + Encode(last)
  {
    if values == [] {
      assert EncodeAll([last]) == Encode(last) + [];
      assert values + [last] == [last];
    } else {
      assert (values + [last])[1..] == values[1..] + [last];
      EncodeOneMore(values[1..], last);
      Associate(Encode(values[0]), EncodeAll(values[1..]), Encode(last));
    }
  }

  lemma {:induction false} PresentGrows(values: seq<nat>, i: nat)
    requires AllScalars(values) && i <= |values|
    ensures |EncodeAll(Present(values[..i]))| <= |EncodeAll(Present(values))|
  {
    if i < |values| {
      var shorter := values[..|values| - 1];
      PresentGrows(shorter, i);
      assert shorter[..i] == values[..i];
      if values[|values| - 1] != 0 {
        EncodeOneMore(Present(shorter), values[|values| - 1]);
      } else {
        assert Present(values) == Present(shorter);
      }
    } else {
      assert values[..i] == values;
    }
  }

  lemma PresentOneMore(values: seq<nat>, i: nat)
    requires AllScalars(values) && i < |values|
    ensures EncodeAll(Present(values[..i + 1])) ==
              EncodeAll(Present(values[..i])) + if values[i] == 0 then [] else Encode(values[i])
  {
    assert values[..i + 1][..i] == values[..i];
    if values[i] != 0 {
      EncodeOneMore(Present(values[..i]), values[i]);
    } else {
      assert Present(values[..i + 1]) == Present(values[..i]);
    }
  }

  /** The same with nothing known about the characters after it. */
  lemma NextCharacter(values: seq<nat>, i: nat)
    requires i < |values| && AllScalars(values[..i]) && (values[i] == 0 || IsScalar(values[i]))
    ensures AllScalars(values[..i + 1])
    ensures EncodeAll(Present(values[..i + 1])) ==
              EncodeAll(Present(values[..i])) + if values[i] == 0 then [] else Encode(values[i])
  {
    var longer := values[..i + 1];
    assert longer == values[..i] + [values[i]];
    assert longer[..i] == values[..i] && longer[..i + 1] == longer;
    PresentOneMore(longer, i);
  }

  /** A character that is none, or that does not fit, is one too many for the whole. */
  lemma TooMuch(values: seq<nat>, i: nat, limit: nat)
    requires i < |values| && values[i] != 0 && AllScalars(values[..i])
    requires IsScalar(values[i]) ==> |EncodeAll(Present(values[..i]))| + |Encode(values[i])| > limit
    ensures !(AllScalars(values) && |EncodeAll(Present(values))| <= limit)
  {
    if AllScalars(values) {
      PresentOneMore(values, i);
      PresentGrows(values, i + 1);
    }
  }

  /** The character loop: it succeeds exactly when every character is one and all of them
      together fit, and then yields their encoding. */
  method ReadCharacters(values: seq<nat>, limit: Size) returns (error: Error, text: Text)
    ensures error == NoError <==>
              |values| <= limit && AllScalars(values) && |EncodeAll(Present(values))| <= limit
    ensures error == NoError ==> text == EncodeAll(Present(values))
  {
    text := [];
    if |values| > limit {
      return LimitExceeded, text;
    }
    var i := 0;
    assert values[..0] == [];
    while i < |values|
      invariant 0 <= i <= |values| && AllScalars(values[..i])
      invariant text == EncodeAll(Present(values[..i])) && |text| <= limit
    {
      if values[i] != 0 {
        error, text := AppendUnicode(text, values[i], limit);
        if error != NoError {
          TooMuch(values, i, limit);
          return;
        }
      }
      NextCharacter(values, i);
      i := i + 1;
    }
    assert values[..i] == values;
    error := NoError;
  }

  /** What one symbol adds: itself, and the line or word end after it. */
  function SymbolBytes(symbol: Symbol): Text {
    if symbol.text.None? then []
    else symbol.text.value + if symbol.endsLine then [10] else if symbol.endsWord then [32] else []
  }

  function SymbolsText(symbols: seq<Symbol>): Text {
    if symbols == [] then [] else SymbolsText(symbols[..|symbols| - 1]) + SymbolBytes(symbols[|symbols| - 1])
  }

  /** The symbols come one after the other. */
  lemma {:induction false} SymbolsJoined(a: seq<Symbol>, b: seq<Symbol>)
    ensures SymbolsText(a + b) == SymbolsText(a) + SymbolsText(b)
  {
    if b == [] {
      assert a + b == a;
    } else {
      var shorter := b[..|b| - 1];
      SymbolsJoined(a, shorter);
      assert (a + b)[..|a + b| - 1] == a + shorter;
      Associate(SymbolsText(a), SymbolsText(shorter), SymbolBytes(b[|b| - 1]));
    }
  }

  /** A symbol is its own bytes, with a line feed where a line ends with it and a space
      where only a word does; a symbol without a text is nothing. */
  lemma OneSymbol(text: Text, endsLine: bool, endsWord: bool)
    ensures SymbolsText([Symbol(Some(text), true, endsWord)]) == text + [10]
    ensures SymbolsText([Symbol(Some(text), false, true)]) == text + [32]
    ensures SymbolsText([Symbol(Some(text), false, false)]) == text
    ensures SymbolsText([Symbol(None, endsLine, endsWord)]) == []
  {
    assert forall symbol: Symbol :: [symbol][..0] == [];
    assert [] + (text + [10]) == text + [10] && [] + (text + [32]) == text + [32] && [] + (text + []) == text;
  }

  /** Symbols are C strings. */
  predicate NulFree(symbols: seq<Symbol>) {
    forall i | 0 <= i < |symbols| :: symbols[i].text.Some? ==> 0 !in symbols[i].text.value
  }

  lemma {:induction false} SymbolsGrow(symbols: seq<Symbol>, i: nat)
    requires i <= |symbols|
    ensures |SymbolsText(symbols[..i])| <= |SymbolsText(symbols)|
  {
    if i < |symbols| {
      SymbolsGrow(symbols[..|symbols| - 1], i);
      assert symbols[..|symbols| - 1][..i] == symbols[..i];
    } else {
      assert symbols[..i] == symbols;
    }
  }

  /** Counting stops one past what is left, so an endless symbol is not read to its end. */
  method BoundedLength(symbol: Text, remaining: Size) returns (size: nat)
    requires 0 !in symbol && remaining + 1 < 0x1_0000_0000
    ensures size == if |symbol| <= remaining then |symbol| else remaining + 1
  {
    var terminated := symbol + [0];
    size := 0;
    while size <= remaining && terminated[size] != 0
      invariant size <= |symbol| && size <= remaining + 1
      invariant terminated == symbol + [0]
    {
      size := size + 1;
    }
  }

  method AppendSymbol(text: Text, symbol: Symbol, limit: Size) returns (fits: bool, grown: Text)
    requires |text| <= limit < 0x1_0000_0000 - 1
    requires symbol.text.Some? ==> 0 !in symbol.text.value
    ensures fits <==> |text| + |SymbolBytes(symbol)| <= limit
    ensures fits ==> grown == text + SymbolBytes(symbol)
    ensures fits ==>
              grown == if symbol.text.None? then text
                       else if symbol.endsLine then text + symbol.text.value + [10]
                       else if symbol.endsWord then text + symbol.text.value + [32]
                       else text + symbol.text.value
  {
    if symbol.text.None? {
      assert text + [] == text;
      return true, text;
    }
    var remaining: Size := limit - |text|;
    var size := BoundedLength(symbol.text.value, remaining);
    var read := (symbol.text.value + [0])[..size];
    fits, grown := Append(text, read, limit);
    if !fits {
      return;
    }
    assert read == symbol.text.value;
    if symbol.endsLine {
      fits, grown := Append(grown, [10], limit);
    } else if symbol.endsWord {
      fits, grown := Append(grown, [32], limit);
    }
    if fits {
      assert grown == text + SymbolBytes(symbol);
    }
  }

  /** recognize: it succeeds exactly when the symbols with their line and word ends fit. */
  method Recognize(seen: Recognition, limit: Size) returns (error: Error, text: Text)
    requires seen.Recognized? ==> NulFree(seen.symbols)
    requires seen.RecognitionFailed? ==> seen.error != NoError
    requires limit < 0x1_0000_0000 - 1
    ensures error == NoError <==> seen.Recognized? && |SymbolsText(seen.symbols)| <= limit
    ensures error == NoError ==> text == SymbolsText(seen.symbols)
  {
    text := [];
    if seen.RecognitionFailed? {
      return seen.error, text;
    }
    var symbols, i := seen.symbols, 0;
    assert symbols[..0] == [];
    while i < |symbols|
      invariant 0 <= i <= |symbols|
      invariant text == SymbolsText(symbols[..i]) && |text| <= limit
    {
      assert symbols[..i + 1][..i] == symbols[..i];
      var fits;
      fits, text := AppendSymbol(text, symbols[i], limit);
      if !fits {
        SymbolsGrow(symbols, i + 1);
        return LimitExceeded, text;
      }
      i := i + 1;
    }
    assert symbols[..i] == symbols;
    error := NoError;
  }

  // ---------------------------------------------------------------- one page of a PDF

  function Ceil(x: real): int {
    -((-x).Floor)
  }

  lemma CeilIsLeast(x: real)
    ensures (Ceil(x) - 1) as real < x <= Ceil(x) as real
  {
  }

  predicate Sane(seen: Recognition) {
    if seen.Recognized? then NulFree(seen.symbols) else seen.error != NoError
  }

  /** The libraries can make a page of this. */
  predicate Readable(ocr: bool, page: PdfPage) {
    && page.PdfPage?
    && if ocr then page.width.Some? && page.height.Some? && !page.rasterFails && page.seen.Recognized?
       else page.layer.Characters? && AllScalars(page.layer.values)
  }

  /** The page, if nothing were limited. */
  function Ideal(ocr: bool, number: int, page: PdfPage): Page
    requires Readable(ocr, page)
  {
    if ocr then
      Page(number, SymbolsText(page.seen.symbols), Ceil(page.width.value * 2.0), Ceil(page.height.value * 2.0))
    else Page(number, EncodeAll(Present(page.layer.values)), 0, 0)
  }

  /** The characters of a page are counted before they are read, the absent ones too. */
  predicate CountFits(ocr: bool, page: PdfPage, limit: int) {
    !ocr && page.PdfPage? && page.layer.Characters? ==> |page.layer.values| <= limit
  }

  predicate PageDelivered(request: Request, number: int, page: PdfPage, limit: int, pixels: int) {
    && Readable(request.Ocr(), page) && CountFits(request.Ocr(), page, limit)
    && var ideal := Ideal(request.Ocr(), number, page);
    && PageFits(request, ideal) && |ideal.text| <= limit
    && pixels + ideal.width * ideal.height <= request.limits.totalPixels
  }

  method ExtractPage(request: Request, number: int, page: PdfPage, limit: Size, pixels: Size)
    returns (error: Error, extracted: Page, grown: Size)
    requires request.Accepted() && request.operation != ImageOcr
    requires limit <= request.limits.pageOutputBytes && pixels <= request.limits.totalPixels
    requires page.PdfPage? ==> Sane(page.seen)
    ensures error == NoError <==> PageDelivered(request, number, page, limit, pixels)
    ensures error == NoError ==>
              && extracted == Ideal(request.Ocr(), number, page)
              && grown == pixels + extracted.width * extracted.height
  {
    extracted, grown := Page(number, [], 0, 0), pixels;
    if page.NotLoaded? {
      return InvalidDocument, extracted, grown;
    }
    var text: Text;
    if request.operation == PdfText {
      if !page.layer.Characters? {
        return if page.layer.NoTextPage? then InvalidDocument else LimitExceeded, extracted, grown;
      }
      error, text := ReadCharacters(page.layer.values, limit);
      extracted := extracted.(text := text);
    } else {
      var fits, width, height;
      fits, width, height, grown := MeasureRaster(request, page, pixels);
      if !fits || page.rasterFails {
        return LimitExceeded, extracted, grown;
      }
      error, text := Recognize(page.seen, limit);
      extracted := Page(number, text, width, height);
    }
  }

  /** The raster is twice the page, rounded up. */
  method MeasureRaster(request: Request, page: PdfPage, pixels: Size)
    returns (fits: bool, width: int, height: int, grown: Size)
    requires request.Accepted() && page.PdfPage?
    ensures fits <==>
              && page.width.Some? && page.height.Some?
              && var w, h := Ceil(page.width.value * 2.0), Ceil(page.height.value * 2.0);
              && RasterFits(request.limits, w, h) && pixels + w * h <= request.limits.totalPixels
    ensures fits ==>
              && width == Ceil(page.width.value * 2.0) && height == Ceil(page.height.value * 2.0)
              && grown == pixels + width * height
  {
    fits, width, height, grown := false, 0, 0, pixels;
    if page.width.None? || page.height.None? {
      return;
    }
    var w, h := page.width.value * 2.0, page.height.value * 2.0;
    CeilWithin(w, request.limits.rasterDimension);
    CeilWithin(h, request.limits.rasterDimension);
    var dimension := request.limits.rasterDimension as real;
    if w <= 0.0 || h <= 0.0 || w > dimension || h > dimension {
      return;
    }
    width, height := Ceil(w), Ceil(h);
    fits, grown := CheckPixels(width, height, request.limits, pixels);
  }

  lemma CeilWithin(x: real, limit: int)
    ensures 0.0 < x <= limit as real <==> 0 < Ceil(x) <= limit
  {
  }

  // ---------------------------------------------------------------- all pages of a PDF

  predicate Selected(request: Request, pages: seq<PdfPage>) {
    && 0 < |pages| <= request.limits.pdfPages
    && 0 < request.firstPage <= |pages| && 0 <= request.pageCount <= |pages| - request.firstPage + 1
  }

  function Chosen(request: Request, pages: seq<PdfPage>): (chosen: seq<PdfPage>)
    requires Selected(request, pages)
    ensures |chosen| == request.pageCount
  {
    pages[request.firstPage - 1..request.firstPage - 1 + request.pageCount]
  }

  predicate AllReadable(ocr: bool, chosen: seq<PdfPage>) {
    forall i | 0 <= i < |chosen| :: Readable(ocr, chosen[i])
  }

  /** The pages, numbered from `first` on, if nothing were limited. */
  function Ideals(ocr: bool, first: int, chosen: seq<PdfPage>): (ideals: seq<Page>)
    requires AllReadable(ocr, chosen)
    ensures |ideals| == |chosen|
    ensures forall i | 0 <= i < |chosen| :: ideals[i] == Ideal(ocr, first + i, chosen[i])
  {
    seq(|chosen|, i requires 0 <= i < |chosen| => Ideal(ocr, first + i, chosen[i]))
  }

  function Least(a: int, b: int): int {
    if a <= b then a else b
  }

  /** What is left for the next page. */
  function Left(limits: Limits, before: seq<Page>): int {
    Least(limits.pageOutputBytes, limits.outputBytes - TextTotal(before))
  }

  /** The whole request can be met: the pages are readable, and as they are they stay
      within the budgets. */
  predicate Deliverable(request: Request, chosen: seq<PdfPage>) {
    && AllReadable(request.Ocr(), chosen)
    && var ideals := Ideals(request.Ocr(), request.firstPage, chosen);
    && WithinBudgets(request, ideals)
    && forall i | 0 <= i < |chosen| :: CountFits(request.Ocr(), chosen[i], Left(request.limits, ideals[..i]))
  }

  /** The bytes and the pixels of a page, nothing if it cannot be read. */
  function TextSize(ocr: bool, page: PdfPage): nat {
    if !Readable(ocr, page) then 0
    else if ocr then |SymbolsText(page.seen.symbols)| else |EncodeAll(Present(page.layer.values))|
  }

  function RasterSize(ocr: bool, page: PdfPage): int {
    if !ocr || !Readable(ocr, page) then 0 else Ceil(page.width.value * 2.0) * Ceil(page.height.value * 2.0)
  }

  function TextSizes(ocr: bool, pages: seq<PdfPage>): nat {
    if pages == [] then 0 else TextSizes(ocr, pages[..|pages| - 1]) + TextSize(ocr, pages[|pages| - 1])
  }

  function RasterSizes(ocr: bool, pages: seq<PdfPage>): int {
    if pages == [] then 0 else RasterSizes(ocr, pages[..|pages| - 1]) + RasterSize(ocr, pages[|pages| - 1])
  }

  lemma {:induction false} IdealTotals(ocr: bool, first: int, chosen: seq<PdfPage>)
    requires AllReadable(ocr, chosen)
    ensures TextTotal(Ideals(ocr, first, chosen)) == TextSizes(ocr, chosen)
    ensures PixelTotal(Ideals(ocr, first, chosen)) == RasterSizes(ocr, chosen)
  {
    if chosen != [] {
      var shorter := chosen[..|chosen| - 1];
      IdealTotals(ocr, first, shorter);
      assert Ideals(ocr, first, chosen)[..|chosen| - 1] == Ideals(ocr, first, shorter);
    }
  }

  lemma IdealTotalsSoFar(ocr: bool, first: int, chosen: seq<PdfPage>, i: nat)
    requires AllReadable(ocr, chosen) && i < |chosen|
    ensures TextTotal(Ideals(ocr, first, chosen)[..i]) == TextSizes(ocr, chosen[..i])
  {
    IdealTotals(ocr, first, chosen[..i]);
    assert Ideals(ocr, first, chosen)[..i] == Ideals(ocr, first, chosen[..i]);
  }

  /** The characters of the page, the absent ones too, are no more than what is left for it. */
  predicate CountFitsAfter(request: Request, before: seq<PdfPage>, page: PdfPage) {
    CountFits(request.Ocr(), page,
              Least(request.limits.pageOutputBytes,
                    request.limits.outputBytes - TextSizes(request.Ocr(), before)))
  }

  lemma PagesFitExactlyWhen(request: Request, chosen: seq<PdfPage>)
    requires AllReadable(request.Ocr(), chosen)
    ensures (forall i | 0 <= i < |chosen| ::
               PageFits(request, Ideals(request.Ocr(), request.firstPage, chosen)[i])) <==>
            (forall i | 0 <= i < |chosen| :: SizesFit(request, chosen[i]))
  {
    var ideals := Ideals(request.Ocr(), request.firstPage, chosen);
    forall i | 0 <= i < |chosen| ensures PageFits(request, ideals[i]) <==> SizesFit(request, chosen[i]) {
    }
  }

  predicate SizesFit(request: Request, page: PdfPage) {
    && TextSize(request.Ocr(), page) <= request.limits.pageOutputBytes
    && (request.Ocr() ==>
          && page.PdfPage? && page.width.Some? && page.height.Some?
          && 0 < Ceil(page.width.value * 2.0) <= request.limits.rasterDimension
          && 0 < Ceil(page.height.value * 2.0) <= request.limits.rasterDimension
          && Ceil(page.width.value * 2.0) * Ceil(page.height.value * 2.0) <= request.limits.pagePixels)
  }

  lemma CountsFitExactlyWhen(request: Request, chosen: seq<PdfPage>)
    requires AllReadable(request.Ocr(), chosen)
    ensures var ideals := Ideals(request.Ocr(), request.firstPage, chosen);
            (forall i | 0 <= i < |chosen| ::
               CountFits(request.Ocr(), chosen[i], Left(request.limits, ideals[..i]))) <==>
            (forall i | 0 <= i < |chosen| :: CountFitsAfter(request, chosen[..i], chosen[i]))
  {
    var ideals := Ideals(request.Ocr(), request.firstPage, chosen);
    forall i | 0 <= i < |chosen|
      ensures CountFits(request.Ocr(), chosen[i], Left(request.limits, ideals[..i])) <==>
              CountFitsAfter(request, chosen[..i], chosen[i])
    {
      IdealTotalsSoFar(request.Ocr(), request.firstPage, chosen, i);
    }
  }

  /** A request can be met exactly when every page can be read, none is over the limits of a
      page, and all of them together are not over those of the request. */
  lemma DeliverableExactlyWhen(request: Request, chosen: seq<PdfPage>)
    requires |chosen| == request.pageCount
    ensures Deliverable(request, chosen) <==>
              && AllReadable(request.Ocr(), chosen)
              && (forall i | 0 <= i < |chosen| :: SizesFit(request, chosen[i]))
              && (forall i | 0 <= i < |chosen| :: CountFitsAfter(request, chosen[..i], chosen[i]))
              && TextSizes(request.Ocr(), chosen) <= request.limits.outputBytes
              && RasterSizes(request.Ocr(), chosen) <= request.limits.totalPixels
  {
    if AllReadable(request.Ocr(), chosen) {
      PagesFitExactlyWhen(request, chosen);
      CountsFitExactlyWhen(request, chosen);
      IdealTotals(request.Ocr(), request.firstPage, chosen);
      NumbersAre(request, chosen);
    }
  }

  lemma NumbersAre(request: Request, chosen: seq<PdfPage>)
    requires AllReadable(request.Ocr(), chosen) && |chosen| == request.pageCount
    ensures var ideals := Ideals(request.Ocr(), request.firstPage, chosen);
            WithinBudgets(request, ideals) <==>
              && (forall i | 0 <= i < |chosen| :: PageFits(request, ideals[i]))
              && TextTotal(ideals) <= request.limits.outputBytes
              && PixelTotal(ideals) <= request.limits.totalPixels
  {
  }

  lemma {:induction false} NoRasters(chosen: seq<PdfPage>)
    ensures RasterSizes(false, chosen) == 0
  {
    if chosen != [] {
      NoRasters(chosen[..|chosen| - 1]);
    }
  }

  /** A page whose text layer consists of characters. */
  predicate HasText(page: PdfPage) {
    && page.PdfPage? && page.layer.Characters?
    && forall value <- page.layer.values :: value == 0 || IsScalar(value)
  }

  /** A PDF's text can be delivered exactly when every page has a text layer of characters,
      no page has more text than a page may have or more characters than are left for it,
      and all of it together is no more than the output may be. */
  lemma TextIsDeliverableExactlyWhen(request: Request, chosen: seq<PdfPage>)
    requires request.operation == PdfText && |chosen| == request.pageCount && request.limits.totalPixels >= 0
    ensures Deliverable(request, chosen) <==>
              && (forall i | 0 <= i < |chosen| :: HasText(chosen[i]))
              && (forall i | 0 <= i < |chosen| ::
                    && TextSize(false, chosen[i]) <= request.limits.pageOutputBytes
                    && chosen[i].PdfPage? && chosen[i].layer.Characters?
                    && |chosen[i].layer.values| <= request.limits.pageOutputBytes
                    && |chosen[i].layer.values| <= request.limits.outputBytes - TextSizes(false, chosen[..i]))
              && TextSizes(false, chosen) <= request.limits.outputBytes
  {
    DeliverableExactlyWhen(request, chosen);
    NoRasters(chosen);
    assert forall page :: Readable(false, page) <==> HasText(page);
  }

  /** Recognized pages can be delivered exactly when every page can be drawn and recognized,
      its raster and its text are within the limits of a page, and all pixels and all texts
      together within those of the request. */
  lemma ScansAreDeliverableExactlyWhen(request: Request, chosen: seq<PdfPage>)
    requires request.operation == PdfOcr && |chosen| == request.pageCount
    ensures Deliverable(request, chosen) <==>
              && (forall i | 0 <= i < |chosen| ::
                    && chosen[i].PdfPage? && chosen[i].width.Some? && chosen[i].height.Some?
                    && !chosen[i].rasterFails && chosen[i].seen.Recognized?)
              && (forall i | 0 <= i < |chosen| :: SizesFit(request, chosen[i]))
              && TextSizes(true, chosen) <= request.limits.outputBytes
              && RasterSizes(true, chosen) <= request.limits.totalPixels
  {
    DeliverableExactlyWhen(request, chosen);
  }

  /** A page as it should be, after the pages before it. */
  predicate DeliveredAt(request: Request, number: int, chosen: PdfPage, before: seq<Page>, page: Page) {
    && PageFits(request, page)
    && Readable(request.Ocr(), chosen)
    && page == Ideal(request.Ocr(), number, chosen)
    && CountFits(request.Ocr(), chosen, Left(request.limits, before))
  }

  /** What the loop has delivered so far. */
  predicate Delivered(request: Request, chosen: seq<PdfPage>, done: seq<Page>) {
    && |done| <= |chosen|
    && forall i | 0 <= i < |done| :: DeliveredAt(request, request.firstPage + i, chosen[i], done[..i], done[i])
  }

  lemma RastersCount(request: Request, pages: seq<Page>)
    requires request.Accepted() && forall i | 0 <= i < |pages| :: PageFits(request, pages[i])
    ensures forall i | 0 <= i < |pages| :: pages[i].width * pages[i].height >= 0
  {
    forall i | 0 <= i < |pages| ensures pages[i].width * pages[i].height >= 0 {
      if request.Ocr() {
        ProductFits(pages[i].width, pages[i].height);
      }
    }
  }

  lemma DeliveredIsIdeal(request: Request, chosen: seq<PdfPage>, done: seq<Page>)
    requires AllReadable(request.Ocr(), chosen) && Delivered(request, chosen, done)
    ensures Ideals(request.Ocr(), request.firstPage, chosen)[..|done|] == done
  {
    var ideals := Ideals(request.Ocr(), request.firstPage, chosen);
    forall i | 0 <= i < |done| ensures ideals[..|done|][i] == done[i] {
      assert DeliveredAt(request, request.firstPage + i, chosen[i], done[..i], done[i]);
    }
  }

  /** Pages within the budgets fit one by one into what the pages before them left. */
  lemma BudgetLeft(request: Request, pages: seq<Page>, i: nat)
    requires request.Accepted() && WithinBudgets(request, pages) && i < |pages|
    ensures PageFits(request, pages[i]) && |pages[i].text| <= Left(request.limits, pages[..i])
    ensures PixelTotal(pages[..i]) + pages[i].width * pages[i].height <= request.limits.totalPixels
  {
    RastersCount(request, pages);
    TotalsGrow(request, pages, i + 1);
    TotalsOfOneMore(pages, i);
  }

  /** In a deliverable request every page is delivered when its turn comes. */
  lemma DeliverableStep(request: Request, chosen: seq<PdfPage>, done: seq<Page>)
    requires request.Accepted() && Deliverable(request, chosen)
    requires Delivered(request, chosen, done) && |done| < |chosen|
    ensures PageDelivered(request, request.firstPage + |done|, chosen[|done|],
                          Left(request.limits, done), PixelTotal(done))
  {
    var ideals := Ideals(request.Ocr(), request.firstPage, chosen);
    var i := |done|;
    DeliveredIsIdeal(request, chosen, done);
    BudgetLeft(request, ideals, i);
    assert CountFits(request.Ocr(), chosen[i], Left(request.limits, ideals[..i]));
    DeliveredFrom(request, request.firstPage + i, chosen[i], ideals[i], Left(request.limits, done), PixelTotal(done));
  }

  lemma DeliveredFrom(request: Request, number: int, page: PdfPage, ideal: Page, limit: int, pixels: int)
    requires Readable(request.Ocr(), page) && CountFits(request.Ocr(), page, limit)
    requires ideal == Ideal(request.Ocr(), number, page)
    requires PageFits(request, ideal) && |ideal.text| <= limit
    requires pixels + ideal.width * ideal.height <= request.limits.totalPixels
    ensures PageDelivered(request, number, page, limit, pixels)
  {
  }

  /** The other way: what ExtractPage delivers is as it should be, and leaves the totals
      within the limits. */
  lemma DeliveredIsRight(request: Request, number: int, chosen: PdfPage, before: seq<Page>, page: Page, pixels: int)
    requires PageDelivered(request, number, chosen, Left(request.limits, before), pixels)
    requires page == Ideal(request.Ocr(), number, chosen)
    ensures DeliveredAt(request, number, chosen, before, page)
    ensures TextTotal(before) + |page.text| <= request.limits.outputBytes
    ensures pixels + page.width * page.height <= request.limits.totalPixels
  {
  }

  lemma OneMoreDelivered(request: Request, chosen: seq<PdfPage>, done: seq<Page>, page: Page)
    requires Delivered(request, chosen, done) && |done| < |chosen|
    requires DeliveredAt(request, request.firstPage + |done|, chosen[|done|], done, page)
    ensures Delivered(request, chosen, done + [page])
  {
    var longer := done + [page];
    forall i | 0 <= i < |longer|
      ensures DeliveredAt(request, request.firstPage + i, chosen[i], longer[..i], longer[i])
    {
      if i < |done| {
        assert longer[..i] == done[..i] && longer[i] == done[i];
        assert DeliveredAt(request, request.firstPage + i, chosen[i], done[..i], done[i]);
      } else {
        assert longer[..i] == done;
      }
    }
  }

  lemma TotalsAppended(pages: seq<Page>, page: Page)
    ensures TextTotal(pages + [page]) == TextTotal(pages) + |page.text|
    ensures PixelTotal(pages + [page]) == PixelTotal(pages) + page.width * page.height
  {
    var longer := pages + [page];
    assert longer[..|longer| - 1] == pages;
  }

  lemma DeliveredIsReadable(request: Request, chosen: seq<PdfPage>, done: seq<Page>)
    requires Delivered(request, chosen, done) && |done| == |chosen|
    ensures AllReadable(request.Ocr(), chosen) && done == Ideals(request.Ocr(), request.firstPage, chosen)
  {
    forall i | 0 <= i < |chosen| ensures Readable(request.Ocr(), chosen[i]) {
      assert DeliveredAt(request, request.firstPage + i, chosen[i], done[..i], done[i]);
    }
    DeliveredIsIdeal(request, chosen, done);
    var ideals := Ideals(request.Ocr(), request.firstPage, chosen);
    assert ideals[..|ideals|] == ideals;
  }

  lemma DeliveredFits(request: Request, chosen: seq<PdfPage>, done: seq<Page>, i: nat)
    requires Delivered(request, chosen, done) && i < |done|
    ensures CountFits(request.Ocr(), chosen[i], Left(request.limits, done[..i]))
    ensures done[i].number == request.firstPage + i && PageFits(request, done[i])
  {
    assert DeliveredAt(request, request.firstPage + i, chosen[i], done[..i], done[i]);
  }

  lemma AllDelivered(request: Request, chosen: seq<PdfPage>, done: seq<Page>)
    requires Delivered(request, chosen, done) && |done| == |chosen| == request.pageCount
    requires TextTotal(done) <= request.limits.outputBytes && PixelTotal(done) <= request.limits.totalPixels
    ensures Deliverable(request, chosen) && done == Ideals(request.Ocr(), request.firstPage, chosen)
  {
    DeliveredIsReadable(request, chosen, done);
    forall i | 0 <= i < |done|
      ensures CountFits(request.Ocr(), chosen[i], Left(request.limits, done[..i]))
      ensures done[i].number == request.firstPage + i && PageFits(request, done[i])
    {
      DeliveredFits(request, chosen, done, i);
    }
  }

  /** With the page ExtractPage delivered the loop has delivered one page more. */
  lemma NextDelivered(request: Request, chosen: seq<PdfPage>, done: seq<Page>, page: Page)
    requires Delivered(request, chosen, done) && |done| < |chosen|
    requires PageDelivered(request, request.firstPage + |done|, chosen[|done|],
                           Left(request.limits, done), PixelTotal(done))
    requires page == Ideal(request.Ocr(), request.firstPage + |done|, chosen[|done|])
    ensures Delivered(request, chosen, done + [page])
    ensures TextTotal(done + [page]) == TextTotal(done) + |page.text| <= request.limits.outputBytes
    ensures PixelTotal(done + [page]) == PixelTotal(done) + page.width * page.height <= request.limits.totalPixels
  {
    DeliveredIsRight(request, request.firstPage + |done|, chosen[|done|], done, page, PixelTotal(done));
    OneMoreDelivered(request, chosen, done, page);
    TotalsAppended(done, page);
  }

  /** The page loop: output and pixels add up, and no budget is ever overdrawn. */
  method ExtractPages(request: Request, chosen: seq<PdfPage>) returns (error: Error, done: seq<Page>)
    requires request.Accepted() && request.operation != ImageOcr && |chosen| == request.pageCount
    requires forall page <- chosen :: page.PdfPage? ==> Sane(page.seen)
    ensures error == NoError <==> Deliverable(request, chosen)
    ensures error == NoError ==> done == Ideals(request.Ocr(), request.firstPage, chosen)
  {
    done := [];
    var output: Size, pixels: Size, index := 0, 0, 0;
    while index < request.pageCount
      invariant 0 <= index == |done| <= request.pageCount
      invariant Delivered(request, chosen, done)
      invariant output == TextTotal(done) <= request.limits.outputBytes
      invariant pixels == PixelTotal(done) <= request.limits.totalPixels
    {
      var left: Size := request.limits.outputBytes - output;
      var limit: Size := Least(request.limits.pageOutputBytes, left);
      var page, grown;
      error, page, grown := ExtractPage(request, request.firstPage + index, chosen[index], limit, pixels);
      if error != NoError {
        if Deliverable(request, chosen) {
          DeliverableStep(request, chosen, done);
        }
        return;
      }
      NextDelivered(request, chosen, done, page);
      output, pixels := output + |page.text|, grown;
      done, index := done + [page], index + 1;
    }
    AllDelivered(request, chosen, done);
    error := NoError;
  }

  /** process_pdf delivers exactly the requests that can be met, and then delivers the
      pages as they are; otherwise it delivers nothing. */
  method ProcessPdf(request: Request, document: Pdf) returns (result: Result)
    requires request.Accepted() && request.operation != ImageOcr
    requires document.Pdf? ==> forall page <- document.pages :: page.PdfPage? ==> Sane(page.seen)
    ensures result.error == NoError <==>
              && document.Pdf? && Selected(request, document.pages)
              && Deliverable(request, Chosen(request, document.pages))
    ensures result.error == NoError ==>
              result == Result(NoError, |document.pages|,
                               Ideals(request.Ocr(), request.firstPage, Chosen(request, document.pages)))
    ensures result.error != NoError ==> result == Result(result.error, 0, [])
    ensures result.error == NoError ==> WithinBudgets(request, result.pages)
    ensures document.Unreadable? ==> result.error == InvalidDocument
    ensures document.Pdf? && !(0 < |document.pages| <= request.limits.pdfPages) ==> result.error == LimitExceeded
    ensures (document.Pdf? && 0 < |document.pages| <= request.limits.pdfPages
             && request.firstPage + request.pageCount - 1 > |document.pages|) ==> result.error == InvalidRequest
  {
    if document.Unreadable? {
      return Result(InvalidDocument, 0, []);
    }
    var pages := document.pages;
    if |pages| == 0 || |pages| > request.limits.pdfPages {
      return Result(LimitExceeded, 0, []);
    }
    if request.firstPage > |pages| || request.pageCount > |pages| - request.firstPage + 1 {
      return Result(InvalidRequest, 0, []);
    }
    var error, done := ExtractPages(request, Chosen(request, pages));
    result := if error == NoError then Result(NoError, |pages|, done) else Result(error, 0, []);
  }

  // ---------------------------------------------------------------- images and requests

  /** What Leptonica says about an image, before and after decoding it. */
  datatype Image =
    | UnknownFormat(error: Error)
    | Image(width: int, height: int, decoded: Option<(int, int)>, seen: Recognition)

  /** The image can be read as one page within the limits. */
  predicate ImageDeliverable(request: Request, image: Image) {
    && request.firstPage == 1 && request.pageCount == 1 && request.source >= 12 && image.Image?
    && RasterFits(request.limits, image.width, image.height)
    && image.decoded == Some((image.width, image.height)) && image.seen.Recognized?
    && |SymbolsText(image.seen.symbols)| <= Left(request.limits, [])
  }

  method ProcessImage(request: Request, image: Image) returns (result: Result)
    requires request.Accepted()
    requires if image.Image? then Sane(image.seen) else image.error != NoError
    ensures result.error == NoError <==> ImageDeliverable(request, image)
    ensures result.error == NoError ==>
              result == Result(NoError, 1, [Page(1, SymbolsText(image.seen.symbols), image.width, image.height)])
    ensures result.error != NoError ==> result == Result(result.error, 0, [])
    ensures !(request.firstPage == request.pageCount == 1) ==> result.error == InvalidRequest
    ensures (request.firstPage == request.pageCount == 1 && request.source < 12) ==> result.error == InvalidDocument
  {
    if request.firstPage != 1 || request.pageCount != 1 {
      return Result(InvalidRequest, 0, []);
    }
    if request.source < 12 {
      return Result(InvalidDocument, 0, []);
    }
    if image.UnknownFormat? {
      return Result(image.error, 0, []);
    }
    var fits, pixels := CheckPixels(image.width, image.height, request.limits, 0);
    if !fits {
      return Result(LimitExceeded, 0, []);
    }
    if image.decoded != Some((image.width, image.height)) {
      return Result(InvalidDocument, 0, []);
    }
    var limit: Size := Least(request.limits.pageOutputBytes, request.limits.outputBytes);
    var error, text := Recognize(image.seen, limit);
    result := if error == NoError then Result(NoError, 1, [Page(1, text, image.width, image.height)])
              else Result(error, 0, []);
  }

  /** The page with its number, its text as it is, and its raster if it was recognized. */
  predicate IsPageOf(ocr: bool, number: int, source: PdfPage, page: Page) {
    && source.PdfPage? && page.number == number
    && if ocr then
         && source.seen.Recognized? && page.text == SymbolsText(source.seen.symbols)
         && source.width.Some? && page.width == Ceil(source.width.value * 2.0)
         && source.height.Some? && page.height == Ceil(source.height.value * 2.0)
       else
         && source.layer.Characters? && AllScalars(source.layer.values)
         && page.text == EncodeAll(Present(source.layer.values)) && page.width == 0 && page.height == 0
  }

  lemma IdealIsPage(ocr: bool, number: int, source: PdfPage)
    requires Readable(ocr, source)
    ensures IsPageOf(ocr, number, source, Ideal(ocr, number, source))
  {
  }

  lemma IdealsArePages(request: Request, pages: seq<PdfPage>)
    requires Selected(request, pages) && AllReadable(request.Ocr(), Chosen(request, pages))
    ensures forall i | 0 <= i < request.pageCount ::
              IsPageOf(request.Ocr(), request.firstPage + i, pages[request.firstPage - 1 + i],
                       Ideals(request.Ocr(), request.firstPage, Chosen(request, pages))[i])
  {
    var chosen := Chosen(request, pages);
    forall i | 0 <= i < request.pageCount
      ensures IsPageOf(request.Ocr(), request.firstPage + i, pages[request.firstPage - 1 + i],
                       Ideals(request.Ocr(), request.firstPage, chosen)[i])
    {
      assert chosen[i] == pages[request.firstPage - 1 + i];
      IdealIsPage(request.Ocr(), request.firstPage + i, chosen[i]);
    }
  }

  lemma OnePageFits(request: Request, image: Image)
    requires request.Accepted() && request.operation == ImageOcr
    ensures ImageDeliverable(request, image) <==>
              && request.firstPage == 1 && request.pageCount == 1 && request.source >= 12 && image.Image?
              && 0 < image.width <= request.limits.rasterDimension
              && 0 < image.height <= request.limits.rasterDimension
              && image.width * image.height <= request.limits.pagePixels
              && image.decoded == Some((image.width, image.height)) && image.seen.Recognized?
              && |SymbolsText(image.seen.symbols)| <= request.limits.pageOutputBytes
              && |SymbolsText(image.seen.symbols)| <= request.limits.outputBytes
    ensures ImageDeliverable(request, image) ==>
              WithinBudgets(request, [Page(1, SymbolsText(image.seen.symbols), image.width, image.height)])
  {
    if ImageDeliverable(request, image) {
      var page := Page(1, SymbolsText(image.seen.symbols), image.width, image.height);
      TotalsAppended([], page);
      assert [] + [page] == [page];
    }
  }

  lemma SameChoice(request: Request, pages: seq<PdfPage>)
    requires Selected(request, pages)
    ensures Chosen(request, pages) == pages[request.firstPage - 1..][..request.pageCount]
  {
  }

  /** process: a request outside the ceilings is refused before anything is opened; every
      other is answered with the pages that were asked for exactly when they can be had
      within its budgets. */
  method Process(request: Request, document: Pdf, image: Image) returns (result: Result)
    requires document.Pdf? ==> forall page <- document.pages :: page.PdfPage? ==> Sane(page.seen)
    requires if image.Image? then Sane(image.seen) else image.error != NoError
    ensures !request.Accepted() ==> result == Result(InvalidRequest, 0, [])
    ensures result.error == NoError ==> request.Accepted() && WithinBudgets(request, result.pages)
    ensures result.error == NoError && request.operation == ImageOcr ==> request.firstPage == request.pageCount == 1
    ensures result.error != NoError ==> result == Result(result.error, 0, [])
    ensures var l := request.limits;
            request.Accepted() <==>
              && 0 < l.sourceBytes <= 10485760 && 0 < l.pdfPages <= 100 && 0 < l.selectedPages <= 25
              && 0 < l.rasterDimension <= 4096 && 0 < l.pagePixels <= l.totalPixels <= 20000000
              && l.pagePixels <= 4000000 && 0 < l.pageOutputBytes <= 262144 && 0 < l.outputBytes <= 1048576
              && 0 < request.source <= l.sourceBytes
              && 0 < request.firstPage && 0 < request.pageCount <= l.selectedPages
    ensures request.Accepted() && request.operation != ImageOcr ==>
              (result.error == NoError <==>
                && document.Pdf? && 0 < |document.pages| <= request.limits.pdfPages
                && request.firstPage + request.pageCount - 1 <= |document.pages|
                && Deliverable(request, document.pages[request.firstPage - 1..][..request.pageCount]))
    ensures result.error == NoError && request.operation != ImageOcr ==>
              && document.Pdf? && result.pageCount == |document.pages| && |result.pages| == request.pageCount
              && request.firstPage + request.pageCount - 1 <= |document.pages|
              && forall i | 0 <= i < request.pageCount ::
                   IsPageOf(request.Ocr(), request.firstPage + i,
                            document.pages[request.firstPage - 1 + i], result.pages[i])
    ensures request.Accepted() && request.operation != ImageOcr && document.Unreadable? ==>
              result.error == InvalidDocument
    ensures request.Accepted() && request.operation != ImageOcr && document.Pdf? ==>
              && ((|document.pages| == 0 || |document.pages| > request.limits.pdfPages) ==>
                    result.error == LimitExceeded)
              && (0 < |document.pages| <= request.limits.pdfPages
                  && request.firstPage + request.pageCount - 1 > |document.pages| ==>
                    result.error == InvalidRequest)
    ensures request.Accepted() && request.operation == ImageOcr ==>
              && (!(request.firstPage == request.pageCount == 1) ==> result.error == InvalidRequest)
              && (request.firstPage == request.pageCount == 1 && request.source < 12 ==>
                    result.error == InvalidDocument)
    ensures request.Accepted() && request.operation == ImageOcr ==>
              (result.error == NoError <==>
                && request.firstPage == 1 && request.pageCount == 1 && request.source >= 12 && image.Image?
                && 0 < image.width <= request.limits.rasterDimension
                && 0 < image.height <= request.limits.rasterDimension
                && image.width * image.height <= request.limits.pagePixels
                && image.decoded == Some((image.width, image.height)) && image.seen.Recognized?
                && |SymbolsText(image.seen.symbols)| <= request.limits.pageOutputBytes
                && |SymbolsText(image.seen.symbols)| <= request.limits.outputBytes)
    ensures result.error == NoError && request.operation == ImageOcr ==>
              && image.Image? && image.seen.Recognized?
              && result == Result(NoError, 1, [Page(1, SymbolsText(image.seen.symbols), image.width, image.height)])
  {
    if !request.Accepted() {
      return Result(InvalidRequest, 0, []);
    }
    if request.operation == ImageOcr {
      result := ProcessImage(request, image);
      OnePageFits(request, image);
    } else {
      result := ProcessPdf(request, document);
      if document.Pdf? && Selected(request, document.pages) {
        SameChoice(request, document.pages);
        if result.error == NoError {
          IdealsArePages(request, document.pages);
        }
      }
    }
  }
}
