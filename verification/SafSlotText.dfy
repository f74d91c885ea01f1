/** The text of a record slot on Android: an envelope of a payload and its checksum, written
    as canonical JSON. A write that is cut short leaves a prefix of the text, and no proper
    prefix is read as a record; what follows a whole envelope is not looked at. */
module SafSlotText {
  import opened Decimals
  import opened RecordBytes
  import Store = SafSlotStore
  import opened Volumes

  /** What a payload holds under its keys, the texts in UTF-8. */
  datatype Atom = Null | Truth(truth: bool) | Number(value: int) | Quoted(text: Text)

  datatype Member = Member(key: Text, value: Atom)

  /** The members of a payload in the order of their keys. */
  type Payload = seq<Member>

  const QUOTE := 34
  const BACKSLASH := 92
  const NULL: Text := [110, 117, 108, 108]
  const TRUE: Text := [116, 114, 117, 101]
  const FALSE: Text := [102, 97, 108, 115, 101]

  /** `{"checksum":` */
  const OPENING: Text := [123, 34, 99, 104, 101, 99, 107, 115, 117, 109, 34, 58]

  /** `,"payload":` */
  const MIDDLE: Text := [44, 34, 112, 97, 121, 108, 111, 97, 100, 34, 58]

  // ---------------------------------------------------------------- writing

  function Hex(n: nat): Byte
    requires n < 16
  {
    if n < 10 then 48 + n else 87 + n
  }

  /** JSONObject.quote, one byte. */
  function Escape(b: Byte): (bytes: Text)
    ensures bytes != []
  {
    if b in {QUOTE, BACKSLASH, 47} then [BACKSLASH, b]
    else if b == 8 then [BACKSLASH, 98]
    else if b == 9 then [BACKSLASH, 116]
    else if b == 10 then [BACKSLASH, 110]
    else if b == 12 then [BACKSLASH, 102]
    else if b == 13 then [BACKSLASH, 114]
    else if b < 32 then [BACKSLASH, 117, 48, 48, Hex(b / 16), Hex(b % 16)]
    else [b]
  }

  /** A text from its second quote back to its first character. */
  function QuotedRest(text: Text): Text {
    if text == [] then [QUOTE] else Escape(text[0]) + QuotedRest(text[1..])
  }

  function Quote(text: Text): Text {
    [QUOTE] + QuotedRest(text)
  }

  function AtomText(atom: Atom): Text {
    match atom
    case Null => NULL
    case Truth(truth) => if truth then TRUE else FALSE
    case Number(value) => ToText(value)
    case Quoted(text) => Quote(text)
  }

  function MemberText(m: Member): Text {
    Quote(m.key) + ([58] + AtomText(m.value))
  }

  function RestText(payload: Payload): Text {
    if payload == [] then [125] else [44] + (MemberText(payload[0]) + RestText(payload[1..]))
  }

  function ObjectText(payload: Payload): Text {
    if payload == [] then [123, 125] else [123] + (MemberText(payload[0]) + RestText(payload[1..]))
  }

  function EnvelopeText(checksum: Text, payload: Payload): Text {
    OPENING + (Quote(checksum) + (MIDDLE + (ObjectText(payload) + [125])))
  }

  // ---------------------------------------------------------------- reading

  function TakeThis(bytes: Text, expected: Text): Option<Text> {
    if |expected| <= |bytes| && bytes[..|expected|] == expected then Some(bytes[|expected|..]) else None
  }

  function HexValue(b: Byte): Option<nat> {
    if 48 <= b <= 57 then Some(b - 48) else if 97 <= b <= 102 then Some(b - 87) else None
  }

  /** The byte a backslash and this byte stand for. */
  function Unescape(b: Byte): Byte {
    if b == 98 then 8 else if b == 116 then 9 else if b == 110 then 10 else if b == 102 then 12 else if b == 114 then 13
    else b
  }

  function TakeCode(bytes: Text): Parsed<Byte>
    requires |bytes| >= 6
  {
    var high, low := HexValue(bytes[4]), HexValue(bytes[5]);
    if bytes[2] != 48 || bytes[3] != 48 || high.None? || low.None? then Malformed
    else Parsed(high.value * 16 + low.value, bytes[6..])
  }

  function TakeCharacter(bytes: Text): (c: Parsed<Byte>)
    ensures c.Parsed? ==> |c.rest| < |bytes|
  {
    if bytes == [] then Malformed
    else if bytes[0] != BACKSLASH then Parsed(bytes[0], bytes[1..])
    else if |bytes| < 2 then Malformed
    else if bytes[1] != 117 then Parsed(Unescape(bytes[1]), bytes[2..])
    else if |bytes| < 6 then Malformed
    else TakeCode(bytes)
  }

  function TakeText(bytes: Text): (r: Parsed<Text>)
    ensures r.Parsed? ==> |r.rest| < |bytes|
    decreases |bytes|
  {
    if bytes == [] then Malformed
    else if bytes[0] == QUOTE then Parsed([], bytes[1..])
    else match TakeCharacter(bytes)
      case Malformed => Malformed
      case Parsed(first, rest) => Prepended(first, TakeText(rest))
  }

  function Prepended(first: Byte, others: Parsed<Text>): Parsed<Text> {
    match others
    case Malformed => Malformed
    case Parsed(text, rest) => Parsed([first] + text, rest)
  }

  function TakeQuoted(bytes: Text): (r: Parsed<Text>)
    ensures r.Parsed? ==> |r.rest| < |bytes|
  {
    if bytes == [] || bytes[0] != QUOTE then Malformed else TakeText(bytes[1..])
  }

  predicate IsNumeric(b: Byte) {
    b == 45 || IsDigit(b)
  }

  function Span(bytes: Text): (n: nat)
    ensures n <= |bytes|
  {
    if bytes == [] || !IsNumeric(bytes[0]) then 0 else 1 + Span(bytes[1..])
  }

  /** A number ends where something else begins. */
  function TakeInteger(bytes: Text): (r: Parsed<Atom>)
    ensures r.Parsed? ==> |r.rest| < |bytes|
  {
    var n := Span(bytes);
    if n == |bytes| then Malformed
    else match FromText(bytes[..n])
      case None => Malformed
      case Some(value) => Parsed(Number(value), bytes[n..])
  }

  function TakeWord(bytes: Text, word: Text, atom: Atom): (r: Parsed<Atom>)
    ensures r.Parsed? && word != [] ==> |r.rest| < |bytes|
  {
    match TakeThis(bytes, word)
    case None => Malformed
    case Some(rest) => Parsed(atom, rest)
  }

  function TakeAtom(bytes: Text): (r: Parsed<Atom>)
    ensures r.Parsed? ==> |r.rest| < |bytes|
  {
    if bytes == [] then Malformed
    else if bytes[0] == NULL[0] then TakeWord(bytes, NULL, Null)
    else if bytes[0] == TRUE[0] then TakeWord(bytes, TRUE, Truth(true))
    else if bytes[0] == FALSE[0] then TakeWord(bytes, FALSE, Truth(false))
    else if bytes[0] == QUOTE then
      match TakeQuoted(bytes)
      case Malformed => Malformed
      case Parsed(text, rest) => Parsed(Quoted(text), rest)
    else TakeInteger(bytes)
  }

  function TakeMember(bytes: Text): (r: Parsed<Member>)
    ensures r.Parsed? ==> |r.rest| < |bytes|
  {
    match TakeQuoted(bytes)
    case Malformed => Malformed
    case Parsed(key, rest) =>
      if rest == [] || rest[0] != 58 then Malformed
      else match TakeAtom(rest[1..])
        case Malformed => Malformed
        case Parsed(value, end) => Parsed(Member(key, value), end)
  }

  function TakeRest(bytes: Text): Parsed<Payload>
    decreases |bytes|
  {
    if bytes == [] then Malformed
    else if bytes[0] == 125 then Parsed([], bytes[1..])
    else if bytes[0] != 44 then Malformed
    else TakeMembers(bytes[1..])
  }

  /** At least one more member. */
  function TakeMembers(bytes: Text): Parsed<Payload>
    decreases |bytes|
  {
    match TakeMember(bytes)
    case Malformed => Malformed
    case Parsed(first, rest) =>
      match TakeRest(rest)
      case Malformed => Malformed
      case Parsed(others, end) => Parsed([first] + others, end)
  }

  function TakeObject(bytes: Text): Parsed<Payload> {
    if bytes == [] || bytes[0] != 123 then Malformed
    else if |bytes| > 1 && bytes[1] == 125 then Parsed([], bytes[2..])
    else TakeMembers(bytes[1..])
  }

  datatype Envelope = Envelope(checksum: Text, payload: Payload)

  function TakeClosing(checksum: Text, inner: Parsed<Payload>): Parsed<Envelope> {
    match inner
    case Malformed => Malformed
    case Parsed(payload, rest) =>
      match TakeThis(rest, [125])
      case None => Malformed
      case Some(end) => Parsed(Envelope(checksum, payload), end)
  }

  function TakePayload(checksum: Text, bytes: Text): Parsed<Envelope> {
    match TakeThis(bytes, MIDDLE)
    case None => Malformed
    case Some(rest) => TakeClosing(checksum, TakeObject(rest))
  }

  function TakeEnvelope(bytes: Text): Parsed<Envelope> {
    match TakeThis(bytes, OPENING)
    case None => Malformed
    case Some(rest) =>
      match TakeQuoted(rest)
      case Malformed => Malformed
      case Parsed(checksum, end) => TakePayload(checksum, end)
  }

  // ---------------------------------------------------------------- what is written is read

  lemma ThisTaken(expected: Text, tail: Text)
    ensures TakeThis(expected + tail, expected) == Some(tail)
  {
    assert (expected + tail)[..|expected|] == expected && (expected + tail)[|expected|..] == tail;
  }

  lemma HexTaken(n: nat)
    requires n < 16
    ensures HexValue(Hex(n)) == Some(n)
  {
  }

  lemma EscapeTaken(b: Byte, tail: Text)
    ensures TakeCharacter(Escape(b) + tail) == Parsed(b, tail)
    ensures (Escape(b) + tail)[0] != QUOTE
  {
    var bytes := Escape(b) + tail;
    assert bytes[|Escape(b)|..] == tail;
    if b < 32 && b !in {8, 9, 10, 12, 13} {
      HexTaken(b / 16);
      HexTaken(b % 16);
    }
  }

  lemma {:induction false} TextTaken(text: Text, tail: Text)
    ensures TakeText(QuotedRest(text) + tail) == Parsed(text, tail)
  {
    if text == [] {
      assert ([QUOTE] + tail)[1..] == tail;
    } else {
      Associate(Escape(text[0]), QuotedRest(text[1..]), tail);
      EscapeTaken(text[0], QuotedRest(text[1..]) + tail);
      TextTaken(text[1..], tail);
      assert TakeCharacter(QuotedRest(text) + tail) == Parsed(text[0], QuotedRest(text[1..]) + tail);
      assert [text[0]] + text[1..] == text;
    }
  }

  lemma QuotedTaken(text: Text, tail: Text)
    ensures TakeQuoted(Quote(text) + tail) == Parsed(text, tail)
  {
    assert (Quote(text) + tail)[1..] == QuotedRest(text) + tail;
    TextTaken(text, tail);
  }

  lemma {:induction false} SpanOf(numeric: Text, tail: Text)
    requires forall b <- numeric :: IsNumeric(b)
    requires tail != [] && !IsNumeric(tail[0])
    ensures Span(numeric + tail) == |numeric|
  {
    if numeric == [] {
      assert numeric + tail == tail;
    } else {
      assert (numeric + tail)[1..] == numeric[1..] + tail;
      SpanOf(numeric[1..], tail);
    }
  }

  lemma IntegerTaken(value: int, tail: Text)
    requires IsInt64(value) && tail != [] && !IsNumeric(tail[0])
    ensures TakeInteger(ToText(value) + tail) == Parsed(Number(value), tail)
  {
    var text := ToText(value);
    SpanOf(text, tail);
    assert (text + tail)[..|text|] == text && (text + tail)[|text|..] == tail;
    TextRoundTrip(value);
  }

  predicate Writable(payload: Payload) {
    forall i | 0 <= i < |payload| :: payload[i].value.Number? ==> IsInt64(payload[i].value.value)
  }

  lemma AtomTaken(atom: Atom, tail: Text)
    requires atom.Number? ==> IsInt64(atom.value)
    requires tail != [] && !IsNumeric(tail[0])
    ensures TakeAtom(AtomText(atom) + tail) == Parsed(atom, tail)
  {
    match atom
    case Null => ThisTaken(NULL, tail);
    case Truth(truth) => ThisTaken(if truth then TRUE else FALSE, tail);
    case Number(value) =>
      IntegerTaken(value, tail);
      assert IsNumeric((ToText(value) + tail)[0]);
    case Quoted(text) => QuotedTaken(text, tail);
  }

  lemma MemberTaken(m: Member, tail: Text)
    requires m.value.Number? ==> IsInt64(m.value.value)
    requires tail != [] && !IsNumeric(tail[0])
    ensures TakeMember(MemberText(m) + tail) == Parsed(m, tail)
  {
    Associate(Quote(m.key), [58] + AtomText(m.value), tail);
    Associate([58], AtomText(m.value), tail);
    QuotedTaken(m.key, [58] + (AtomText(m.value) + tail));
    assert ([58] + (AtomText(m.value) + tail))[1..] == AtomText(m.value) + tail;
    AtomTaken(m.value, tail);
  }

  lemma Following(b: Byte, bytes: Text)
    ensures ([b] + bytes)[1..] == bytes && ([b] + bytes)[0] == b
  {
  }

  lemma {:induction false} RestTaken(payload: Payload, tail: Text)
    requires Writable(payload)
    ensures TakeRest(RestText(payload) + tail) == Parsed(payload, tail)
    decreases |payload|
  {
    if payload == [] {
      assert ([125] + tail)[1..] == tail;
    } else {
      var members := MemberText(payload[0]) + RestText(payload[1..]);
      Associate([44], members, tail);
      Following(44, members + tail);
      MembersTaken(payload, tail);
    }
  }

  lemma {:induction false} MembersTaken(payload: Payload, tail: Text)
    requires payload != [] && Writable(payload)
    ensures TakeMembers(MemberText(payload[0]) + RestText(payload[1..]) + tail) == Parsed(payload, tail)
    decreases |payload|, 0
  {
    Associate(MemberText(payload[0]), RestText(payload[1..]), tail);
    MemberTaken(payload[0], RestText(payload[1..]) + tail);
    RestTaken(payload[1..], tail);
    assert [payload[0]] + payload[1..] == payload;
  }

  lemma ObjectTaken(payload: Payload, tail: Text)
    requires Writable(payload)
    ensures TakeObject(ObjectText(payload) + tail) == Parsed(payload, tail)
  {
    if payload == [] {
      assert ([123, 125] + tail)[2..] == tail;
    } else {
      var members := MemberText(payload[0]) + RestText(payload[1..]);
      Associate([123], members, tail);
      Following(123, members + tail);
      MembersTaken(payload, tail);
    }
  }

  /** A whole envelope is read back, whatever follows it. */
  lemma EnvelopeTaken(checksum: Text, payload: Payload, tail: Text)
    requires Writable(payload)
    ensures TakeEnvelope(EnvelopeText(checksum, payload) + tail) == Parsed(Envelope(checksum, payload), tail)
  {
    var d := ObjectText(payload) + [125];
    var c := MIDDLE + d;
    Associate(OPENING, Quote(checksum) + c, tail);
    Associate(Quote(checksum), c, tail);
    Associate(MIDDLE, d, tail);
    Associate(ObjectText(payload), [125], tail);
    ThisTaken(OPENING, Quote(checksum) + (c + tail));
    QuotedTaken(checksum, c + tail);
    ThisTaken(MIDDLE, d + tail);
    ObjectTaken(payload, [125] + tail);
    ThisTaken([125], tail);
  }

  // ---------------------------------------------------------------- what is read stays read

  lemma ThisStable(bytes: Text, expected: Text, t: Text)
    requires TakeThis(bytes, expected).Some?
    ensures TakeThis(bytes + t, expected) == Some(TakeThis(bytes, expected).value + t)
  {
    assert (bytes + t)[..|expected|] == bytes[..|expected|];
    assert (bytes + t)[|expected|..] == bytes[|expected|..] + t;
  }

  lemma CharacterStable(bytes: Text, t: Text)
    requires TakeCharacter(bytes).Parsed?
    ensures TakeCharacter(bytes + t) == Parsed(TakeCharacter(bytes).value, TakeCharacter(bytes).rest + t)
  {
    var n := |bytes| - |TakeCharacter(bytes).rest|;
    assert (bytes + t)[n..] == bytes[n..] + t;
  }

  lemma {:induction false} TextStable(bytes: Text, t: Text)
    requires TakeText(bytes).Parsed?
    ensures TakeText(bytes + t) == Parsed(TakeText(bytes).value, TakeText(bytes).rest + t)
    decreases |bytes|
  {
    if bytes[0] == QUOTE {
      assert (bytes + t)[1..] == bytes[1..] + t;
    } else {
      CharacterStable(bytes, t);
      TextStable(TakeCharacter(bytes).rest, t);
    }
  }

  lemma QuotedStable(bytes: Text, t: Text)
    requires TakeQuoted(bytes).Parsed?
    ensures TakeQuoted(bytes + t) == Parsed(TakeQuoted(bytes).value, TakeQuoted(bytes).rest + t)
  {
    assert (bytes + t)[1..] == bytes[1..] + t;
    TextStable(bytes[1..], t);
  }

  lemma {:induction false} SpanStable(bytes: Text, t: Text)
    requires Span(bytes) < |bytes|
    ensures Span(bytes + t) == Span(bytes)
  {
    assert (bytes + t)[1..] == bytes[1..] + t;
    if IsNumeric(bytes[0]) {
      SpanStable(bytes[1..], t);
    }
  }

  lemma IntegerStable(bytes: Text, t: Text)
    requires TakeInteger(bytes).Parsed?
    ensures TakeInteger(bytes + t) == Parsed(TakeInteger(bytes).value, TakeInteger(bytes).rest + t)
  {
    var n := Span(bytes);
    SpanStable(bytes, t);
    assert (bytes + t)[..n] == bytes[..n] && (bytes + t)[n..] == bytes[n..] + t;
  }

  lemma AtomStable(bytes: Text, t: Text)
    requires TakeAtom(bytes).Parsed?
    ensures TakeAtom(bytes + t) == Parsed(TakeAtom(bytes).value, TakeAtom(bytes).rest + t)
  {
    if bytes[0] in {NULL[0], TRUE[0], FALSE[0]} {
      ThisStable(bytes, if bytes[0] == NULL[0] then NULL else if bytes[0] == TRUE[0] then TRUE else FALSE, t);
    } else if bytes[0] == QUOTE {
      QuotedStable(bytes, t);
    } else {
      IntegerStable(bytes, t);
    }
  }

  lemma MemberStable(bytes: Text, t: Text)
    requires TakeMember(bytes).Parsed?
    ensures TakeMember(bytes + t) == Parsed(TakeMember(bytes).value, TakeMember(bytes).rest + t)
  {
    QuotedStable(bytes, t);
    var rest := TakeQuoted(bytes).rest;
    assert (rest + t)[1..] == rest[1..] + t;
    AtomStable(rest[1..], t);
  }

  lemma {:induction false} RestStable(bytes: Text, t: Text)
    requires TakeRest(bytes).Parsed?
    ensures TakeRest(bytes + t) == Parsed(TakeRest(bytes).value, TakeRest(bytes).rest + t)
    decreases |bytes|
  {
    assert (bytes + t)[1..] == bytes[1..] + t;
    if bytes[0] != 125 {
      MembersStable(bytes[1..], t);
    }
  }

  lemma {:induction false} MembersStable(bytes: Text, t: Text)
    requires TakeMembers(bytes).Parsed?
    ensures TakeMembers(bytes + t) == Parsed(TakeMembers(bytes).value, TakeMembers(bytes).rest + t)
    decreases |bytes|
  {
    MemberStable(bytes, t);
    RestStable(TakeMember(bytes).rest, t);
  }

  lemma ObjectStable(bytes: Text, t: Text)
    requires TakeObject(bytes).Parsed?
    ensures TakeObject(bytes + t) == Parsed(TakeObject(bytes).value, TakeObject(bytes).rest + t)
  {
    if |bytes| > 1 && bytes[1] == 125 {
      assert (bytes + t)[2..] == bytes[2..] + t;
    } else {
      assert (bytes + t)[1..] == bytes[1..] + t;
      MembersStable(bytes[1..], t);
      assert |bytes| > 1;
    }
  }

  lemma EnvelopeStable(bytes: Text, t: Text)
    requires TakeEnvelope(bytes).Parsed?
    ensures TakeEnvelope(bytes + t) == Parsed(TakeEnvelope(bytes).value, TakeEnvelope(bytes).rest + t)
  {
    ThisStable(bytes, OPENING, t);
    var afterOpening := TakeThis(bytes, OPENING).value;
    QuotedStable(afterOpening, t);
    var afterChecksum := TakeQuoted(afterOpening).rest;
    ThisStable(afterChecksum, MIDDLE, t);
    var afterMiddle := TakeThis(afterChecksum, MIDDLE).value;
    ObjectStable(afterMiddle, t);
    ThisStable(TakeObject(afterMiddle).rest, [125], t);
  }

  lemma RestOfLonger(text: Text, n: nat)
    requires n <= |text| && TakeEnvelope(text[..n]).Parsed?
    ensures TakeEnvelope(text).Parsed? && |TakeEnvelope(text).rest| >= |text| - n
  {
    var start, end := text[..n], text[n..];
    assert start + end == text;
    EnvelopeStable(start, end);
  }

  /** Of a text that is exactly one envelope, no proper prefix is read as one. */
  lemma NoPrefixIsRead(text: Text, n: nat)
    requires TakeEnvelope(text).Parsed? && TakeEnvelope(text).rest == [] && n < |text|
    ensures TakeEnvelope(text[..n]).Malformed?
  {
    if TakeEnvelope(text[..n]).Parsed? {
      RestOfLonger(text, n);
    }
  }

  // ---------------------------------------------------------------- records

  /** The value under a key. */
  function Lookup(payload: Payload, key: Text): Option<Atom> {
    if payload == [] then None else if payload[0].key == key then Some(payload[0].value) else Lookup(payload[1..], key)
  }

  /** `schema` and `generation` */
  const SCHEMA: Text := [115, 99, 104, 101, 109, 97]
  const GENERATION: Text := [103, 101, 110, 101, 114, 97, 116, 105, 111, 110]

  /** What persist puts into every payload. */
  predicate Stamped(payload: Payload, generation: nat) {
    && generation >= 1 && Writable(payload)
    && Lookup(payload, SCHEMA) == Some(Number(2)) && Lookup(payload, GENERATION) == Some(Number(generation))
  }

  /** What the store sees in a document: `parse` refuses whatever is no envelope, has another
      schema, or does not have the checksum of its own payload. */
  function SlotOf(bytes: Text, hash: Text -> Text): Store.Slot<Payload> {
    match TakeEnvelope(bytes)
    case Malformed => Store.Torn
    case Parsed(envelope, _) =>
      var generation := Lookup(envelope.payload, GENERATION);
      if || envelope.checksum != hash(ObjectText(envelope.payload))
         || Lookup(envelope.payload, SCHEMA) != Some(Number(2))
         || generation.None? || !generation.value.Number? || generation.value.value < 1
      then Store.Torn
      else Store.Whole(generation.value.value, envelope.payload)
  }

  /** What persist writes. */
  function SlotText(payload: Payload, hash: Text -> Text): Text {
    EnvelopeText(hash(ObjectText(payload)), payload)
  }

  /** A slot that was written whole holds the record. */
  lemma WholeIsWhole(payload: Payload, generation: nat, hash: Text -> Text)
    requires Stamped(payload, generation)
    ensures SlotOf(SlotText(payload, hash), hash) == Store.Whole(generation, payload)
  {
    EnvelopeTaken(hash(ObjectText(payload)), payload, []);
    assert SlotText(payload, hash) + [] == SlotText(payload, hash);
  }

  /** An envelope that was written whole is a record exactly when it has the checksum of its
      own payload, the schema and a generation; otherwise it is as good as torn. */
  lemma RecordExactlyWhen(checksum: Text, payload: Payload, tail: Text, hash: Text -> Text)
    requires Writable(payload)
    ensures var slot := SlotOf(EnvelopeText(checksum, payload) + tail, hash);
            && (slot.Whole? <==>
                  && checksum == hash(ObjectText(payload))
                  && Lookup(payload, SCHEMA) == Some(Number(2))
                  && exists generation :: generation >= 1 && Lookup(payload, GENERATION) == Some(Number(generation)))
            && (slot.Whole? ==>
                  slot.payload == payload && Lookup(payload, GENERATION) == Some(Number(slot.generation)))
            && (!slot.Whole? ==> slot == Store.Torn)
  {
    EnvelopeTaken(checksum, payload, tail);
    var generation := Lookup(payload, GENERATION);
    assert generation.Some? && generation.value.Number? ==> generation == Some(Number(generation.value.value));
  }

  /** A slot whose write was cut short anywhere, after truncating it included, is torn. */
  lemma CutIsTorn(payload: Payload, n: nat, hash: Text -> Text)
    requires Writable(payload) && n < |SlotText(payload, hash)|
    ensures SlotOf(SlotText(payload, hash)[..n], hash) == Store.Torn
  {
    var text := SlotText(payload, hash);
    EnvelopeTaken(hash(ObjectText(payload)), payload, []);
    assert text + [] == text;
    NoPrefixIsRead(text, n);
  }

  /** The slots after the first `n` bytes of the next record have been written. */
  function AfterBytes(s: Store.Slots<Payload>, payload: Payload, n: nat, hash: Text -> Text): Store.Slots<Payload>
    requires n <= |SlotText(payload, hash)|
  {
    Store.Put(s, Store.NextSlot(Store.LoadOf(s)), SlotOf(SlotText(payload, hash)[..n], hash))
  }

  /** Persist is atomic to the byte: wherever the write of the next record is cut, the record
      before it is loaded, and the next one as soon as all bytes are there. */
  lemma PersistIsAtomic(s: Store.Slots<Payload>, payload: Payload, n: nat, hash: Text -> Text)
    requires Store.Distinct(s) && Stamped(payload, Store.NextGeneration(Store.LoadOf(s)))
    requires n <= |SlotText(payload, hash)|
    ensures Store.LoadOf(AfterBytes(s, payload, n, hash)) ==
              if n < |SlotText(payload, hash)| then Store.LoadOf(s) else Some(Store.NewRecord(s, payload))
  {
    if n < |SlotText(payload, hash)| {
      CutIsTorn(payload, n, hash);
      Store.TornWriteIsInvisible(s);
    } else {
      assert SlotText(payload, hash)[..n] == SlotText(payload, hash);
      WholeIsWhole(payload, Store.NextGeneration(Store.LoadOf(s)), hash);
      Store.WholeWriteIsLoaded(s, payload);
    }
  }

  /** Two payloads with the same text are the same. */
  lemma TextIsFaithful(a: Payload, b: Payload)
    requires Writable(a) && Writable(b) && ObjectText(a) == ObjectText(b)
    ensures a == b
  {
    ObjectTaken(a, []);
    ObjectTaken(b, []);
  }
}
