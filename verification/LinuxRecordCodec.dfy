/** The record file of the Linux runner: six numbers and thirteen strings. */
module LinuxRecordCodec {
  import opened Records
  import opened RecordBytes
  import opened Volumes

  const MAGIC := 0x3253574d
  const VERSION := 1
  const MAX_STATE_BYTES := 65536
  const STRINGS := 13

  datatype OperationState = OperationState(
    phase: Phase,
    hasDestination: bool,
    expectMissing: bool,
    targetDirectory: bool,
    resultSize: nat,
    token: Text,
    rootIdentity: Text,
    sessionIdentity: Text,
    sessionKey: Text,
    operation: Text,
    path: Text,
    destination: Text,
    expectedIdentity: Text,
    expectedHash: Text,
    stageIdentity: Text,
    stageHash: Text,
    backupIdentity: Text,
    backupHash: Text)
  {
    /** The strings in the order of the file. */
    function Strings(): (texts: seq<Text>)
      ensures |texts| == STRINGS && texts[0] == token
    {
      [token, rootIdentity, sessionIdentity, sessionKey, operation, path, destination, expectedIdentity,
       expectedHash, stageIdentity, stageHash, backupIdentity, backupHash]
    }

    function WithStrings(texts: seq<Text>): OperationState
      requires |texts| == STRINGS
    {
      this.(token := texts[0], rootIdentity := texts[1], sessionIdentity := texts[2], sessionKey := texts[3],
            operation := texts[4], path := texts[5], destination := texts[6], expectedIdentity := texts[7],
            expectedHash := texts[8], stageIdentity := texts[9], stageHash := texts[10],
            backupIdentity := texts[11], backupHash := texts[12])
    }

    function Flags(): nat {
      (if hasDestination then 1 else 0) + (if expectMissing then 2 else 0) + (if targetDirectory then 4 else 0)
    }

    /** `result_size` is a 64-bit field. */
    predicate Typed() {
      resultSize < 0x1_0000_0000_0000_0000
    }

    /** What the record can hold. */
    predicate Storable() {
      Typed() && Short(Strings())
    }
  }

  // ---------------------------------------------------------------- the format

  /** The numbers, and what follows them. */
  function Headed(s: OperationState, tail: Text): (bytes: Text)
    ensures |bytes| == 24 + |tail|
  {
    Little(MAGIC, 4) + (Little(VERSION, 4) + (Little(PhaseNumber(s.phase), 4) + (Little(s.Flags(), 4)
    + (Little(s.resultSize, 8) + tail))))
  }

  function Encoded(s: OperationState): Text {
    Headed(s, StringsBytes(s.Strings()))
  }

  /** The five numbers; the strings of the result are still empty. */
  function TakeHeader(bytes: Text): Parsed<OperationState> {
    var magic := TakeNumber(bytes, 4);
    if magic.Malformed? || magic.value != MAGIC then Malformed else
    var version := TakeNumber(magic.rest, 4);
    if version.Malformed? || version.value != VERSION then Malformed else
    var phase := TakeNumber(version.rest, 4);
    if phase.Malformed? || phase.value < 1 || phase.value > 6 then Malformed else
    var flags := TakeNumber(phase.rest, 4);
    if flags.Malformed? || flags.value > 7 then Malformed else
    var size := TakeNumber(flags.rest, 8);
    if size.Malformed? then Malformed else
    Parsed(Numbers(phase.value, flags.value, size.value), size.rest)
  }

  function Numbers(phase: nat, flags: nat, size: nat): OperationState
    requires 1 <= phase <= 6 && flags <= 7
  {
    OperationState(PhaseOf(phase), flags % 2 == 1, flags / 2 % 2 == 1, flags / 4 % 2 == 1, size,
                   [], [], [], [], [], [], [], [], [], [], [], [], [])
  }

  function Decoded(bytes: Text): Option<OperationState> {
    match TakeHeader(bytes)
    case Malformed => None
    case Parsed(numbers, rest) =>
      match TakeStrings(rest, STRINGS)
      case Malformed => None
      case Parsed(texts, end) => if end == [] && |texts| == STRINGS then Some(numbers.WithStrings(texts)) else None
  }

  // ---------------------------------------------------------------- round trips

  lemma Reassembled(s: OperationState)
    ensures Numbers(PhaseNumber(s.phase), s.Flags(), s.resultSize).WithStrings(s.Strings()) == s
  {
  }

  lemma TakeWrittenHeader(s: OperationState, tail: Text)
    requires s.Typed()
    ensures TakeHeader(Headed(s, tail)) == Parsed(Numbers(PhaseNumber(s.phase), s.Flags(), s.resultSize), tail)
  {
    FourBytes();
    var e := Little(s.resultSize, 8) + tail;
    var d := Little(s.Flags(), 4) + e;
    var c := Little(PhaseNumber(s.phase), 4) + d;
    var b := Little(VERSION, 4) + c;
    TakeWrittenNumber(MAGIC, 4, b);
    TakeWrittenNumber(VERSION, 4, c);
    TakeWrittenNumber(PhaseNumber(s.phase), 4, d);
    TakeWrittenNumber(s.Flags(), 4, e);
    TakeWrittenNumber(s.resultSize, 8, tail);
  }

  lemma WrittenHeaderTaken(bytes: Text)
    requires TakeHeader(bytes).Parsed?
    ensures var p := TakeHeader(bytes); p.value.Typed() && bytes == Headed(p.value, p.rest)
  {
    FourBytes();
    WrittenNumberTaken(bytes, 4);
    var b := TakeNumber(bytes, 4).rest;
    WrittenNumberTaken(b, 4);
    var c := TakeNumber(b, 4).rest;
    WrittenNumberTaken(c, 4);
    var d := TakeNumber(c, 4).rest;
    WrittenNumberTaken(d, 4);
    var e := TakeNumber(d, 4).rest;
    WrittenNumberTaken(e, 8);
    NumbersKept(TakeNumber(c, 4).value, TakeNumber(d, 4).value, TakeNumber(e, 8).value);
  }

  lemma NumbersKept(phase: nat, flags: nat, size: nat)
    requires 1 <= phase <= 6 && flags <= 7
    ensures var s := Numbers(phase, flags, size);
            PhaseNumber(s.phase) == phase && s.Flags() == flags && s.resultSize == size
  {
  }

  /** The format is a bijection between the states it can hold and the files it accepts: a
      file decodes to a state exactly when it is that state's encoding. */
  lemma DecodedExactlyWhenEncoded(bytes: Text, s: OperationState)
    ensures Decoded(bytes) == Some(s) <==> s.Storable() && bytes == Encoded(s)
    ensures s.Storable() <==>
              && s.resultSize < 0x1_0000_0000_0000_0000
              && forall text <- [s.token, s.rootIdentity, s.sessionIdentity, s.sessionKey, s.operation, s.path,
                                 s.destination, s.expectedIdentity, s.expectedHash, s.stageIdentity, s.stageHash,
                                 s.backupIdentity, s.backupHash] :: |text| <= 4096
  {
    if s.Storable() && bytes == Encoded(s) {
      EncodedIsDecoded(s);
    }
    if Decoded(bytes) == Some(s) {
      DecodedIsEncoded(bytes, s);
    }
  }

  lemma FirstNumbers(s: OperationState)
    ensures var file := Encoded(s);
            && |file| >= 24 && file[0..4] == Little(MAGIC, 4) && file[4..8] == Little(VERSION, 4)
            && file[8..12] == Little(PhaseNumber(s.phase), 4) && file[12..16] == Little(s.Flags(), 4)
  {
    var tail := Little(s.Flags(), 4) + (Little(s.resultSize, 8) + StringsBytes(s.Strings()));
    ThreeFours(Little(MAGIC, 4), Little(VERSION, 4), Little(PhaseNumber(s.phase), 4), tail);
    var flags := Little(s.Flags(), 4);
    assert tail[..4] == flags;
    assert Encoded(s)[12..][..4] == Encoded(s)[12..16];
  }

  /** How a record file begins: `MWS2`, the version, the phase and the flags. */
  lemma HeaderLayout(s: OperationState)
    ensures var file := Encoded(s);
            && |file| >= 24
            && file[0] == 'M' as int && file[1] == 'W' as int && file[2] == 'S' as int && file[3] == '2' as int
            && file[4] == 1 && file[5] == 0 && file[6] == 0 && file[7] == 0
            && file[8] == (match s.phase
                           case Prepared => 1 case TargetQuarantining => 2 case TargetQuarantined => 3
                           case StageInstalling => 4 case Committed => 5 case RolledBack => 6)
            && file[12] == (if s.hasDestination then 1 else 0) + (if s.expectMissing then 2 else 0)
                           + (if s.targetDirectory then 4 else 0)
  {
    FirstNumbers(s);
    NumberInFile(Encoded(s), 0, MAGIC);
    SmallInFile(Encoded(s), 4, VERSION);
    SmallInFile(Encoded(s), 8, PhaseNumber(s.phase));
    SmallInFile(Encoded(s), 12, s.Flags());
  }

  lemma EncodedIsDecoded(s: OperationState)
    requires s.Storable()
    ensures Decoded(Encoded(s)) == Some(s)
  {
    var strings := StringsBytes(s.Strings());
    TakeWrittenHeader(s, strings);
    TakeWrittenStrings(s.Strings(), []);
    assert strings + [] == strings;
    Reassembled(s);
  }

  lemma DecodedIsEncoded(bytes: Text, s: OperationState)
    requires Decoded(bytes) == Some(s)
    ensures s.Storable() && bytes == Encoded(s)
  {
    WrittenHeaderTaken(bytes);
    var header := TakeHeader(bytes);
    WrittenStringsTaken(header.rest, STRINGS);
    var texts := TakeStrings(header.rest, STRINGS).value;
    KeepsNumbers(header.value, texts, header.rest);
    assert StringsBytes(texts) + [] == StringsBytes(texts);
  }

  lemma KeepsNumbers(s: OperationState, texts: seq<Text>, tail: Text)
    requires |texts| == STRINGS
    ensures s.WithStrings(texts).Strings() == texts
    ensures Headed(s.WithStrings(texts), tail) == Headed(s, tail)
    ensures s.WithStrings(texts).Typed() == s.Typed()
  {
  }

  /** No state is too long for the file: the check against 64 KiB never fires. */
  lemma EncodingFits(s: OperationState)
    requires s.Storable()
    ensures |Encoded(s)| <= 53324 < MAX_STATE_BYTES
  {
    StringsFit(s.Strings(), MAX_STRING_BYTES);
  }

  // ---------------------------------------------------------------- the runner's own loops

  lemma TailFollows(s: OperationState, tail: Text)
    ensures Headed(s, []) + tail == Headed(s, tail)
  {
    var e, d := Little(s.resultSize, 8), Little(s.Flags(), 4);
    var c, b := Little(PhaseNumber(s.phase), 4), Little(VERSION, 4);
    assert e + [] == e;
    Associate(Little(MAGIC, 4), b + (c + (d + e)), tail);
    Associate(b, c + (d + e), tail);
    Associate(c, d + e, tail);
    Associate(d, e, tail);
  }

  method WriteHeader(out: Output, state: OperationState)
    requires out.bytes == []
    modifies out
    ensures out.bytes == Headed(state, [])
  {
    out.AppendNumber(MAGIC, 4);
    out.AppendNumber(VERSION, 4);
    out.AppendNumber(PhaseNumber(state.phase), 4);
    out.AppendNumber(state.Flags(), 4);
    out.AppendNumber(state.resultSize, 8);
    FiveInARow(Little(MAGIC, 4), Little(VERSION, 4), Little(PhaseNumber(state.phase), 4), Little(state.Flags(), 4),
               Little(state.resultSize, 8));
  }

  lemma FiveInARow(a: Text, b: Text, c: Text, d: Text, e: Text)
    ensures (((([] + a) + b) + c) + d) + e == a + (b + (c + (d + (e + []))))
  {
    assert [] + a == a && e + [] == e;
    Associate(a + b + c, d, e);
    Associate(a + b, c, d + e);
    Associate(a, b, c + (d + e));
  }

  /** SaveOperationState up to the file: it refuses a state for an overlong string only. */
  method Serialize(state: OperationState) returns (file: Option<Text>)
    requires state.Typed()
    ensures file == if state.Storable() then Some(Encoded(state)) else None
  {
    var out := new Output();
    WriteHeader(out, state);
    var texts := state.Strings();
    var short := WriteStrings(out, texts);
    if !short {
      return None;
    }
    TailFollows(state, StringsBytes(texts));
    EncodingFits(state);
    if |out.bytes| > MAX_STATE_BYTES {
      return None;
    }
    file := Some(out.bytes);
  }

  method WriteStrings(out: Output, texts: seq<Text>) returns (short: bool)
    modifies out
    ensures short == Short(texts)
    ensures short ==> out.bytes == old(out.bytes) + StringsBytes(texts)
  {
    var i := 0;
    assert texts[..i] == [];
    while i < |texts|
      invariant 0 <= i <= |texts| && Short(texts[..i])
      invariant out.bytes == old(out.bytes) + StringsBytes(texts[..i])
    {
      if |texts[i]| > MAX_STRING_BYTES {
        return false;
      }
      out.AppendString(texts[i]);
      AppendedString(texts[..i], texts[i]);
      assert texts[..i + 1] == texts[..i] + [texts[i]];
      i := i + 1;
    }
    assert texts[..i] == texts;
    short := true;
  }

  /** LoadOperationState from the file on: it succeeds exactly for the encoding of a state
      that carries the caller's token. */
  method Deserialize(bytes: Text, token: Text) returns (state: Option<OperationState>)
    ensures state == (if Decoded(bytes).Some? && Decoded(bytes).value.token == token then Decoded(bytes) else None)
    ensures state.Some? ==> state.value.Storable() && bytes == Encoded(state.value) && state.value.token == token
  {
    AcceptedIsSmall(bytes);
    if |bytes| > MAX_STATE_BYTES {
      return None;
    }
    var input := new Input(bytes);
    assert input.Rest() == bytes;
    var numbers := ReadHeader(input);
    if numbers.None? {
      return None;
    }
    var texts := input.ReadStrings(STRINGS);
    if texts.None? || input.at != |input.bytes| || texts.value[0] != token {
      return None;
    }
    state := Some(numbers.value.WithStrings(texts.value));
  }

  lemma AcceptedIsSmall(bytes: Text)
    ensures Decoded(bytes).Some? ==> |bytes| <= MAX_STATE_BYTES && Decoded(bytes).value.Storable()
    ensures Decoded(bytes).Some? ==> bytes == Encoded(Decoded(bytes).value)
  {
    if Decoded(bytes).Some? {
      DecodedIsEncoded(bytes, Decoded(bytes).value);
      EncodingFits(Decoded(bytes).value);
    }
  }

  method ReadHeader(input: Input) returns (numbers: Option<OperationState>)
    requires input.Valid()
    modifies input
    ensures input.Valid()
    ensures var p := TakeHeader(old(input.Rest()));
            if p.Parsed? then numbers == Some(p.value) && input.Rest() == p.rest else numbers == None
  {
    var magic := input.ReadNumber(4);
    if magic != Some(MAGIC) {
      return None;
    }
    var version := input.ReadNumber(4);
    if version != Some(VERSION) {
      return None;
    }
    var phase := input.ReadNumber(4);
    if phase.None? || phase.value < 1 || phase.value > 6 {
      return None;
    }
    var flags := input.ReadNumber(4);
    if flags.None? || flags.value > 7 {
      return None;
    }
    var size := input.ReadNumber(8);
    if size.None? {
      return None;
    }
    numbers := Some(Numbers(phase.value, flags.value, size.value));
  }
}
