/** The record file of the Windows runner: the phase, seven strings and a map of tagged
    proof values. Writing checks only the total size; reading checks every part. */
module WindowsRecordCodec {
  import opened Decimals
  import opened RecordBytes
  import opened Records
  import opened Volumes

  const MAGIC := 0x3153574d
  const VERSION := 2
  const MAX_STATE_BYTES := 65536
  const MAX_PROOFS := 32
  const STRINGS := 7

  /** A channel value; the codec knows four kinds of it. */
  datatype Value = Null | Str(text: Text) | Bool(truth: bool) | Int64(number: int) | OtherValue

  type Proofs = map<Value, Value>

  datatype OperationState = OperationState(
    phase: Phase,
    token: Text,
    rootIdentity: Text,
    sessionIdentity: Text,
    sessionKey: Text,
    operation: Text,
    path: Text,
    destination: Text,
    hasDestination: bool,
    proof: Proofs)
  {
    function Strings(): (texts: seq<Text>)
      ensures |texts| == STRINGS && texts[0] == token
    {
      [token, rootIdentity, sessionIdentity, sessionKey, operation, path, destination]
    }

    /** Integers are 64 bits wide. */
    predicate Typed() {
      forall k <- proof :: proof[k].Int64? ==> IsInt64(proof[k].number)
    }

    /** What SaveOperationState can write: text keys and the four kinds of values. */
    predicate Writable() {
      forall k <- proof :: k.Str? && !proof[k].OtherValue?
    }

    /** What LoadOperationState accepts. */
    predicate Readable() {
      && Short(Strings()) && |proof| <= MAX_PROOFS
      && forall k <- proof :: k.Str? ==> ReadableEntry(k.text, proof[k])
    }
  }

  predicate ReadableEntry(key: Text, value: Value) {
    |key| <= MAX_STRING_BYTES && (value.Str? ==> |value.text| <= MAX_STRING_BYTES)
  }

  /** An order in which the map can be listed; std::map has one of these. */
  predicate Lists(order: seq<Value>, proof: Proofs) {
    |order| == |proof| && (forall k <- order :: k in proof) && (forall k <- proof :: k in order)
  }

  // ---------------------------------------------------------------- the format

  function ValueBytes(value: Value): Text
    requires !value.OtherValue?
  {
    match value
    case Null => [0]
    case Str(text) => [1] + StringBytes(text)
    case Bool(truth) => [2, if truth then 1 else 0]
    case Int64(number) => [3] + StringBytes(ToText(number))
  }

  predicate Written(order: seq<Value>, proof: Proofs) {
    forall k <- order :: k.Str? && k in proof && !proof[k].OtherValue?
  }

  function EntriesBytes(order: seq<Value>, proof: Proofs): (bytes: Text)
    requires Written(order, proof)
    ensures |order| <= |bytes|
  {
    if order == [] then []
    else EntryBytes(order[0].text, proof[order[0]]) + EntriesBytes(order[1..], proof)
  }

  function EntryBytes(key: Text, value: Value): (bytes: Text)
    requires !value.OtherValue?
    ensures |bytes| >= 1
  {
    StringBytes(key) + ValueBytes(value)
  }

  /** The phase and what surrounds it, and what follows. */
  function Headed(phase: Phase, tail: Text): Text {
    Little(MAGIC, 4) + (Little(VERSION, 4) + (Little(PhaseNumber(phase), 4) + tail))
  }

  function Counted(s: OperationState, tail: Text): Text {
    [if s.hasDestination then 1 else 0] + (Little(|s.proof|, 4) + tail)
  }

  function Encoded(s: OperationState, order: seq<Value>): Text
    requires s.Writable() && Lists(order, s.proof)
  {
    Headed(s.phase, StringsBytes(s.Strings()) + Counted(s, EntriesBytes(order, s.proof)))
  }

  function TakeHeader(bytes: Text): Parsed<Phase> {
    var magic := TakeNumber(bytes, 4);
    if magic.Malformed? || magic.value != MAGIC then Malformed else
    var version := TakeNumber(magic.rest, 4);
    if version.Malformed? || version.value != VERSION then Malformed else
    var phase := TakeNumber(version.rest, 4);
    if phase.Malformed? || phase.value < 1 || phase.value > 6 then Malformed else
    Parsed(PhaseOf(phase.value), phase.rest)
  }

  function TakeText(bytes: Text): Parsed<Value> {
    match TakeString(bytes)
    case Malformed => Malformed
    case Parsed(text, rest) => Parsed(Str(text), rest)
  }

  function TakeInteger(bytes: Text): Parsed<Value> {
    match TakeString(bytes)
    case Malformed => Malformed
    case Parsed(text, rest) =>
      var n := FromText(text);
      if n.None? then Malformed else Parsed(Int64(n.value), rest)
  }

  function TakeValue(bytes: Text): Parsed<Value> {
    if bytes == [] then Malformed else
    var rest := bytes[1..];
    match bytes[0]
    case 0 => Parsed(Null, rest)
    case 1 => TakeText(rest)
    case 2 => if rest == [] then Malformed else Parsed(Bool(rest[0] != 0), rest[1..])
    case 3 => TakeInteger(rest)
    case _ => Malformed
  }

  datatype Entry = Entry(key: Text, value: Value)

  function TakeEntry(bytes: Text): Parsed<Entry> {
    var key := TakeString(bytes);
    if key.Malformed? then Malformed else
    var value := TakeValue(key.rest);
    if value.Malformed? then Malformed else
    Parsed(Entry(key.value, value.value), value.rest)
  }

  /** A later entry replaces an earlier one of the same key. */
  function TakeEntries(bytes: Text, count: nat, proof: Proofs): Parsed<Proofs> {
    if count == 0 then Parsed(proof, bytes) else
    match TakeEntry(bytes)
    case Malformed => Malformed
    case Parsed(entry, rest) => TakeEntries(rest, count - 1, proof[Str(entry.key) := entry.value])
  }

  datatype Ending = Ending(hasDestination: bool, proof: Proofs)

  function TakeEnding(bytes: Text): Option<Ending> {
    if bytes == [] then None else
    var count := TakeNumber(bytes[1..], 4);
    if count.Malformed? || count.value > MAX_PROOFS then None else
    var proof := TakeEntries(count.rest, count.value, map[]);
    if proof.Malformed? || proof.rest != [] then None else
    Some(Ending(bytes[0] == 1, proof.value))
  }

  function Decoded(bytes: Text): Option<OperationState> {
    match TakeHeader(bytes)
    case Malformed => None
    case Parsed(phase, rest) =>
      match TakeStrings(rest, STRINGS)
      case Malformed => None
      case Parsed(texts, rest) =>
        var ending := TakeEnding(rest);
        if |texts| != STRINGS || ending.None? then None
        else Some(Assembled(phase, texts, ending.value))
  }

  function Assembled(phase: Phase, texts: seq<Text>, ending: Ending): OperationState
    requires |texts| == STRINGS
  {
    OperationState(phase, texts[0], texts[1], texts[2], texts[3], texts[4], texts[5], texts[6],
                   ending.hasDestination, ending.proof)
  }

  // ---------------------------------------------------------------- round trip

  lemma Tagged(tag: Byte, body: Text, tail: Text)
    ensures var bytes := ([tag] + body) + tail; bytes != [] && bytes[0] == tag && bytes[1..] == body + tail
  {
  }

  lemma TakeWrittenText(text: Text, tail: Text)
    requires |text| < 0x1_0000_0000
    ensures TakeValue(ValueBytes(Str(text)) + tail) ==
              if |text| > MAX_STRING_BYTES then Malformed else Parsed(Str(text), tail)
  {
    Tagged(1, StringBytes(text), tail);
    TakeWrittenString(text, tail);
  }

  lemma TakeWrittenInteger(number: int, tail: Text)
    requires IsInt64(number)
    ensures TakeValue(ValueBytes(Int64(number)) + tail) == Parsed(Int64(number), tail)
  {
    Tagged(3, StringBytes(ToText(number)), tail);
    TextIsShort(number);
    TakeWrittenString(ToText(number), tail);
    TextRoundTrip(number);
  }

  lemma TakeWrittenBool(truth: bool, tail: Text)
    ensures TakeValue(ValueBytes(Bool(truth)) + tail) == Parsed(Bool(truth), tail)
  {
    var bytes := ValueBytes(Bool(truth)) + tail;
    assert bytes[0] == 2 && bytes[1] == if truth then 1 else 0;
    assert bytes[1..][1..] == tail;
  }

  lemma TakeWrittenValue(value: Value, tail: Text)
    requires !value.OtherValue? && (value.Int64? ==> IsInt64(value.number))
    requires value.Str? ==> |value.text| < 0x1_0000_0000
    ensures TakeValue(ValueBytes(value) + tail) ==
              if value.Str? && |value.text| > MAX_STRING_BYTES then Malformed else Parsed(value, tail)
  {
    match value
    case Null => Tagged(0, [], tail);
    case Str(text) => TakeWrittenText(text, tail);
    case Bool(truth) => TakeWrittenBool(truth, tail);
    case Int64(number) => TakeWrittenInteger(number, tail);
  }

  /** The map that reading the entries in this order builds. */
  function Filled(start: Proofs, order: seq<Value>, proof: Proofs): Proofs
    requires forall k <- order :: k in proof
    decreases |order|
  {
    if order == [] then start else Filled(start[order[0] := proof[order[0]]], order[1..], proof)
  }

  lemma {:induction false} FilledHas(start: Proofs, order: seq<Value>, proof: Proofs)
    requires forall k <- order :: k in proof
    decreases |order|
    ensures forall k :: k in Filled(start, order, proof) <==> k in start || k in order
    ensures forall k <- Filled(start, order, proof) ::
              Filled(start, order, proof)[k] == if k in order then proof[k] else start[k]
  {
    if order != [] {
      FilledHas(start[order[0] := proof[order[0]]], order[1..], proof);
      assert forall k :: k in order <==> k == order[0] || k in order[1..];
    }
  }

  predicate ReadableEntries(order: seq<Value>, proof: Proofs)
    requires Written(order, proof)
  {
    forall k <- order :: ReadableEntry(k.text, proof[k])
  }

  lemma {:induction false} TakeWrittenEntries(order: seq<Value>, proof: Proofs, start: Proofs)
    requires Written(order, proof) && |EntriesBytes(order, proof)| < 0x1_0000_0000
    requires forall k <- order :: proof[k].Int64? ==> IsInt64(proof[k].number)
    ensures TakeEntries(EntriesBytes(order, proof), |order|, start) ==
              if ReadableEntries(order, proof) then Parsed(Filled(start, order, proof), []) else Malformed
  {
    if order != [] {
      var key, value, others := order[0].text, proof[order[0]], EntriesBytes(order[1..], proof);
      Associate(StringBytes(key), ValueBytes(value), others);
      TakeWrittenString(key, ValueBytes(value) + others);
      TakeWrittenValue(value, others);
      TakeWrittenEntries(order[1..], proof, start[order[0] := value]);
      assert ReadableEntries(order, proof) <==>
             ReadableEntry(key, value) && ReadableEntries(order[1..], proof) by {
        assert forall k :: k in order <==> k == order[0] || k in order[1..];
      }
    }
  }

  lemma TakeWrittenHeader(phase: Phase, tail: Text)
    ensures TakeHeader(Headed(phase, tail)) == Parsed(phase, tail)
  {
    FourBytes();
    var c := Little(PhaseNumber(phase), 4) + tail;
    TakeWrittenNumber(MAGIC, 4, Little(VERSION, 4) + c);
    TakeWrittenNumber(VERSION, 4, c);
    TakeWrittenNumber(PhaseNumber(phase), 4, tail);
  }

  lemma TakeWrittenEnding(s: OperationState, order: seq<Value>)
    requires s.Typed() && s.Writable() && Lists(order, s.proof)
    requires |EntriesBytes(order, s.proof)| <= MAX_STATE_BYTES
    ensures TakeEnding(Counted(s, EntriesBytes(order, s.proof))) ==
              if |s.proof| <= MAX_PROOFS && ReadableEntries(order, s.proof) then Some(Ending(s.hasDestination, s.proof))
              else None
  {
    var entries := EntriesBytes(order, s.proof);
    var bytes := Counted(s, entries);
    assert bytes[1..] == Little(|s.proof|, 4) + entries;
    FourBytes();
    TakeWrittenNumber(|s.proof|, 4, entries);
    TakeWrittenEntries(order, s.proof, map[]);
    FilledIsWhole(order, s.proof);
  }

  lemma FilledIsWhole(order: seq<Value>, proof: Proofs)
    requires Lists(order, proof)
    ensures Filled(map[], order, proof) == proof
  {
    FilledHas(map[], order, proof);
  }

  /** A state that was saved loads back as itself exactly when its strings are at most 4096
      bytes long and its proof has at most 32 entries; otherwise it does not load at all. */
  lemma SavedThenLoaded(s: OperationState, order: seq<Value>)
    requires s.Typed() && s.Writable() && Lists(order, s.proof)
    requires |Encoded(s, order)| <= MAX_STATE_BYTES
    ensures Decoded(Encoded(s, order)) == if s.Readable() then Some(s) else None
    ensures s.Readable() <==>
              && (forall text <- [s.token, s.rootIdentity, s.sessionIdentity, s.sessionKey, s.operation, s.path,
                                  s.destination] :: |text| <= 4096)
              && |s.proof| <= 32
              && forall k <- s.proof ::
                   |k.text| <= 4096 && (s.proof[k].Str? ==> |s.proof[k].text| <= 4096)
  {
    var rest := Counted(s, EntriesBytes(order, s.proof));
    TakeWrittenHeader(s.phase, StringsBytes(s.Strings()) + rest);
    SomeStringsAreShort(s.Strings());
    TakeWrittenStrings(s.Strings(), rest);
    TakeWrittenEnding(s, order);
    assert Assembled(s.phase, s.Strings(), Ending(s.hasDestination, s.proof)) == s;
  }

  lemma FirstNumbers(s: OperationState, order: seq<Value>)
    requires s.Writable() && Lists(order, s.proof)
    ensures var file := Encoded(s, order);
            && |file| >= 12 && file[0..4] == Little(MAGIC, 4) && file[4..8] == Little(VERSION, 4)
            && file[8..12] == Little(PhaseNumber(s.phase), 4)
  {
    var tail := StringsBytes(s.Strings()) + Counted(s, EntriesBytes(order, s.proof));
    ThreeFours(Little(MAGIC, 4), Little(VERSION, 4), Little(PhaseNumber(s.phase), 4), tail);
  }

  /** How a record file begins: `MWS1`, the version and the phase. */
  lemma HeaderLayout(s: OperationState, order: seq<Value>)
    requires s.Writable() && Lists(order, s.proof)
    ensures var file := Encoded(s, order);
            && |file| >= 12
            && file[0] == 'M' as int && file[1] == 'W' as int && file[2] == 'S' as int && file[3] == '1' as int
            && file[4] == 2 && file[5] == 0 && file[6] == 0 && file[7] == 0
            && file[8] == (match s.phase
                           case Prepared => 1 case TargetQuarantining => 2 case TargetQuarantined => 3
                           case StageInstalling => 4 case Committed => 5 case RolledBack => 6)
  {
    FirstNumbers(s, order);
    NumberInFile(Encoded(s, order), 0, MAGIC);
    SmallInFile(Encoded(s, order), 4, VERSION);
    SmallInFile(Encoded(s, order), 8, PhaseNumber(s.phase));
  }

  lemma {:induction false} SomeStringsAreShort(texts: seq<Text>)
    ensures forall i | 0 <= i < |texts| :: |texts[i]| <= |StringsBytes(texts)|
  {
    if texts != [] {
      SomeStringsAreShort(texts[1..]);
      forall i | 0 <= i < |texts| ensures |texts[i]| <= |StringsBytes(texts)| {
        if i > 0 {
          assert texts[i] == texts[1..][i - 1];
        }
      }
    }
  }

  lemma {:induction false} AppendedEntry(order: seq<Value>, last: Value, proof: Proofs)
    requires Written(order + [last], proof)
    ensures Written(order, proof) && last.Str? && last in proof && !proof[last].OtherValue?
    ensures EntriesBytes(order + [last], proof) ==
              EntriesBytes(order, proof) + StringBytes(last.text) + ValueBytes(proof[last])
  {
    assert last in order + [last];
    assert forall k <- order :: k in order + [last];
    var entry := EntryBytes(last.text, proof[last]);
    if order == [] {
      assert (order + [last])[1..] == [];
      assert entry + [] == entry;
    } else {
      assert (order + [last])[1..] == order[1..] + [last];
      AppendedEntry(order[1..], last, proof);
      var first := EntryBytes(order[0].text, proof[order[0]]);
      Associate(EntriesBytes(order[1..], proof), StringBytes(last.text), ValueBytes(proof[last]));
      Associate(first, EntriesBytes(order[1..], proof), entry);
    }
    Associate(EntriesBytes(order, proof), StringBytes(last.text), ValueBytes(proof[last]));
  }

  // ---------------------------------------------------------------- the runner's own loops

  method WriteValue(out: Output, value: Value) returns (ok: bool)
    modifies out
    ensures ok == !value.OtherValue?
    ensures ok ==> out.bytes == old(out.bytes) + ValueBytes(value)
  {
    match value
    case Str(text) =>
      out.Push(1);
      out.AppendString(text);
      Associate(old(out.bytes), [1], StringBytes(text));
      ok := true;
    case Bool(truth) =>
      out.Push(2);
      out.Push(if truth then 1 else 0);
      ok := true;
    case Int64(number) =>
      out.Push(3);
      out.AppendString(ToText(number));
      Associate(old(out.bytes), [3], StringBytes(ToText(number)));
      ok := true;
    case Null =>
      out.Push(0);
      ok := true;
    case OtherValue =>
      ok := false;
  }

  lemma EntryWritten(start: Text, order: seq<Value>, i: nat, proof: Proofs)
    requires i < |order| && Written(order[..i], proof)
    requires order[i].Str? && order[i] in proof && !proof[order[i]].OtherValue?
    ensures Written(order[..i + 1], proof)
    ensures start + EntriesBytes(order[..i], proof) + StringBytes(order[i].text) + ValueBytes(proof[order[i]]) ==
              start + EntriesBytes(order[..i + 1], proof)
  {
    assert order[..i + 1] == order[..i] + [order[i]];
    AppendedEntry(order[..i], order[i], proof);
    JoinFour(start, EntriesBytes(order[..i], proof), StringBytes(order[i].text), ValueBytes(proof[order[i]]));
  }

  method WriteEntries(out: Output, order: seq<Value>, proof: Proofs) returns (ok: bool)
    requires forall k <- order :: k in proof
    modifies out
    ensures ok == Written(order, proof)
    ensures ok ==> out.bytes == old(out.bytes) + EntriesBytes(order, proof)
  {
    var i := 0;
    assert order[..0] == [];
    while i < |order|
      invariant 0 <= i <= |order| && Written(order[..i], proof)
      invariant out.bytes == old(out.bytes) + EntriesBytes(order[..i], proof)
    {
      var key := order[i];
      if !key.Str? {
        return false;
      }
      out.AppendString(key.text);
      var written := WriteValue(out, proof[key]);
      if !written {
        return false;
      }
      EntryWritten(old(out.bytes), order, i, proof);
      i := i + 1;
    }
    assert order[..i] == order;
    ok := true;
  }

  lemma JoinFour(a: Text, b: Text, c: Text, d: Text)
    ensures ((a + b) + c) + d == a + ((b + c) + d)
  {
  }

  method WriteHead(out: Output, state: OperationState)
    requires out.bytes == []
    modifies out
    ensures out.bytes == Headed(state.phase, [])
  {
    ghost var a, b, c := Little(MAGIC, 4), Little(VERSION, 4), Little(PhaseNumber(state.phase), 4);
    out.AppendNumber(MAGIC, 4);
    assert out.bytes == a;
    out.AppendNumber(VERSION, 4);
    out.AppendNumber(PhaseNumber(state.phase), 4);
    assert c + [] == c;
    Associate(a, b, c);
  }

  lemma TailFollows(phase: Phase, tail: Text)
    ensures Headed(phase, []) + tail == Headed(phase, tail)
  {
    var c, b := Little(PhaseNumber(phase), 4), Little(VERSION, 4);
    assert c + [] == c;
    Associate(Little(MAGIC, 4), b + c, tail);
    Associate(b, c, tail);
  }

  /** SaveOperationState up to the file. It does not look at the length of a string or at
      the number of entries. */
  method Serialize(state: OperationState, order: seq<Value>) returns (file: Option<Text>)
    requires state.Typed() && Lists(order, state.proof)
    ensures file == if state.Writable() && |Encoded(state, order)| <= MAX_STATE_BYTES
                    then Some(Encoded(state, order)) else None
  {
    var out := new Output();
    WriteHead(out, state);
    out.AppendStrings(state.Strings());
    var ok := WriteEnding(out, state, order);
    if !ok {
      return None;
    }
    ghost var strings := StringsBytes(state.Strings());
    ghost var ending := Counted(state, EntriesBytes(order, state.proof));
    Associate(Headed(state.phase, []), strings, ending);
    TailFollows(state.phase, strings + ending);
    if |out.bytes| > MAX_STATE_BYTES {
      return None;
    }
    file := Some(out.bytes);
  }

  method WriteEnding(out: Output, state: OperationState, order: seq<Value>) returns (ok: bool)
    requires Lists(order, state.proof)
    modifies out
    ensures ok == state.Writable()
    ensures ok ==> out.bytes == old(out.bytes) + Counted(state, EntriesBytes(order, state.proof))
  {
    out.Push(if state.hasDestination then 1 else 0);
    out.AppendNumber(|state.proof|, 4);
    ok := WriteEntries(out, order, state.proof);
    if ok {
      ghost var entries := EntriesBytes(order, state.proof);
      Associate([if state.hasDestination then 1 else 0], Little(|state.proof|, 4), entries);
      JoinFour(old(out.bytes), [if state.hasDestination then 1 else 0], Little(|state.proof|, 4), entries);
    }
  }

  /** LoadOperationState from the file on, for the caller's token. */
  method Deserialize(bytes: Text, token: Text) returns (state: Option<OperationState>)
    ensures state == if |bytes| <= MAX_STATE_BYTES && Decoded(bytes).Some? && Decoded(bytes).value.token == token
                     then Decoded(bytes) else None
  {
    if |bytes| > MAX_STATE_BYTES {
      return None;
    }
    var input := new Input(bytes);
    assert input.Rest() == bytes;
    var phase := ReadHeader(input);
    if phase.None? {
      return None;
    }
    var texts := input.ReadStrings(STRINGS);
    if texts.None? || texts.value[0] != token {
      return None;
    }
    var ending := ReadEnding(input);
    if ending.None? {
      return None;
    }
    state := Some(Assembled(phase.value, texts.value, ending.value));
  }

  method ReadHeader(input: Input) returns (found: Option<Phase>)
    requires input.Valid()
    modifies input
    ensures input.Valid()
    ensures var p := TakeHeader(old(input.Rest()));
            if p.Parsed? then found == Some(p.value) && input.Rest() == p.rest else found == None
  {
    var magic := input.ReadNumber(4);
    if magic != Some(MAGIC) {
      return None;
    }
    var version := input.ReadNumber(4);
    if version != Some(VERSION) {
      return None;
    }
    var phase := input.ReadNumber(4);
    if phase.None? || phase.value < 1 || phase.value > 6 {
      return None;
    }
    found := Some(PhaseOf(phase.value));
  }

  method ReadEnding(input: Input) returns (ending: Option<Ending>)
    requires input.Valid()
    modifies input
    ensures input.Valid()
    ensures ending == TakeEnding(old(input.Rest()))
  {
    ghost var rest := input.Rest();
    var flag := input.ReadByte();
    if flag.None? {
      return None;
    }
    assert input.Rest() == rest[1..];
    var count := input.ReadNumber(4);
    if count.None? || count.value > MAX_PROOFS {
      return None;
    }
    var proof := ReadEntries(input, count.value);
    if proof.None? || input.at != |input.bytes| {
      return None;
    }
    ending := Some(Ending(flag.value == 1, proof.value));
  }

  method ReadEntries(input: Input, count: nat) returns (proof: Option<Proofs>)
    requires input.Valid()
    modifies input
    ensures input.Valid()
    ensures var p := TakeEntries(old(input.Rest()), count, map[]);
            if p.Parsed? then proof == Some(p.value) && input.Rest() == p.rest else proof == None
  {
    var read: Proofs, i := map[], 0;
    while i < count
      invariant 0 <= i <= count && input.Valid()
      invariant TakeEntries(old(input.Rest()), count, map[]) == TakeEntries(input.Rest(), count - i, read)
    {
      var entry := ReadEntry(input);
      if entry.None? {
        return None;
      }
      read, i := read[Str(entry.value.key) := entry.value.value], i + 1;
    }
    proof := Some(read);
  }

  method ReadEntry(input: Input) returns (entry: Option<Entry>)
    requires input.Valid()
    modifies input
    ensures input.Valid()
    ensures var p := TakeEntry(old(input.Rest()));
            if p.Parsed? then entry == Some(p.value) && input.Rest() == p.rest else entry == None
  {
    var key := input.ReadString();
    if key.None? {
      return None;
    }
    var value := ReadValue(input);
    if value.None? {
      return None;
    }
    entry := Some(Entry(key.value, value.value));
  }

  method ReadValue(input: Input) returns (value: Option<Value>)
    requires input.Valid()
    modifies input
    ensures input.Valid()
    ensures var p := TakeValue(old(input.Rest()));
            if p.Parsed? then value == Some(p.value) && input.Rest() == p.rest else value == None
  {
    ghost var rest := input.Rest();
    var tag := input.ReadByte();
    if tag.None? {
      return None;
    }
    assert input.Rest() == rest[1..];
    match tag.value
    case 0 =>
      value := Some(Null);
    case 1 =>
      var text := input.ReadString();
      value := if text.None? then None else Some(Str(text.value));
    case 2 =>
      ghost var body := input.Rest();
      var truth := input.ReadByte();
      if truth.None? {
        return None;
      }
      assert input.Rest() == body[1..];
      value := Some(Bool(truth.value != 0));
    case 3 =>
      var text := input.ReadString();
      if text.None? {
        return None;
      }
      var number := FromText(text.value);
      value := if number.None? then None else Some(Int64(number.value));
    case _ =>
      value := None;
  }
}
