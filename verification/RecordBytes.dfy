/** The byte fields both desktop record formats are built from: little-endian numbers and
    strings that carry their length. */
module RecordBytes {
  import opened Volumes

  type Byte = n: int | 0 <= n < 256

  type Text = seq<Byte>

  const MAX_STRING_BYTES := 4096

  function Pow256(n: nat): (p: nat)
    ensures p > 0
  {
    if n == 0 then 1 else 256 * Pow256(n - 1)
  }

  /** The low `width` bytes of a number, the lowest first. */
  function Little(value: nat, width: nat): (bytes: Text)
    ensures |bytes| == width
  {
    if width == 0 then [] else [value % 256] + Little(value / 256, width - 1)
  }

  function Number(bytes: Text): (value: nat)
    ensures value < Pow256(|bytes|)
  {
    if bytes == [] then 0 else bytes[0] + 256 * Number(bytes[1..])
  }

  lemma FourLowBytes(value: nat)
    ensures Little(value, 4) == [value % 256, value / 256 % 256, value / 256 / 256 % 256, value / 256 / 256 / 256 % 256]
  {
    var a, b, c := value / 256, value / 256 / 256, value / 256 / 256 / 256;
    assert Little(c, 1) == [c % 256];
    assert Little(b, 2) == [b % 256, c % 256];
    assert Little(a, 3) == [a % 256, b % 256, c % 256];
  }

  lemma ThreeFours(a: Text, b: Text, c: Text, tail: Text)
    requires |a| == |b| == |c| == 4
    ensures var file := a + (b + (c + tail));
            |file| == 12 + |tail| && file[0..4] == a && file[4..8] == b && file[8..12] == c && file[12..] == tail
  {
  }

  /** The four bytes of a number where they stand in a file. */
  lemma NumberInFile(bytes: Text, at: nat, value: nat)
    requires at + 4 <= |bytes| && bytes[at..at + 4] == Little(value, 4)
    ensures bytes[at] == value % 256 && bytes[at + 1] == value / 256 % 256
    ensures bytes[at + 2] == value / 256 / 256 % 256 && bytes[at + 3] == value / 256 / 256 / 256 % 256
  {
    FourLowBytes(value);
    var four := bytes[at..at + 4];
    assert four[0] == bytes[at] && four[1] == bytes[at + 1] && four[2] == bytes[at + 2] && four[3] == bytes[at + 3];
  }

  lemma SmallInFile(bytes: Text, at: nat, value: nat)
    requires at + 4 <= |bytes| && bytes[at..at + 4] == Little(value, 4) && value < 256
    ensures bytes[at] == value && bytes[at + 1] == bytes[at + 2] == bytes[at + 3] == 0
  {
    NumberInFile(bytes, at, value);
  }

  lemma {:induction false} NumberOfLittle(value: nat, width: nat)
    requires value < Pow256(width)
    ensures Number(Little(value, width)) == value
  {
    if width > 0 {
      NumberOfLittle(value / 256, width - 1);
      assert Little(value, width)[1..] == Little(value / 256, width - 1);
    }
  }

  lemma {:induction false} LittleOfNumber(bytes: Text)
    ensures Little(Number(bytes), |bytes|) == bytes
  {
    if bytes != [] {
      LittleOfNumber(bytes[1..]);
      assert Number(bytes) % 256 == bytes[0] && Number(bytes) / 256 == Number(bytes[1..]);
    }
  }

  /** `value >> (8 * places)`. */
  function Shift(value: nat, places: nat): nat {
    if places == 0 then value else Shift(value / 256, places - 1)
  }

  lemma {:induction false} LittleAt(value: nat, width: nat, i: nat)
    requires i < width
    ensures Little(value, width)[i] == Shift(value, i) % 256
  {
    if i > 0 {
      LittleAt(value / 256, width - 1, i - 1);
      assert Little(value, width)[i] == Little(value / 256, width - 1)[i - 1];
    }
  }

  lemma Reorder(a: nat, b: nat, c: nat)
    ensures a * (b * c) == b * (a * c)
  {
  }

  /** A byte read after the others is worth its own place. */
  lemma {:induction false} NumberOfAppended(bytes: Text, last: Byte)
    ensures Number(bytes + [last]) == Number(bytes) + last * Pow256(|bytes|)
  {
    if bytes == [] {
      assert (bytes + [last])[1..] == [];
    } else {
      NumberOfAppended(bytes[1..], last);
      assert (bytes + [last])[1..] == bytes[1..] + [last];
      Reorder(256, last, Pow256(|bytes| - 1));
    }
  }

  // ---------------------------------------------------------------- the format

  datatype Parsed<+T> = Malformed | Parsed(value: T, rest: Text)

  function TakeNumber(bytes: Text, width: nat): Parsed<nat> {
    if |bytes| < width then Malformed else Parsed(Number(bytes[..width]), bytes[width..])
  }

  function StringBytes(text: Text): Text {
    Little(|text|, 4) + text
  }

  function TakeString(bytes: Text): Parsed<Text> {
    match TakeNumber(bytes, 4)
    case Malformed => Malformed
    case Parsed(size, rest) =>
      if size > MAX_STRING_BYTES || |rest| < size then Malformed else Parsed(rest[..size], rest[size..])
  }

  lemma FourBytes()
    ensures Pow256(4) == 0x1_0000_0000
    ensures Pow256(8) == 0x1_0000_0000_0000_0000
  {
    assert Pow256(1) == 256;
    assert Pow256(2) == 65536;
    assert Pow256(3) == 0x100_0000;
    assert Pow256(4) == 0x1_0000_0000;
    assert Pow256(5) == 0x100_0000_0000;
    assert Pow256(6) == 0x1_0000_0000_0000;
    assert Pow256(7) == 0x100_0000_0000_0000;
  }

  lemma TakeWrittenNumber(value: nat, width: nat, tail: Text)
    requires value < Pow256(width)
    ensures TakeNumber(Little(value, width) + tail, width) == Parsed(value, tail)
  {
    NumberOfLittle(value, width);
    assert (Little(value, width) + tail)[..width] == Little(value, width);
    assert (Little(value, width) + tail)[width..] == tail;
  }

  lemma WrittenNumberTaken(bytes: Text, width: nat)
    requires TakeNumber(bytes, width).Parsed?
    ensures var p := TakeNumber(bytes, width);
            p.value < Pow256(width) && bytes == Little(p.value, width) + p.rest
  {
    LittleOfNumber(bytes[..width]);
    CutAndJoined(bytes, width);
  }

  lemma CutAndJoined(bytes: Text, at: nat)
    requires at <= |bytes|
    ensures |bytes[..at]| == at && bytes[..at] + bytes[at..] == bytes
  {
  }

  /** A written string is read back exactly when it has at most 4096 bytes; otherwise
      reading it fails. */
  lemma TakeWrittenString(text: Text, tail: Text)
    requires |text| < 0x1_0000_0000
    ensures TakeString(StringBytes(text) + tail) ==
              if |text| <= MAX_STRING_BYTES then Parsed(text, tail) else Malformed
  {
    FourBytes();
    Associate(Little(|text|, 4), text, tail);
    TakeWrittenNumber(|text|, 4, text + tail);
    assert (text + tail)[..|text|] == text && (text + tail)[|text|..] == tail;
  }

  lemma WrittenStringTaken(bytes: Text)
    requires TakeString(bytes).Parsed?
    ensures var p := TakeString(bytes);
            |p.value| <= MAX_STRING_BYTES && bytes == StringBytes(p.value) + p.rest
  {
    WrittenNumberTaken(bytes, 4);
    var number := TakeNumber(bytes, 4);
    var p := TakeString(bytes);
    CutAndJoined(number.rest, number.value);
    Associate(Little(number.value, 4), p.value, p.rest);
  }

  // ---------------------------------------------------------------- lists of strings

  predicate Short(texts: seq<Text>) {
    forall i | 0 <= i < |texts| :: |texts[i]| <= MAX_STRING_BYTES
  }

  function StringsBytes(texts: seq<Text>): Text {
    if texts == [] then [] else StringBytes(texts[0]) + StringsBytes(texts[1..])
  }

  lemma {:induction false} StringsFit(texts: seq<Text>, bound: nat)
    requires forall i | 0 <= i < |texts| :: |texts[i]| <= bound
    ensures |StringsBytes(texts)| <= |texts| * (4 + bound)
  {
    if texts != [] {
      StringsFit(texts[1..], bound);
      OneMore(|texts| - 1, 4 + bound);
    }
  }

  lemma OneMore(n: nat, bound: nat)
    ensures (n + 1) * bound == n * bound + bound
  {
  }

  function TakeStrings(bytes: Text, count: nat): Parsed<seq<Text>> {
    if count == 0 then Parsed([], bytes)
    else match TakeString(bytes)
      case Malformed => Malformed
      case Parsed(text, rest) =>
        match TakeStrings(rest, count - 1)
        case Malformed => Malformed
        case Parsed(texts, end) => Parsed([text] + texts, end)
  }

  lemma {:induction false} TakeWrittenStrings(texts: seq<Text>, tail: Text)
    requires forall i | 0 <= i < |texts| :: |texts[i]| < 0x1_0000_0000
    ensures TakeStrings(StringsBytes(texts) + tail, |texts|) == if Short(texts) then Parsed(texts, tail) else Malformed
  {
    if texts == [] {
      assert StringsBytes(texts) + tail == tail;
    } else {
      Associate(StringBytes(texts[0]), StringsBytes(texts[1..]), tail);
      TakeWrittenString(texts[0], StringsBytes(texts[1..]) + tail);
      TakeWrittenStrings(texts[1..], tail);
      assert [texts[0]] + texts[1..] == texts;
    }
  }

  lemma {:induction false} WrittenStringsTaken(bytes: Text, count: nat)
    requires TakeStrings(bytes, count).Parsed?
    ensures var p := TakeStrings(bytes, count);
            |p.value| == count && Short(p.value) && bytes == StringsBytes(p.value) + p.rest
  {
    if count > 0 {
      WrittenStringTaken(bytes);
      var head := TakeString(bytes);
      WrittenStringsTaken(head.rest, count - 1);
      var others := TakeStrings(head.rest, count - 1);
      var p := TakeStrings(bytes, count);
      assert p.value == [head.value] + others.value && p.value[1..] == others.value;
      Associate(StringBytes(head.value), StringsBytes(others.value), others.rest);
    }
  }

  lemma Associate(a: Text, b: Text, c: Text)
    ensures a + (b + c) == (a + b) + c
  {
  }

  lemma {:induction false} AppendedString(texts: seq<Text>, last: Text)
    ensures StringsBytes(texts + [last]) == StringsBytes(texts) + StringBytes(last)
  {
    if texts == [] {
      assert (texts + [last])[1..] == [];
      assert StringsBytes([last]) == StringBytes(last) + [];
    } else {
      assert (texts + [last])[1..] == texts[1..] + [last];
      AppendedString(texts[1..], last);
    }
  }

  /** The strings read so far, and what reading the others comes to. */
  function Continue(texts: seq<Text>, more: Parsed<seq<Text>>): Parsed<seq<Text>> {
    match more
    case Malformed => Malformed
    case Parsed(others, rest) => Parsed(texts + others, rest)
  }

  lemma ContinueFromNothing(more: Parsed<seq<Text>>)
    ensures Continue([], more) == more
  {
    if more.Parsed? {
      assert [] + more.value == more.value;
    }
  }

  lemma ContinueOnce(texts: seq<Text>, bytes: Text, count: nat)
    requires count > 0
    ensures Continue(texts, TakeStrings(bytes, count)) ==
              if TakeString(bytes).Malformed? then Malformed
              else Continue(texts + [TakeString(bytes).value], TakeStrings(TakeString(bytes).rest, count - 1))
  {
    if TakeString(bytes).Parsed? {
      var head := TakeString(bytes);
      var others := TakeStrings(head.rest, count - 1);
      if others.Parsed? {
        assert texts + ([head.value] + others.value) == texts + [head.value] + others.value;
      }
    }
  }

  // ---------------------------------------------------------------- writing

  /** The byte vector a record is assembled in. */
  class Output {
    var bytes: Text

    constructor ()
      ensures bytes == []
    {
      bytes := [];
    }

    method Push(byte: Byte)
      modifies this
      ensures bytes == old(bytes) + [byte]
    {
      bytes := bytes + [byte];
    }

    /** Append32 and Append64. */
    method AppendNumber(value: nat, width: nat)
      modifies this
      ensures bytes == old(bytes) + Little(value, width)
    {
      var i := 0;
      while i < width
        invariant 0 <= i <= width
        invariant bytes == old(bytes) + Little(value, width)[..i]
      {
        LittleAt(value, width, i);
        Push(Shift(value, i) % 256);
        i := i + 1;
      }
    }

    method AppendString(text: Text)
      modifies this
      ensures bytes == old(bytes) + StringBytes(text)
    {
      AppendNumber(|text|, 4);
      bytes := bytes + text;
    }

    method AppendStrings(texts: seq<Text>)
      modifies this
      ensures bytes == old(bytes) + StringsBytes(texts)
    {
      var i := 0;
      assert texts[..i] == [];
      while i < |texts|
        invariant 0 <= i <= |texts|
        invariant bytes == old(bytes) + StringsBytes(texts[..i])
      {
        AppendString(texts[i]);
        AppendedString(texts[..i], texts[i]);
        assert texts[..i + 1] == texts[..i] + [texts[i]];
        i := i + 1;
      }
      assert texts[..i] == texts;
    }
  }

  // ---------------------------------------------------------------- reading

  /** A record being read, with the cursor all readers advance. */
  class Input {
    const bytes: Text
    var at: nat

    ghost predicate Valid()
      reads this
    {
      at <= |bytes|
    }

    constructor (bytes: Text)
      ensures Valid() && this.bytes == bytes && at == 0
    {
      this.bytes, at := bytes, 0;
    }

    /** What is still to be read. */
    ghost function Rest(): Text
      requires Valid()
      reads this
    {
      bytes[at..]
    }

    method ReadByte() returns (byte: Option<Byte>)
      requires Valid()
      modifies this
      ensures Valid()
      ensures byte.None? <==> old(Rest()) == []
      ensures byte.Some? ==> old(Rest()) == [byte.value] + Rest()
    {
      if at >= |bytes| {
        return None;
      }
      byte := Some(bytes[at]);
      at := at + 1;
    }

    /** Read32 and Read64. */
    method ReadNumber(width: nat) returns (value: Option<nat>)
      requires Valid()
      modifies this
      ensures Valid()
      ensures var p := TakeNumber(old(Rest()), width);
              if p.Parsed? then value == Some(p.value) && Rest() == p.rest else value == None
    {
      if at + width > |bytes| {
        return None;
      }
      var v, i := 0, 0;
      while i < width
        invariant 0 <= i <= width && at == old(at) + i
        invariant v == Number(bytes[old(at)..at])
      {
        NumberOfAppended(bytes[old(at)..at], bytes[at]);
        assert bytes[old(at)..at + 1] == bytes[old(at)..at] + [bytes[at]];
        v := v + bytes[at] * Pow256(i);
        at, i := at + 1, i + 1;
      }
      assert old(Rest())[..width] == bytes[old(at)..at];
      value := Some(v);
    }

    method ReadString() returns (text: Option<Text>)
      requires Valid()
      modifies this
      ensures Valid()
      ensures var p := TakeString(old(Rest()));
              if p.Parsed? then text == Some(p.value) && Rest() == p.rest else text == None
    {
      var size := ReadNumber(4);
      if size.None? || size.value > MAX_STRING_BYTES || at + size.value > |bytes| {
        return None;
      }
      text := Some(bytes[at..at + size.value]);
      ghost var rest := Rest();
      assert rest[..size.value] == text.value;
      at := at + size.value;
      assert rest[size.value..] == Rest();
    }

    method ReadStrings(count: nat) returns (texts: Option<seq<Text>>)
      requires Valid()
      modifies this
      ensures Valid()
      ensures var p := TakeStrings(old(Rest()), count);
              if p.Parsed? then texts == Some(p.value) && |p.value| == count && Rest() == p.rest else texts == None
    {
      var read: seq<Text>, i := [], 0;
      ContinueFromNothing(TakeStrings(Rest(), count));
      while i < count
        invariant 0 <= i <= count && |read| == i && Valid()
        invariant TakeStrings(old(Rest()), count) == Continue(read, TakeStrings(Rest(), count - i))
      {
        ContinueOnce(read, Rest(), count - i);
        var text := ReadString();
        if text.None? {
          return None;
        }
        read, i := read + [text.value], i + 1;
      }
      assert read + [] == read;
      texts := Some(read);
    }
  }
}
