/** UTF-8 as section 4 of RFC 3629 defines it: the strict decoder is the inverse of the
    encoder the document engine uses, and a text can be cut wherever the next byte is not
    a continuation byte. */
module Utf8 {
  import opened RecordBytes
  import opened Volumes

  type Scalar = value: nat | value <= 0x10ffff && !(0xd800 <= value <= 0xdfff)

  /** The check append_unicode makes. */
  predicate IsScalar(value: nat) {
    value <= 0x10ffff && !(0xd800 <= value <= 0xdfff)
  }

  type Scalars = seq<Scalar>

  /** A continuation byte for the low six bits of a number. */
  function Tail(bits: nat): (b: Byte)
    ensures IsTail(b)
  {
    0x80 + bits % 64
  }

  /** The bytes append_unicode appends. */
  function Encode(value: Scalar): (bytes: Text)
    ensures 1 <= |bytes| <= 4
  {
    if value < 0x80 then [value]
    else if value < 0x800 then [0xc0 + value / 64, Tail(value)]
    else if value < 0x10000 then [0xe0 + value / 4096, Tail(value / 64), Tail(value)]
    else
      [0xf0 + value / 262144, Tail(value / 4096), Tail(value / 64), Tail(value)]
  }

  /** Six bits at a time. */
  lemma Sextets(value: nat)
    ensures value / 4096 == value / 64 / 64 && value / 262144 == value / 4096 / 64
    ensures value == value / 64 * 64 + value % 64
    ensures value / 64 == value / 4096 * 64 + value / 64 % 64
    ensures value / 4096 == value / 262144 * 64 + value / 4096 % 64
  {
  }

  function EncodeAll(values: Scalars): Text {
    if values == [] then [] else Encode(values[0]) + EncodeAll(values[1..])
  }

  predicate IsTail(b: Byte) {
    0x80 <= b < 0xc0
  }

  /** One character, and how many bytes it takes. */
  datatype Character = Character(value: Scalar, size: nat)

  function Two(a: Byte, b: Byte): Option<Character> {
    if 0xc2 <= a <= 0xdf && IsTail(b) then Some(Character((a - 0xc0) * 64 + (b - 0x80), 2)) else None
  }

  function Three(a: Byte, b: Byte, c: Byte): Option<Character> {
    if && 0xe0 <= a <= 0xef && IsTail(b) && IsTail(c)
       && (a == 0xe0 ==> b >= 0xa0) && (a == 0xed ==> b < 0xa0)
    then Some(Character((a - 0xe0) * 4096 + (b - 0x80) * 64 + (c - 0x80), 3)) else None
  }

  function Four(a: Byte, b: Byte, c: Byte, d: Byte): Option<Character> {
    if && 0xf0 <= a <= 0xf4 && IsTail(b) && IsTail(c) && IsTail(d)
       && (a == 0xf0 ==> b >= 0x90) && (a == 0xf4 ==> b < 0x90)
    then Some(Character((a - 0xf0) * 262144 + (b - 0x80) * 4096 + (c - 0x80) * 64 + (d - 0x80), 4)) else None
  }

  function DecodeOne(bytes: Text): (first: Option<Character>)
    ensures first.Some? ==> 1 <= first.value.size <= 4 && first.value.size <= |bytes|
  {
    if bytes == [] then None
    else if bytes[0] < 0x80 then Some(Character(bytes[0], 1))
    else if bytes[0] < 0xe0 then if |bytes| < 2 then None else Two(bytes[0], bytes[1])
    else if bytes[0] < 0xf0 then if |bytes| < 3 then None else Three(bytes[0], bytes[1], bytes[2])
    else if |bytes| < 4 then None else Four(bytes[0], bytes[1], bytes[2], bytes[3])
  }

  function Decode(bytes: Text): Option<Scalars> {
    if bytes == [] then Some([])
    else match DecodeOne(bytes)
      case None => None
      case Some(first) => Prepend(first.value, Decode(bytes[first.size..]))
  }

  function Prepend(value: Scalar, others: Option<Scalars>): Option<Scalars> {
    if others.None? then None else Some([value] + others.value)
  }

  /** One text after another. */
  function Joined(a: Option<Scalars>, b: Option<Scalars>): Option<Scalars> {
    if a.None? || b.None? then None else Some(a.value + b.value)
  }

  lemma PrependJoined(value: Scalar, a: Option<Scalars>, b: Option<Scalars>)
    ensures Joined(Prepend(value, a), b) == Prepend(value, Joined(a, b))
  {
    if a.Some? && b.Some? {
      assert [value] + (a.value + b.value) == ([value] + a.value) + b.value;
    }
  }

  // ---------------------------------------------------------------- decoding inverts encoding

  lemma DecodeEncoded(value: Scalar, tail: Text)
    ensures DecodeOne(Encode(value) + tail) == Some(Character(value, |Encode(value)|))
  {
    var bytes := Encode(value);
    assert forall i | 0 <= i < |bytes| :: (bytes + tail)[i] == bytes[i];
    Sextets(value);
    if value >= 0x10000 {
      FourEncoded(value);
    } else if value >= 0x800 {
      ThreeEncoded(value);
    }
  }

  lemma ThreeEncoded(value: Scalar)
    requires 0x800 <= value < 0x10000
    ensures Three(0xe0 + value / 4096, Tail(value / 64), Tail(value)) == Some(Character(value, 3))
  {
    Sextets(value);
  }

  lemma FourEncoded(value: Scalar)
    requires 0x10000 <= value
    ensures Four(0xf0 + value / 262144, Tail(value / 4096), Tail(value / 64), Tail(value)) == Some(Character(value, 4))
  {
    Sextets(value);
  }

  lemma Lowest(a: nat, b: nat)
    requires b < 64
    ensures (a * 64 + b) / 64 == a && (a * 64 + b) % 64 == b
  {
  }

  lemma TwoDecoded(a: Byte, b: Byte)
    requires Two(a, b).Some?
    ensures Encode(Two(a, b).value.value) == [a, b]
  {
    Lowest(a - 0xc0, b - 0x80);
  }

  /** The sextets of a number put together from three of them. */
  lemma ThreeSextets(high: nat, middle: nat, low: nat)
    requires middle < 64 && low < 64
    ensures var value := high * 4096 + middle * 64 + low;
            value / 4096 == high && value / 64 % 64 == middle && value % 64 == low
            && value / 64 == high * 64 + middle
  {
    Lowest(high * 64 + middle, low);
    Lowest(high, middle);
    Sextets(high * 4096 + middle * 64 + low);
  }

  lemma ThreeDecoded(a: Byte, b: Byte, c: Byte)
    requires Three(a, b, c).Some?
    ensures Encode(Three(a, b, c).value.value) == [a, b, c]
  {
    ThreeSextets(a - 0xe0, b - 0x80, c - 0x80);
  }

  lemma FourDecoded(a: Byte, b: Byte, c: Byte, d: Byte)
    requires Four(a, b, c, d).Some?
    ensures Encode(Four(a, b, c, d).value.value) == [a, b, c, d]
  {
    var top: nat, high: nat, middle: nat, low: nat := a - 0xf0, b - 0x80, c - 0x80, d - 0x80;
    ThreeSextets(top * 64 + high, middle, low);
    ThreeSextets(top, high, middle);
    Sextets(Four(a, b, c, d).value.value);
  }

  lemma EncodeDecoded(bytes: Text)
    requires DecodeOne(bytes).Some?
    ensures var c := DecodeOne(bytes).value; c.size == |Encode(c.value)| && bytes[..c.size] == Encode(c.value)
  {
    var c := DecodeOne(bytes).value;
    if c.size == 2 {
      TwoDecoded(bytes[0], bytes[1]);
    } else if c.size == 3 {
      ThreeDecoded(bytes[0], bytes[1], bytes[2]);
    } else if c.size == 4 {
      FourDecoded(bytes[0], bytes[1], bytes[2], bytes[3]);
    }
  }

  /** A character is decoded from its own bytes alone, and all of them but the first are
      continuation bytes. */
  lemma CharacterShape(bytes: Text, i: nat)
    requires DecodeOne(bytes).Some? && i < DecodeOne(bytes).value.size
    ensures IsTail(bytes[i]) <==> i > 0
  {
  }

  lemma DecodeOnePrefix(bytes: Text, end: nat)
    requires DecodeOne(bytes).Some? && DecodeOne(bytes).value.size <= end <= |bytes|
    ensures DecodeOne(bytes[..end]) == DecodeOne(bytes)
  {
  }

  lemma DecodeOneExtended(bytes: Text, tail: Text)
    requires DecodeOne(bytes).Some?
    ensures DecodeOne(bytes + tail) == DecodeOne(bytes)
  {
  }

  /** Decoding succeeds exactly on the encodings, and gives back what was encoded. */
  lemma {:induction false} DecodedExactlyWhenEncoded(bytes: Text, values: Scalars)
    ensures Decode(bytes) == Some(values) <==> bytes == EncodeAll(values)
    decreases |bytes|, |values|
  {
    if bytes == EncodeAll(values) {
      EncodedIsDecoded(values);
    }
    if Decode(bytes) == Some(values) && bytes != [] {
      var first := DecodeOne(bytes).value;
      EncodeDecoded(bytes);
      DecodedExactlyWhenEncoded(bytes[first.size..], values[1..]);
      assert values[1..] == Decode(bytes[first.size..]).value;
      assert bytes == bytes[..first.size] + bytes[first.size..];
    }
  }

  lemma {:induction false} EncodedIsDecoded(values: Scalars)
    ensures Decode(EncodeAll(values)) == Some(values)
  {
    if values != [] {
      var head, others := Encode(values[0]), EncodeAll(values[1..]);
      DecodeEncoded(values[0], others);
      assert (head + others)[|head|..] == others;
      EncodedIsDecoded(values[1..]);
      assert [values[0]] + values[1..] == values;
    }
  }

  lemma {:induction false} DecodeJoined(a: Text, b: Text)
    requires Decode(a).Some?
    ensures Decode(a + b) == Joined(Decode(a), Decode(b))
  {
    if a == [] {
      assert a + b == b;
      if Decode(b).Some? {
        assert [] + Decode(b).value == Decode(b).value;
      }
    } else {
      var first := DecodeOne(a).value;
      DecodeOneExtended(a, b);
      assert (a + b)[first.size..] == a[first.size..] + b;
      DecodeJoined(a[first.size..], b);
      PrependJoined(first.value, Decode(a[first.size..]), Decode(b));
    }
  }

  // ---------------------------------------------------------------- cutting

  /** The test HandleRead makes at an index. */
  predicate Boundary(bytes: Text, i: nat)
    requires i <= |bytes|
  {
    i == 0 || i == |bytes| || !IsTail(bytes[i])
  }

  /** Both sides are text of their own, and together they are the text. */
  predicate CleanCut(bytes: Text, i: nat)
    requires i <= |bytes|
  {
    && Decode(bytes[..i]).Some? && Decode(bytes[i..]).Some?
    && Decode(bytes) == Joined(Decode(bytes[..i]), Decode(bytes[i..]))
  }

  /** The one-byte test is exact: it finds the places between two characters, all of them
      and no others. */
  lemma {:induction false} BoundaryExactlyBetweenCharacters(bytes: Text, i: nat)
    requires Decode(bytes).Some? && i <= |bytes|
    ensures Boundary(bytes, i) <==> CleanCut(bytes, i)
    ensures Boundary(bytes, i) <==> Decode(bytes[i..]).Some?
  {
    if i == 0 {
      assert bytes[..i] == [] && bytes[i..] == bytes;
      assert [] + Decode(bytes).value == Decode(bytes).value;
    } else if i == |bytes| {
      assert bytes[..i] == bytes && bytes[i..] == [];
      assert Decode(bytes).value + [] == Decode(bytes).value;
    } else {
      var size := DecodeOne(bytes).value.size;
      if i < size {
        CharacterShape(bytes, i);
        assert bytes[i..][0] == bytes[i];
        NoTextStartsWithTail(bytes[i..]);
      } else {
        CutFurther(bytes, i);
      }
    }
  }

  lemma NoTextStartsWithTail(bytes: Text)
    requires bytes != [] && IsTail(bytes[0])
    ensures Decode(bytes).None?
  {
  }

  lemma CutFurther(bytes: Text, i: nat)
    requires Decode(bytes).Some? && bytes != [] && DecodeOne(bytes).value.size <= i < |bytes|
    ensures Boundary(bytes, i) <==> CleanCut(bytes, i)
    ensures Boundary(bytes, i) <==> Decode(bytes[i..]).Some?
    decreases bytes, 0
  {
    var first := DecodeOne(bytes).value;
    var rest, j := bytes[first.size..], i - first.size;
    BoundaryExactlyBetweenCharacters(rest, j);
    assert rest[j..] == bytes[i..] && rest[j] == bytes[i];
    if j == 0 && IsTail(rest[0]) {
      NoTextStartsWithTail(rest);
    }
    assert Boundary(bytes, i) <==> Boundary(rest, j);
    DecodeOnePrefix(bytes, i);
    assert bytes[..i][first.size..] == rest[..j];
    assert Decode(bytes[..i]) == Prepend(first.value, Decode(rest[..j]));
    PrependJoined(first.value, Decode(rest[..j]), Decode(rest[j..]));
  }
}
