/** Signed 64-bit integers as decimal text: what std::to_string writes and std::stoll reads. */
module Decimals {
  import opened RecordBytes
  import opened Volumes

  const LOWEST := -0x8000_0000_0000_0000
  const HIGHEST := 0x7fff_ffff_ffff_ffff

  predicate IsInt64(n: int) {
    LOWEST <= n <= HIGHEST
  }

  predicate IsDigit(b: Byte) {
    48 <= b <= 57
  }

  function DigitValue(b: Byte): nat
    requires IsDigit(b)
  {
    b - 48
  }

  predicate IsSpace(b: Byte) {
    b == 32 || 9 <= b <= 13
  }

  function Digits(n: nat): (text: Text)
    ensures text != [] && forall b <- text :: IsDigit(b)
  {
    if n < 10 then [48 + n] else Digits(n / 10) + [48 + n % 10]
  }

  function ToText(n: int): (text: Text)
    ensures text != []
  {
    if n < 0 then [45] + Digits(-n) else Digits(n)
  }

  /** The number the leading digits stand for, continuing from `sum`. */
  function ReadDigits(sum: nat, text: Text): nat
    decreases |text|
  {
    if text == [] || !IsDigit(text[0]) then sum else ReadDigits(sum * 10 + DigitValue(text[0]), text[1..])
  }

  function SkipSpaces(text: Text): Text {
    if text != [] && IsSpace(text[0]) then SkipSpaces(text[1..]) else text
  }

  /** Leading spaces, a sign and what follows the digits are all accepted; no digits or a
      value out of range make it throw. */
  function FromText(text: Text): Option<int> {
    var t := SkipSpaces(text);
    var signed := t != [] && t[0] in {43, 45};
    var digits := if signed then t[1..] else t;
    if digits == [] || !IsDigit(digits[0]) then None
    else
      var size: int := ReadDigits(0, digits);
      var n := if signed && t[0] == 45 then -size else size;
      if IsInt64(n) then Some(n) else None
  }

  lemma {:induction false} ReadOneMore(sum: nat, text: Text, last: Byte)
    requires IsDigit(last) && forall b <- text :: IsDigit(b)
    decreases |text|
    ensures ReadDigits(sum, text + [last]) == ReadDigits(sum, text) * 10 + DigitValue(last)
  {
    if text == [] {
      assert (text + [last])[1..] == [];
    } else {
      assert (text + [last])[1..] == text[1..] + [last];
      ReadOneMore(sum * 10 + DigitValue(text[0]), text[1..], last);
    }
  }

  lemma {:induction false} ReadWrittenDigits(n: nat)
    ensures ReadDigits(0, Digits(n)) == n
  {
    if n >= 10 {
      ReadWrittenDigits(n / 10);
      ReadOneMore(0, Digits(n / 10), 48 + n % 10);
    } else {
      assert [48 + n][1..] == [];
      assert ReadDigits(n, []) == n;
    }
  }

  /** Every 64-bit integer reads back from its decimal text. */
  lemma TextRoundTrip(n: int)
    requires IsInt64(n)
    ensures FromText(ToText(n)) == Some(n)
  {
    ReadWrittenDigits(if n < 0 then -n else n);
    var text := ToText(n);
    assert SkipSpaces(text) == text;
    if n < 0 {
      assert text[1..] == Digits(-n);
    }
  }

  function Pow10(k: nat): (p: nat)
    ensures p > 0
  {
    if k == 0 then 1 else 10 * Pow10(k - 1)
  }

  lemma {:induction false} DigitsFit(n: nat, k: nat)
    requires 1 <= k && n < Pow10(k)
    ensures |Digits(n)| <= k
  {
    if n >= 10 {
      assert Pow10(1) == 10;
      DigitsFit(n / 10, k - 1);
    }
  }

  lemma TextIsShort(n: int)
    requires IsInt64(n)
    ensures |ToText(n)| <= 20
  {
    assert Pow10(5) == 100_000;
    assert Pow10(10) == 10_000_000_000;
    assert Pow10(15) == 1_000_000_000_000_000;
    assert Pow10(19) == 10_000_000_000_000_000_000;
    DigitsFit(if n < 0 then -n else n, 19);
  }
}
