/** Paths inside a session on Linux: one to sixteen safe names with slashes between them. */
module RelativePaths {
  import opened RecordBytes
  import opened Utf8
  import opened Volumes

  const SLASH := 47
  const DOT := 46
  const MAX_PATH_BYTES := 1024
  const MAX_PART_BYTES := 128
  const MAX_PARTS := 16

  /** Control characters, slash, backslash and colon. */
  predicate Forbidden(b: Byte) {
    b < 32 || b == 127 || b == SLASH || b == 92 || b == 58
  }

  function Upper(b: Byte): Byte {
    if 97 <= b <= 122 then b - 32 else b
  }

  function UpperAll(s: Text): (r: Text)
    ensures |r| == |s|
  {
    if s == [] then [] else [Upper(s[0])] + UpperAll(s[1..])
  }

  /** The first place of a byte from `at` on, or the end. */
  function Find(s: Text, b: Byte, at: nat): (e: nat)
    requires at <= |s|
    ensures at <= e <= |s|
    ensures b !in s[at..e]
    ensures e < |s| ==> s[e] == b
    decreases |s| - at
  {
    if at == |s| || s[at] == b then at else Find(s, b, at + 1)
  }

  function Stem(s: Text): Text {
    UpperAll(s[..Find(s, DOT, 0)])
  }

  /** CON, PRN, AUX, NUL, COM1 to COM9 and LPT1 to LPT9. */
  predicate Reserved(stem: Text) {
    || stem in {[67, 79, 78], [80, 82, 78], [65, 85, 88], [78, 85, 76]}
    || (|stem| == 4 && stem[..3] in {[67, 79, 77], [76, 80, 84]} && 49 <= stem[3] <= 57)
  }

  /** What a name in a session may be. */
  predicate SafePart(s: Text) {
    && 0 < |s| <= MAX_PART_BYTES && s[0] != DOT && s[|s| - 1] != DOT && s[|s| - 1] != 32
    && Decode(s).Some? && (forall b <- s :: !Forbidden(b)) && !Reserved(Stem(s))
  }

  /** The letter, small or capital. */
  predicate IsLetter(b: Byte, letter: char) {
    b == letter as int || b == letter as int + 32
  }

  predicate Spelled(s: Text, x: char, y: char, z: char) {
    3 <= |s| && IsLetter(s[0], x) && IsLetter(s[1], y) && IsLetter(s[2], z)
  }

  /** The name of a device in capital or small letters, alone or with anything after a dot. */
  predicate DeviceName(s: Text) {
    || (&& (Spelled(s, 'C', 'O', 'N') || Spelled(s, 'P', 'R', 'N')
            || Spelled(s, 'A', 'U', 'X') || Spelled(s, 'N', 'U', 'L'))
        && (|s| == 3 || s[3] == '.' as int))
    || (&& (Spelled(s, 'C', 'O', 'M') || Spelled(s, 'L', 'P', 'T'))
        && 4 <= |s| && '1' as int <= s[3] <= '9' as int && (|s| == 4 || s[4] == '.' as int))
  }

  lemma {:induction false} UpperAt(s: Text, i: nat)
    requires i < |s|
    ensures UpperAll(s)[i] == Upper(s[i])
  {
    if i > 0 {
      UpperAt(s[1..], i - 1);
    }
  }

  /** The stem is what is before the first dot. */
  lemma StemIs(s: Text, n: nat)
    requires n <= |s| && (n < |s| ==> s[n] == DOT) && DOT !in s[..n]
    ensures |Stem(s)| == n
    ensures forall i | 0 <= i < n :: Stem(s)[i] == Upper(s[i])
  {
    assert s[0..n] == s[..n];
    FindIs(s, DOT, 0, n);
    forall i | 0 <= i < n ensures Stem(s)[i] == Upper(s[i]) {
      UpperAt(s[..n], i);
    }
  }

  /** Refused for its stem is exactly the name of a device. */
  lemma ReservedExactlyWhen(s: Text)
    ensures Reserved(Stem(s)) <==> DeviceName(s)
  {
    var n := Find(s, DOT, 0);
    assert s[0..n] == s[..n];
    StemIs(s, n);
    var stem := Stem(s);
    assert |stem| >= 3 ==> stem[..3] == [stem[0], stem[1], stem[2]];
    assert |stem| == 3 ==> stem == [stem[0], stem[1], stem[2]];
    if DeviceName(s) {
      var m := if |s| == 3 || s[3] == DOT then 3 else 4;
      assert forall i | 0 <= i < m :: s[i] != DOT;
      StemIs(s, m);
      assert n == m;
    }
  }

  /** The same byte, or the same letter with the other case. */
  predicate SameLetter(a: Byte, b: Byte) {
    a == b || (65 <= a <= 90 && b == a + 32) || (97 <= a <= 122 && b == a - 32)
  }

  lemma {:induction false} CaseKeepsEncoding(s: Text, t: Text)
    requires |s| == |t| && forall i | 0 <= i < |s| :: SameLetter(s[i], t[i])
    ensures Decode(s).Some? <==> Decode(t).Some?
  {
    if s != [] && DecodeOne(s).Some? && DecodeOne(t).Some? {
      var size := DecodeOne(s).value.size;
      assert DecodeOne(t).value.size == size;
      CaseKeepsEncoding(s[size..], t[size..]);
    }
  }

  /** 1 to 128 bytes of UTF-8, no dot in front, no dot or space at the end, no control
      character, slash, backslash or colon, and not the name of a device in any case. */
  lemma SafeExactlyWhen(s: Text)
    ensures SafePart(s) <==>
              && 1 <= |s| <= 128 && s[0] != '.' as int && s[|s| - 1] != '.' as int && s[|s| - 1] != ' ' as int
              && Decode(s).Some?
              && (forall b <- s :: 32 <= b != 127 && b != '/' as int && b != '\\' as int && b != ':' as int)
              && !DeviceName(s)
  {
    ReservedExactlyWhen(s);
  }

  lemma CaseKeepsDevice(s: Text, t: Text)
    requires |s| == |t| && forall i | 0 <= i < |s| :: SameLetter(s[i], t[i])
    requires DeviceName(s)
    ensures DeviceName(t)
  {
  }

  lemma CaseKeepsAllowed(s: Text, t: Text)
    requires |s| == |t| && forall i | 0 <= i < |s| :: SameLetter(s[i], t[i])
    requires forall b <- s :: !Forbidden(b)
    ensures forall b <- t :: !Forbidden(b)
  {
    forall i | 0 <= i < |t| ensures !Forbidden(t[i]) {
      assert s[i] in s;
    }
  }

  lemma SameLetterBack(s: Text, t: Text)
    requires |s| == |t| && forall i | 0 <= i < |s| :: SameLetter(s[i], t[i])
    ensures forall i | 0 <= i < |s| :: SameLetter(t[i], s[i])
  {
  }

  lemma CaseKeepsSafe(s: Text, t: Text)
    requires |s| == |t| && forall i | 0 <= i < |s| :: SameLetter(s[i], t[i])
    requires SafePart(s)
    ensures SafePart(t)
  {
    SameLetterBack(s, t);
    CaseKeepsEncoding(s, t);
    CaseKeepsAllowed(s, t);
    ReservedExactlyWhen(s);
    ReservedExactlyWhen(t);
    if DeviceName(t) {
      CaseKeepsDevice(t, s);
    }
  }

  /** Whether a name is safe never depends on the case of its letters. */
  lemma CaseMakesNoDifference(s: Text, t: Text)
    requires |s| == |t| && forall i | 0 <= i < |s| :: SameLetter(s[i], t[i])
    ensures SafePart(s) <==> SafePart(t)
  {
    SameLetterBack(s, t);
    if SafePart(s) {
      CaseKeepsSafe(s, t);
    }
    if SafePart(t) {
      CaseKeepsSafe(t, s);
    }
  }

  method Part(s: Text) returns (safe: bool)
    ensures safe <==> SafePart(s)
  {
    if s == [] || |s| > MAX_PART_BYTES || s[0] == DOT || s == [DOT, DOT] || Decode(s).None?
       || s[|s| - 1] == DOT || s[|s| - 1] == 32 {
      return false;
    }
    var i := 0;
    while i < |s|
      invariant 0 <= i <= |s| && forall j | 0 <= j < i :: !Forbidden(s[j])
    {
      if Forbidden(s[i]) {
        return false;
      }
      i := i + 1;
    }
    safe := !Reserved(Stem(s));
  }

  // ---------------------------------------------------------------- splitting and joining

  function Split(s: Text): (parts: seq<Text>)
    ensures parts != []
    decreases |s|
  {
    var e := Find(s, SLASH, 0);
    if e == |s| then [s] else [s[..e]] + Split(s[e + 1..])
  }

  function Join(parts: seq<Text>): Text
    requires parts != []
  {
    if |parts| == 1 then parts[0] else parts[0] + ([SLASH] + Join(parts[1..]))
  }

  predicate NoSlash(parts: seq<Text>) {
    forall i | 0 <= i < |parts| :: SLASH !in parts[i]
  }

  lemma {:induction false} JoinOfSplit(s: Text)
    ensures Join(Split(s)) == s && NoSlash(Split(s))
    decreases |s|
  {
    var e := Find(s, SLASH, 0);
    if e < |s| {
      JoinOfSplit(s[e + 1..]);
      assert Split(s)[1..] == Split(s[e + 1..]);
      assert s == s[..e] + ([SLASH] + s[e + 1..]);
      assert s[0..e] == s[..e];
    } else {
      assert s[0..e] == s;
    }
  }

  lemma {:induction false} FindIs(s: Text, b: Byte, at: nat, e: nat)
    requires at <= e <= |s| && b !in s[at..e] && (e < |s| ==> s[e] == b)
    ensures Find(s, b, at) == e
    decreases e - at
  {
    if at < e {
      assert s[at..e][0] == s[at] && s[at..e][1..] == s[at + 1..e];
      FindIs(s, b, at + 1, e);
    }
  }

  lemma FirstSlash(a: Text, b: Text)
    requires SLASH !in a
    ensures Find(a + ([SLASH] + b), SLASH, 0) == |a|
  {
    var s := a + ([SLASH] + b);
    assert s[0..|a|] == a;
    FindIs(s, SLASH, 0, |a|);
  }

  lemma {:induction false} SplitOfJoin(parts: seq<Text>)
    requires parts != [] && NoSlash(parts)
    ensures Split(Join(parts)) == parts
  {
    if |parts| == 1 {
      FindIs(parts[0], SLASH, 0, |parts[0]|);
    } else {
      var first, rest := parts[0], Join(parts[1..]);
      FirstSlash(first, rest);
      var s := Join(parts);
      assert s[..|first|] == first && s[|first| + 1..] == rest;
      SplitOfJoin(parts[1..]);
      assert [parts[0]] + parts[1..] == parts;
    }
  }

  // ---------------------------------------------------------------- ParseRelative

  predicate AllSafe(parts: seq<Text>) {
    forall i | 0 <= i < |parts| :: SafePart(parts[i])
  }

  function PartsOf(s: Text, root: bool): Option<seq<Text>> {
    if s == [] then if root then Some([]) else None
    else if |s| <= MAX_PATH_BYTES && |Split(s)| <= MAX_PARTS && AllSafe(Split(s)) then Some(Split(s))
    else None
  }

  /** A path parses to a list of names exactly when it is those names with slashes between
      them and they are safe; nothing is lost, nothing is normalised. */
  lemma PartsExactlyWhen(s: Text, root: bool, parts: seq<Text>)
    ensures PartsOf(s, root) == Some(parts) <==>
              if parts == [] then s == [] && root
              else AllSafe(parts) && |parts| <= MAX_PARTS && |s| <= MAX_PATH_BYTES && s == Join(parts)
  {
    JoinOfSplit(s);
    if parts != [] && AllSafe(parts) {
      forall i | 0 <= i < |parts| ensures SLASH !in parts[i] {
        assert SafePart(parts[i]);
      }
      SplitOfJoin(parts);
      assert Join(parts) != [];
    }
  }

  /** `.mobilka-workspace` */
  const HIDDEN_NAME: Text := [46, 109, 111, 98, 105, 108, 107, 97, 45, 119, 111, 114, 107, 115, 112, 97, 99, 101]

  /** No path leads into the hidden directory, or to any name that starts with a dot. */
  lemma HiddenIsUnreachable(s: Text, root: bool)
    requires PartsOf(s, root).Some?
    ensures forall part <- PartsOf(s, root).value :: part != [] && part[0] != DOT && part != HIDDEN_NAME
  {
    forall part | part in PartsOf(s, root).value ensures part != [] && part[0] != DOT {
      assert SafePart(part);
    }
  }

  method ParseRelative(s: Text, root: bool) returns (ok: bool, parts: seq<Text>)
    ensures ok <==> PartsOf(s, root).Some?
    ensures ok ==> parts == PartsOf(s, root).value
    ensures s == [] ==> ok == root
    ensures ok ==> |s| <= 1024 && |parts| <= 16 && (parts != [] ==> s == Join(parts)) && (parts == [] ==> s == [])
    ensures ok ==> forall part <- parts :: SafePart(part)
    ensures s != [] && !ok ==>
              |s| > 1024 || |Split(s)| > 16 || exists part <- Split(s) :: !SafePart(part)
  {
    JoinOfSplit(s);
    parts := [];
    if s == [] {
      return root, parts;
    }
    if |s| > MAX_PATH_BYTES {
      return false, parts;
    }
    if s[0] == SLASH || s[|s| - 1] == SLASH || 92 in s || 58 in s {
      RefusedAtOnce(s);
      return false, parts;
    }
    ok, parts := SplitParts(s);
  }

  /** The parts found so far are those before the slash at `e`, or all of them. */
  predicate Found(s: Text, e: nat, parts: seq<Text>) {
    && e <= |s| && parts != [] && NoSlash(parts) && Join(parts) == s[..e] && (e < |s| ==> s[e] == SLASH)
  }

  lemma FoundIsAll(s: Text, parts: seq<Text>)
    requires Found(s, |s|, parts)
    ensures parts == Split(s)
  {
    assert s[..|s|] == s;
    SplitOfJoin(parts);
  }

  lemma CutAtSlash(s: Text, e: nat)
    requires e < |s| && s[e] == SLASH
    ensures s == s[..e] + ([SLASH] + s[e + 1..])
  {
  }

  lemma FoundIsPrefix(s: Text, e: nat, parts: seq<Text>)
    requires Found(s, e, parts) && e < |s|
    ensures Split(s) == parts + Split(s[e + 1..])
  {
    CutAtSlash(s, e);
    SplitOfJoinAnd(parts, s[e + 1..]);
  }

  lemma SplitOfJoinAnd(parts: seq<Text>, tail: Text)
    requires parts != [] && NoSlash(parts)
    ensures Split(Join(parts) + ([SLASH] + tail)) == parts + Split(tail)
  {
    JoinOfSplit(tail);
    JoinConcat(parts, Split(tail));
    SplitOfJoin(parts + Split(tail));
  }

  lemma {:induction false} JoinConcat(a: seq<Text>, b: seq<Text>)
    requires a != [] && b != []
    ensures Join(a + b) == Join(a) + ([SLASH] + Join(b))
  {
    if |a| == 1 {
      assert (a + b)[1..] == b;
    } else {
      assert (a + b)[1..] == a[1..] + b;
      JoinConcat(a[1..], b);
    }
  }

  /** A part goes from `p` to `e`. */
  predicate PartAt(s: Text, p: nat, e: nat) {
    p <= e <= |s| && SLASH !in s[p..e] && (e < |s| ==> s[e] == SLASH)
  }

  predicate FoundBefore(s: Text, p: nat, parts: seq<Text>) {
    if parts == [] then p == 0 else p > 0 && Found(s, p - 1, parts)
  }

  lemma OneMoreFound(s: Text, p: nat, e: nat, parts: seq<Text>)
    requires PartAt(s, p, e)
    requires FoundBefore(s, p, parts)
    ensures Found(s, e, parts + [s[p..e]])
  {
    if parts == [] {
      assert s[p..e] == s[..e];
      assert parts + [s[p..e]] == [s[p..e]];
    } else {
      JoinConcat(parts, [s[p..e]]);
      assert s[..e] == s[..p - 1] + ([SLASH] + s[p..e]);
    }
  }

  lemma NextPart(s: Text, p: nat, e: nat, parts: seq<Text>)
    requires PartAt(s, p, e)
    requires FoundBefore(s, p, parts)
    ensures Found(s, e, parts + [s[p..e]])
    ensures AllSafe(Split(s)) ==> SafePart(s[p..e])
    ensures |Split(s)| > |parts| && (e == |s| ==> Split(s) == parts + [s[p..e]])
  {
    var found := parts + [s[p..e]];
    OneMoreFound(s, p, e, parts);
    if e == |s| {
      FoundIsAll(s, found);
    } else {
      FoundIsPrefix(s, e, found);
    }
    assert Split(s)[|parts|] == found[|parts|];
  }

  method FindSlash(s: Text, p: nat) returns (e: nat)
    requires p <= |s|
    ensures PartAt(s, p, e)
  {
    e := Find(s, SLASH, p);
  }

  /** The loop of ParseRelative. */
  /** The parts before `p` have been found, and they are safe. */
  predicate Under(s: Text, p: nat, parts: seq<Text>) {
    p < |s| && |parts| <= MAX_PARTS && AllSafe(parts) && FoundBefore(s, p, parts)
  }

  lemma OneMoreSafe(s: Text, p: nat, e: nat, parts: seq<Text>)
    requires s != [] && s[|s| - 1] != SLASH && Under(s, p, parts) && PartAt(s, p, e)
    ensures !SafePart(s[p..e]) ==> !AllSafe(Split(s))
    ensures |parts| == MAX_PARTS ==> |Split(s)| > MAX_PARTS
    ensures SafePart(s[p..e]) && |parts| < MAX_PARTS ==>
              if e == |s| then Split(s) == parts + [s[p..e]] && AllSafe(Split(s))
              else Under(s, e + 1, parts + [s[p..e]])
  {
    NextPart(s, p, e, parts);
    if SafePart(s[p..e]) {
      assert AllSafe(parts + [s[p..e]]);
    }
  }

  method SplitParts(s: Text) returns (ok: bool, parts: seq<Text>)
    requires s != [] && s[|s| - 1] != SLASH
    ensures ok <==> |Split(s)| <= MAX_PARTS && AllSafe(Split(s))
    ensures ok ==> parts == Split(s)
  {
    parts := [];
    var p := 0;
    while true
      invariant Under(s, p, parts)
      decreases |s| - p
    {
      var e := FindSlash(s, p);
      var x := s[p..e];
      OneMoreSafe(s, p, e, parts);
      var safe := Part(x);
      if !safe {
        return false, parts;
      }
      parts := parts + [x];
      if |parts| > MAX_PARTS {
        return false, parts;
      }
      if e == |s| {
        return true, parts;
      }
      p := e + 1;
    }
  }

  /** What is refused before the path is split would be refused after it as well. */
  lemma RefusedAtOnce(s: Text)
    requires s != [] && (s[0] == SLASH || s[|s| - 1] == SLASH || 92 in s || 58 in s)
    ensures !AllSafe(Split(s))
  {
    JoinOfSplit(s);
    if AllSafe(Split(s)) {
      JoinOfSafe(Split(s));
    }
  }

  lemma {:induction false} JoinOfSafe(parts: seq<Text>)
    requires parts != [] && AllSafe(parts)
    ensures var s := Join(parts); s != [] && s[0] != SLASH && s[|s| - 1] != SLASH && 92 !in s && 58 !in s
  {
    assert SafePart(parts[0]);
    assert Forbidden(92) && Forbidden(58) && Forbidden(SLASH);
    assert parts[0][0] in parts[0] && parts[0][|parts[0]| - 1] in parts[0];
    if |parts| > 1 {
      JoinOfSafe(parts[1..]);
    }
  }
}
