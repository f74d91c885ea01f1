/** How the Linux runner hands out a text file in pages: a page ends at or before the
    requested number of bytes, between two characters. */
module WorkspacePaging {
  import opened RecordBytes
  import opened Utf8
  import opened Volumes

  const MAX_FILE_BYTES := 1048576
  const MAX_PAGE_BYTES := 262144

  datatype Error = InvalidArgument | FileTooLarge | UnsupportedText | InvalidOffset

  datatype Reply = Refused(error: Error) | Page(bytes: Text, nextOffset: nat, truncated: bool)

  /** g_utf8_validate also rejects a zero byte. */
  predicate IsText(file: Text) {
    0 !in file && Decode(file).Some?
  }

  /** The last boundary at or before `end`, but not before `offset`. */
  function CutBack(file: Text, offset: nat, end: nat): (cut: nat)
    requires offset <= end <= |file|
    ensures offset <= cut <= end
    ensures Boundary(file, offset) ==> Boundary(file, cut)
    ensures forall i | cut < i <= end :: !Boundary(file, i)
  {
    if end > offset && !Boundary(file, end) then CutBack(file, offset, end - 1) else end
  }

  function Least(a: nat, b: nat): nat {
    if a <= b then a else b
  }

  function NextOffset(file: Text, offset: nat, max: nat): (next: nat)
    requires offset <= |file|
    ensures offset <= next <= |file| && next <= offset + max
  {
    CutBack(file, offset, Least(|file|, offset + max))
  }

  /** Both sides are texts by themselves. */
  lemma SidesAreTexts(file: Text, i: nat)
    requires Decode(file).Some? && i <= |file|
    ensures Decode(file[..i]).Some? && Decode(file[i..]).Some? <==> Boundary(file, i)
  {
    BoundaryExactlyBetweenCharacters(file, i);
    if Decode(file[..i]).Some? && Decode(file[i..]).Some? {
      DecodeJoined(file[..i], file[i..]);
      assert file[..i] + file[i..] == file;
    }
  }

  lemma PageIsLongest(file: Text, offset: nat, max: nat, next: nat)
    requires Decode(file).Some? && offset <= |file| && Boundary(file, offset)
    requires next == NextOffset(file, offset, max)
    ensures Decode(file[..next]).Some? && Decode(file[next..]).Some?
    ensures forall i | next < i <= |file| && i <= offset + max ::
              !(Decode(file[..i]).Some? && Decode(file[i..]).Some?)
  {
    SidesAreTexts(file, next);
    forall i | next < i <= |file| && i <= offset + max
      ensures !(Decode(file[..i]).Some? && Decode(file[i..]).Some?)
    {
      SidesAreTexts(file, i);
    }
  }

  /** A page is the longest run of whole characters that fits; every other request is
      refused for a reason the caller can see. */
  method HandleRead(file: Text, offset: int, max: int) returns (reply: Reply)
    ensures reply == Refused(InvalidArgument) <==> offset < 0 || max < 0 || max > 262144
    ensures 0 <= offset && 0 <= max <= 262144 ==>
              && (reply == Refused(FileTooLarge) <==> |file| > 1048576)
              && (reply == Refused(UnsupportedText) <==> |file| <= 1048576 && (0 in file || Decode(file).None?))
    ensures reply == Refused(InvalidOffset) ==>
              0 <= offset && (offset > |file| || Decode(file[..offset]).None? || Decode(file[offset..]).None?)
    ensures reply.Page? ==>
              && 0 <= offset <= reply.nextOffset <= |file| && CleanCut(file, offset)
              && reply.nextOffset == NextOffset(file, offset, max)
              && reply.bytes == file[offset..reply.nextOffset]
              && reply.truncated == (reply.nextOffset < |file|)
    // The page ends within the request, between two characters, and at no earlier place than
    // it has to.
    ensures reply.Page? ==>
              && reply.nextOffset <= offset + max
              && Decode(file[..reply.nextOffset]).Some? && Decode(file[reply.nextOffset..]).Some?
              && forall i | reply.nextOffset < i <= |file| && i <= offset + max ::
                   !(Decode(file[..i]).Some? && Decode(file[i..]).Some?)
  {
    if offset < 0 || max < 0 || max > MAX_PAGE_BYTES {
      return Refused(InvalidArgument);
    }
    if |file| > MAX_FILE_BYTES {
      return Refused(FileTooLarge);
    }
    if !IsText(file) {
      return Refused(UnsupportedText);
    }
    if offset > |file| {
      return Refused(InvalidOffset);
    }
    BoundaryExactlyBetweenCharacters(file, offset);
    if !Boundary(file, offset) {
      return Refused(InvalidOffset);
    }
    var end := Least(|file|, offset + max);
    while end > offset && !Boundary(file, end)
      invariant offset <= end <= |file|
      invariant CutBack(file, offset, end) == NextOffset(file, offset, max)
    {
      end := end - 1;
    }
    PageIsLongest(file, offset, max, end);
    reply := Page(file[offset..end], end, end < |file|);
  }

  // ---------------------------------------------------------------- following nextOffset

  /** From a boundary on there is a character, which ends at a boundary. */
  lemma CharacterAt(file: Text, offset: nat)
    requires Decode(file).Some? && offset < |file| && Boundary(file, offset)
    ensures DecodeOne(file[offset..]).Some?
    ensures Boundary(file, offset + DecodeOne(file[offset..]).value.size)
  {
    BoundaryExactlyBetweenCharacters(file, offset);
    var rest := file[offset..];
    var size := DecodeOne(rest).value.size;
    if size < |rest| && IsTail(rest[size]) {
      NoTextStartsWithTail(rest[size..]);
    }
  }

  lemma InsideCharacter(file: Text, offset: nat, i: nat)
    requires offset < i <= |file| && DecodeOne(file[offset..]).Some?
    requires i < offset + DecodeOne(file[offset..]).value.size
    ensures !Boundary(file, i)
  {
    CharacterShape(file[offset..], i - offset);
    assert file[offset..][i - offset] == file[i];
  }

  /** A request makes progress exactly when the next character fits in it. */
  lemma AdvancesExactlyWhenCharacterFits(file: Text, offset: nat, max: nat)
    requires Decode(file).Some? && offset < |file| && Boundary(file, offset)
    ensures DecodeOne(file[offset..]).Some?
    ensures NextOffset(file, offset, max) > offset <==> max >= DecodeOne(file[offset..]).value.size
    ensures max >= 4 ==> NextOffset(file, offset, max) > offset
  {
    CharacterAt(file, offset);
    var next := NextOffset(file, offset, max);
    if max < DecodeOne(file[offset..]).value.size && next > offset {
      InsideCharacter(file, offset, next);
    }
  }

  /** The pages a reader gets by following `nextOffset`. */
  function Pages(file: Text, offset: nat, max: nat): (pages: seq<Text>)
    requires Decode(file).Some? && offset <= |file| && Boundary(file, offset) && max >= 4
    decreases |file| - offset
  {
    if offset == |file| then [] else
    AdvancesExactlyWhenCharacterFits(file, offset, max);
    var next := NextOffset(file, offset, max);
    [file[offset..next]] + Pages(file, next, max)
  }

  function Concatenated(pages: seq<Text>): Text {
    if pages == [] then [] else pages[0] + Concatenated(pages[1..])
  }

  /** The characters of the pages, one page after the other, if every page is a text. */
  function Read(pages: seq<Text>): Option<Scalars> {
    if pages == [] then Some([]) else Joined(Decode(pages[0]), Read(pages[1..]))
  }

  lemma CutTwice(file: Text, offset: nat, next: nat)
    requires offset <= next <= |file|
    ensures file[offset..][next - offset..] == file[next..] && file[offset..][..next - offset] == file[offset..next]
  {
  }

  /** What lies between two boundaries is a text, and the text goes on from there. */
  lemma BetweenBoundaries(file: Text, offset: nat, next: nat)
    requires Decode(file).Some? && offset <= next <= |file| && Boundary(file, offset) && Boundary(file, next)
    ensures Decode(file[offset..next]).Some?
    ensures Decode(file[offset..]) == Joined(Decode(file[offset..next]), Decode(file[next..]))
  {
    var rest := file[offset..];
    BoundaryExactlyBetweenCharacters(file, offset);
    BoundaryExactlyBetweenCharacters(file, next);
    CutTwice(file, offset, next);
    BoundaryExactlyBetweenCharacters(rest, next - offset);
  }

  /** The pages are never empty, never too long, each of them is a text by itself, and
      together they are the text, byte for byte and character for character. */
  predicate Rebuilds(pages: seq<Text>, text: Text, max: nat) {
    && Concatenated(pages) == text
    && Read(pages) == Decode(text)
    && forall page <- pages :: 0 < |page| <= max && Decode(page).Some?
  }

  lemma OnePageMore(page: Text, pages: seq<Text>, text: Text, max: nat)
    requires Rebuilds(pages, text, max)
    requires 0 < |page| <= max && Decode(page).Some? && Decode(page + text) == Joined(Decode(page), Decode(text))
    ensures Rebuilds([page] + pages, page + text, max)
  {
    assert ([page] + pages)[1..] == pages;
  }

  lemma CutOnce(file: Text, offset: nat, next: nat)
    requires offset <= next <= |file|
    ensures file[offset..next] + file[next..] == file[offset..]
  {
  }

  lemma PageBeforeTheRest(file: Text, offset: nat, next: nat, pages: seq<Text>, max: nat)
    requires Decode(file).Some? && offset < next <= |file| && next <= offset + max
    requires Boundary(file, offset) && Boundary(file, next) && Rebuilds(pages, file[next..], max)
    ensures Rebuilds([file[offset..next]] + pages, file[offset..], max)
  {
    BetweenBoundaries(file, offset, next);
    CutOnce(file, offset, next);
    OnePageMore(file[offset..next], pages, file[next..], max);
  }

  lemma {:induction false} PagesRebuildTheFile(file: Text, offset: nat, max: nat)
    requires Decode(file).Some? && offset <= |file| && Boundary(file, offset) && max >= 4
    ensures Rebuilds(Pages(file, offset, max), file[offset..], max)
    decreases |file| - offset
  {
    if offset == |file| {
      assert file[offset..] == [];
    } else {
      AdvancesExactlyWhenCharacterFits(file, offset, max);
      var next := NextOffset(file, offset, max);
      PagesRebuildTheFile(file, next, max);
      PageBeforeTheRest(file, offset, next, Pages(file, next, max), max);
    }
  }

  /** A file written by the encoder comes back page by page as the characters that were
      written. */
  lemma WrittenCharactersAreRead(values: Scalars, max: nat)
    requires max >= 4
    ensures Decode(EncodeAll(values)).Some? && Read(Pages(EncodeAll(values), 0, max)) == Some(values)
  {
    EncodedIsDecoded(values);
    PagesRebuildTheFile(EncodeAll(values), 0, max);
    assert EncodeAll(values)[0..] == EncodeAll(values);
  }
}
