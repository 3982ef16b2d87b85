/** The `multipart/byteranges` body that static files are served with, and what the scanner reads back from it. */
module Byteranges {
  import opened ByteSeqs
  import opened MultipartSpec
  import opened MultipartParts
  import opened MultipartLimits
  import opened MultipartText
  import opened Ranges
  import opened Text

  // ----- printing -------------------------------------------------------------------------

  function ContentRange(r: ByteRange, size: nat): (s: string)
    requires 0 <= r.start && 0 <= r.end
    ensures IsAscii(s) && s != "" && forall i | 0 <= i < |s| :: s[i] != '\n'
  {
    "Content-Range: bytes " + Decimal(r.start) + "-" + Decimal(r.end) + "/" + Decimal(size)
  }

  function HeaderLines(r: ByteRange, size: nat, partType: seq<Byte>): (lines: seq<seq<Byte>>)
    requires 0 <= r.start && 0 <= r.end
    ensures |lines| == 2
  {
    [Ascii("Content-Type: ") + partType, Ascii(ContentRange(r, size))]
  }

  predicate InBounds(ranges: seq<ByteRange>, size: nat) {
    forall i | 0 <= i < |ranges| :: 0 <= ranges[i].start <= ranges[i].end < size
  }

  function Slice(bytes: seq<Byte>, r: ByteRange): seq<Byte>
    requires 0 <= r.start <= r.end < |bytes|
  {
    bytes[r.start..r.end + 1]
  }

  /** The chunks pushed for the ranges, with the close delimiter. */
  function Chunks(bytes: seq<Byte>, ranges: seq<ByteRange>, boundary: seq<Byte>, partType: seq<Byte>): seq<seq<Byte>>
    requires InBounds(ranges, |bytes|)
  {
    if ranges == [] then [FirstNeedle(boundary) + [DASH, DASH]]
    else
      [PartHead(ranges[0], |bytes|, boundary, partType), Slice(bytes, ranges[0]), CRLF]
      + Chunks(bytes, ranges[1..], boundary, partType)
  }

  function PartHead(r: ByteRange, size: nat, boundary: seq<Byte>, partType: seq<Byte>): seq<Byte>
    requires 0 <= r.start && 0 <= r.end
  {
    FirstNeedle(boundary) + (CRLF + HeaderText(HeaderLines(r, size, partType)))
  }

  /** Collect the chunks of the body, then copy them into one buffer of their total length. */
  method PrintByteranges(bytes: seq<Byte>, ranges: seq<ByteRange>, boundary: seq<Byte>, partType: seq<Byte>)
    returns (flat: array<Byte>)
    requires InBounds(ranges, |bytes|)
    ensures fresh(flat) && flat[..] == Concat(Chunks(bytes, ranges, boundary, partType))
  {
    var chunks, total := CollectChunks(bytes, ranges, boundary, partType);
    flat := Flatten(chunks, total);
  }

  method CollectChunks(bytes: seq<Byte>, ranges: seq<ByteRange>, boundary: seq<Byte>, partType: seq<Byte>)
    returns (chunks: seq<seq<Byte>>, total: nat)
    requires InBounds(ranges, |bytes|)
    ensures chunks == Chunks(bytes, ranges, boundary, partType)
    ensures total == |Concat(chunks)|
  {
    hide PartHead, FirstNeedle, Chunks, Concat;
    ghost var all := Chunks(bytes, ranges, boundary, partType);
    chunks, total := [], 0;
    var i := 0;
    NothingPushed<Byte>();
    assert ranges[0..] == ranges;
    assert chunks + all == all;
    while i < |ranges|
      invariant 0 <= i <= |ranges|
      invariant total == |Concat(chunks)|
      invariant chunks + Chunks(bytes, ranges[i..], boundary, partType) == all
    {
      var r := ranges[i];
      var e := if r.end < |bytes| - 1 then r.end else |bytes| - 1;
      var head := PartHead(ByteRange(r.start, e), |bytes|, boundary, partType);
      var partBytes := bytes[r.start..e + 1];
      assert r == ByteRange(r.start, e);
      ChunksStep(chunks, bytes, ranges, boundary, partType, i);
      ConcatAppend(chunks, [head, partBytes, CRLF]);
      Concat3(head, partBytes, CRLF);
      chunks := chunks + [head, partBytes, CRLF];
      total := total + |head| + |partBytes| + |CRLF|;
      i := i + 1;
    }
    LastChunk(bytes, ranges[i..], boundary, partType);
    var close := FirstNeedle(boundary) + [DASH, DASH];
    ConcatSnoc(chunks, close);
    chunks := chunks + [close];
    total := total + |close|;
  }

  lemma NothingPushed<T>()
    ensures Concat<T>([]) == []
  {
  }

  lemma LastChunk(bytes: seq<Byte>, ranges: seq<ByteRange>, boundary: seq<Byte>, partType: seq<Byte>)
    requires ranges == []
    ensures Chunks(bytes, ranges, boundary, partType) == [FirstNeedle(boundary) + [DASH, DASH]]
  {
  }

  lemma Concat3(a: seq<Byte>, b: seq<Byte>, c: seq<Byte>)
    ensures Concat([a, b, c]) == a + (b + c)
  {
    assert [a, b, c][1..] == [b, c] && [b, c][1..] == [c] && [c][1..] == [];
    assert Concat([c]) == c + Concat<Byte>([]) == c;
    assert Concat([b, c]) == b + Concat([c]);
    assert Concat([a, b, c]) == a + Concat([b, c]);
  }

  lemma ChunksStep(before: seq<seq<Byte>>, bytes: seq<Byte>, ranges: seq<ByteRange>, boundary: seq<Byte>,
                   partType: seq<Byte>, i: nat)
    requires InBounds(ranges, |bytes|) && i < |ranges|
    ensures before + Chunks(bytes, ranges[i..], boundary, partType)
            == (before + [PartHead(ranges[i], |bytes|, boundary, partType), Slice(bytes, ranges[i]), CRLF])
               + Chunks(bytes, ranges[i + 1..], boundary, partType)
  {
    hide PartHead;
    assert ranges[i..][1..] == ranges[i + 1..];
  }

  // ----- reading back ---------------------------------------------------------------------

  /** The sections that the ranges stand for. */
  function Sections(bytes: seq<Byte>, ranges: seq<ByteRange>, partType: seq<Byte>): seq<Part>
    requires InBounds(ranges, |bytes|)
  {
    if ranges == [] then []
    else
      [Part(HeaderLines(ranges[0], |bytes|, partType), Slice(bytes, ranges[0]))]
      + Sections(bytes, ranges[1..], partType)
  }

  lemma TextOfSections(bytes: seq<Byte>, ranges: seq<ByteRange>, boundary: seq<Byte>, partType: seq<Byte>)
    requires InBounds(ranges, |bytes|)
    ensures TextBehind(Sections(bytes, ranges, partType), boundary, []) ==
            if ranges == [] then [DASH, DASH]
            else CRLF + (HeaderText(HeaderLines(ranges[0], |bytes|, partType))
                         + (Slice(bytes, ranges[0])
                            + (Delimiter(boundary) + TextBehind(Sections(bytes, ranges[1..], partType), boundary, []))))
  {
    hide HeaderLines, HeaderText;
    if ranges == [] {
      assert [DASH, DASH] + [] == [DASH, DASH];
    } else {
      var ps := Sections(bytes, ranges, partType);
      assert ps[1..] == Sections(bytes, ranges[1..], partType);
    }
  }

  /** What is printed is the text of the sections. */
  lemma {:induction false} ChunksText(bytes: seq<Byte>, ranges: seq<ByteRange>, boundary: seq<Byte>,
                                      partType: seq<Byte>)
    requires InBounds(ranges, |bytes|)
    ensures Concat(Chunks(bytes, ranges, boundary, partType))
            == MessageText(Sections(bytes, ranges, partType), boundary, [])
  {
    hide HeaderLines, HeaderText, TextBehind, Sections;
    TextOfSections(bytes, ranges, boundary, partType);
    if ranges == [] {
      assert Concat(Chunks(bytes, ranges, boundary, partType)) == FirstNeedle(boundary) + [DASH, DASH] + [];
    } else {
      var head := PartHead(ranges[0], |bytes|, boundary, partType);
      var slice := Slice(bytes, ranges[0]);
      var rest := Chunks(bytes, ranges[1..], boundary, partType);
      ConcatAppend([head, slice, CRLF], rest);
      Concat3(head, slice, CRLF);
      ChunksText(bytes, ranges[1..], boundary, partType);
      Regroup(FirstNeedle(boundary), CRLF, HeaderText(HeaderLines(ranges[0], |bytes|, partType)), slice,
              TextBehind(Sections(bytes, ranges[1..], partType), boundary, []));
      assert CRLF + FirstNeedle(boundary) == Delimiter(boundary);
    }
  }

  lemma Regroup(n: seq<Byte>, e: seq<Byte>, h: seq<Byte>, x: seq<Byte>, t: seq<Byte>)
    ensures ((n + (e + h)) + (x + e)) + (n + t) == n + (e + (h + (x + ((e + n) + t))))
  {
    calc {
      ((n + (e + h)) + (x + e)) + (n + t);
      n + ((e + h) + ((x + e) + (n + t)));
      { assert (e + h) + ((x + e) + (n + t)) == e + (h + ((x + e) + (n + t))); }
      n + (e + (h + ((x + e) + (n + t))));
      { assert (x + e) + (n + t) == x + ((e + n) + t); }
      n + (e + (h + (x + ((e + n) + t))));
    }
  }

  /** The header lines of every section fit the cap and hold no line feed. */
  ghost predicate GoodType(bytes: seq<Byte>, ranges: seq<ByteRange>, partType: seq<Byte>)
    requires InBounds(ranges, |bytes|)
  {
    && (forall i | 0 <= i < |partType| :: partType[i] != LF)
    && forall i | 0 <= i < |ranges| :: HeaderSize(HeaderLines(ranges[i], |bytes|, partType)) <= 8192
  }

  lemma LinesAreLines(r: ByteRange, size: nat, partType: seq<Byte>)
    requires 0 <= r.start && 0 <= r.end
    requires forall i | 0 <= i < |partType| :: partType[i] != LF
    ensures var lines := HeaderLines(r, size, partType); IsHeaderLine(lines[0]) && IsHeaderLine(lines[1])
  {
    hide ContentRange;
    var text := ContentRange(r, size);
    var line := Ascii(text);
    forall i | 0 <= i < |line| ensures line[i] != LF { assert line[i] == text[i] as int; assert text[i] != '\n'; }
  }

  lemma {:induction false} SectionsAre(bytes: seq<Byte>, ranges: seq<ByteRange>, partType: seq<Byte>)
    requires InBounds(ranges, |bytes|)
    ensures var ps := Sections(bytes, ranges, partType);
            |ps| == |ranges|
            && forall i | 0 <= i < |ps| ::
                 ps[i] == Part(HeaderLines(ranges[i], |bytes|, partType), Slice(bytes, ranges[i]))
  {
    hide HeaderLines;
    if ranges != [] { SectionsAre(bytes, ranges[1..], partType); }
  }

  lemma SectionsAreGood(bytes: seq<Byte>, ranges: seq<ByteRange>, partType: seq<Byte>)
    requires InBounds(ranges, |bytes|) && GoodType(bytes, ranges, partType)
    ensures forall p | p in Sections(bytes, ranges, partType) :: GoodHeaders(p)
  {
    hide HeaderLines, HeaderSize, Sections, IsHeaderLine;
    SectionsAre(bytes, ranges, partType);
    forall i | 0 <= i < |ranges| ensures GoodHeaders(Sections(bytes, ranges, partType)[i]) {
      LinesAreLines(ranges[i], |bytes|, partType);
    }
  }

  lemma {:induction false} AllNamed(ps: seq<Part>, classify: Classifier)
    requires forall lines :: !classify(lines).Nameless?
    ensures Named(ps, classify) == ps
  {
    if ps != [] { AllNamed(ps[1..], classify); }
  }

  /**
   The printed body of any accepted list of ranges, scanned with its own boundary, gives exactly the slices in
   order if and only if no slice holds a delimiter with a valid terminator.
   */
  lemma ByterangesReadBack(bytes: seq<Byte>, ranges: seq<ByteRange>, boundary: seq<Byte>, partType: seq<Byte>,
                           classify: Classifier, lim: Limits)
    requires ValidBoundary(boundary) && InBounds(ranges, |bytes|) && GoodType(bytes, ranges, partType)
    requires Fits(Sections(bytes, ranges, partType), classify, lim)
    requires forall lines :: !classify(lines).Nameless?
    ensures ParseMultipart(Concat(Chunks(bytes, ranges, boundary, partType)), boundary, classify, lim)
            == Message(Sections(bytes, ranges, partType), Done)
            <==> forall i | 0 <= i < |ranges| :: Clean(Slice(bytes, ranges[i]), Delimiter(boundary))
  {
    hide ParseMultipart, SectionsOf, MessageText, Fits, Named, Sections, Chunks, Clean, GoodType, GoodHeaders;
    var ps := Sections(bytes, ranges, partType);
    ChunksText(bytes, ranges, boundary, partType);
    SectionsAreGood(bytes, ranges, partType);
    SectionsAre(bytes, ranges, partType);
    var text := MessageText(ps, boundary, []);
    MessageReadBack(ps, boundary, []);
    LimitsDecide(text, boundary, classify, lim);
    if SectionsOf(text, boundary).Some? { AllNamed(SectionsOf(text, boundary).value, classify); }
    SlicesAreClean(bytes, ranges, partType, Delimiter(boundary));
  }

  lemma SlicesAreClean(bytes: seq<Byte>, ranges: seq<ByteRange>, partType: seq<Byte>, delim: seq<Byte>)
    requires InBounds(ranges, |bytes|)
    ensures AllClean(Sections(bytes, ranges, partType), delim)
            <==> forall i | 0 <= i < |ranges| :: Clean(Slice(bytes, ranges[i]), delim)
  {
    hide HeaderLines, Clean, Sections, Slice;
    SectionsAre(bytes, ranges, partType);
    var ps := Sections(bytes, ranges, partType);
    if AllClean(ps, delim) {
      forall i | 0 <= i < |ranges| ensures Clean(Slice(bytes, ranges[i]), delim) { assert ps[i] in ps; }
    }
  }
}
