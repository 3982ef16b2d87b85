/** The text of a multipart message, and what the scanner reads back from it. */
module MultipartText {
  import opened ByteSeqs
  import opened MultipartSpec
  import opened MultipartLaws
  import opened MultipartParts
  import opened MultipartLimits
  import opened Results

  const CRLF: seq<Byte> := [CR, LF]

  // ----- line ends ------------------------------------------------------------------------

  /** Spaces and tabs. */
  predicate IsPadding(p: seq<Byte>) { forall i | 0 <= i < |p| :: p[i] == 32 || p[i] == 9 }

  /** A delimiter is complete before at most 1024 bytes of padding and CR LF, a bare LF or a bare CR. */
  lemma PaddingAndLineEnd(pad: seq<Byte>, end: seq<Byte>, rest: seq<Byte>)
    requires IsPadding(pad) && (end == [13, 10] || end == [10] || (end == [13] && (rest == [] || rest[0] != 10)))
    ensures TerminatorOf(pad + end + rest)
            == if |pad| <= 1024 then Next(|pad| + |end|) else BadTerminator(InvalidDelimiter)
  {
    var s := pad + end + rest;
    PaddingIs(s, |pad|);
    assert s[|pad|] == end[0];
    if pad != [] { assert s[0] == pad[0]; }
  }

  /** Two dashes close; other bytes behind at most 1024 bytes of padding leave it incomplete, and so does the end. */
  lemma DashesAndOthers(pad: seq<Byte>, rest: seq<Byte>)
    requires IsPadding(pad) && |pad| <= 1024
    ensures TerminatorOf([45, 45] + rest) == Close
    ensures TerminatorOf(pad) == BadTerminator(TruncatedBody)
    ensures rest != [] && rest[0] !in [13, 10, 32, 9] && !(pad == [] && |rest| > 1 && rest[..2] == [45, 45]) ==>
              TerminatorOf(pad + rest) == NotDelimiter
  {
    PaddingIs(pad, |pad|);
    if pad != [] { assert (pad + rest)[0] == pad[0]; }
    if rest != [] && rest[0] !in [13, 10, 32, 9] {
      assert 13 in [13, 10, 32, 9] && 10 in [13, 10, 32, 9] && 32 in [13, 10, 32, 9] && 9 in [13, 10, 32, 9];
      PaddingIs(pad + rest, |pad|);
      if pad == [] && |rest| > 1 { assert pad + rest == rest && rest[..2] == [rest[0], rest[1]]; }
    }
  }

  // ----- bodies ---------------------------------------------------------------------------

  /** No delimiter inside `x`, which stands before a line end, has a valid terminator. */
  ghost predicate Clean(x: seq<Byte>, delim: seq<Byte>) {
    forall k: nat | Occurs(delim, x, k) :: TerminatorOf(x[k + |delim|..] + CRLF) == NotDelimiter
  }

  /** A line end decides every terminator before it. */
  lemma TerminatorBeforeLineEnd(y: seq<Byte>, z: seq<Byte>)
    ensures TerminatorOf(y + CRLF).NotDelimiter? <==> TerminatorOf(y + CRLF + z).NotDelimiter?
  {
    var s := y + CRLF;
    var t := s + z;
    assert t[0] == s[0] && t[1] == s[1];
    var p := Padding(s);
    assert s[|y|] == CR;
    assert p <= |y|;
    assert forall k | 0 <= k <= p :: t[k] == s[k];
    PaddingIs(t, p);
  }

  /** Inside `x`, delimiters of the text are those of `x` alone. */
  lemma DelimiterInSlice(x: seq<Byte>, t: seq<Byte>, boundary: seq<Byte>, k: nat)
    requires ValidBoundary(boundary) && k < |x|
    ensures var d := Delimiter(boundary);
            DelimiterAt(x + (d + t), d, k) <==>
            Occurs(d, x, k) && TerminatorOf(x[k + |d|..] + CRLF) != NotDelimiter
  {
    hide TerminatorOf;
    var d := Delimiter(boundary);
    var s := x + (d + t);
    OccursShift(d, s, k, 0);
    assert Occurs(d, s, |x|) by { assert s[|x|..|x| + |d|] == d; }
    if Occurs(d, s, k) {
      OccurrencesDisjoint(boundary, s, k, |x|);
      var y := x[k + |d|..];
      assert s[k..][|d|..] == s[k + |d|..];
      assert s[k + |d|..] == y + (d + t);
      assert d + t == CRLF + (FirstNeedle(boundary) + t);
      assert y + (d + t) == y + CRLF + (FirstNeedle(boundary) + t);
      TerminatorBeforeLineEnd(y, FirstNeedle(boundary) + t);
      OccursInPrefix(d, x, d + t, k);
    } else if k + |d| <= |x| {
      OccursInPrefix(d, x, d + t, k);
    }
  }

  predicate IsTail(t: seq<Byte>) { |t| >= 2 && (t[..2] == [DASH, DASH] || t[..2] == CRLF) }

  /** What stands after a boundary ends the body before it. */
  lemma TailTerminates(t: seq<Byte>)
    requires IsTail(t)
    ensures TerminatorOf(t) == if t[..2] == CRLF then Next(2) else Close
  {
    assert t[0] == t[..2][0] && t[1] == t[..2][1];
  }

  /** The first delimiter in the text stands behind a clean slice, and inside any other. */
  lemma FirstDelimiterBehindSlice(x: seq<Byte>, t: seq<Byte>, boundary: seq<Byte>) returns (n: nat)
    requires ValidBoundary(boundary) && IsTail(t)
    ensures var d := Delimiter(boundary);
            var s := x + (d + t);
            && n <= |x| && DelimiterAt(s, d, n) && (forall k: nat | k < n :: !DelimiterAt(s, d, k))
            && (n == |x| <==> Clean(x, d))
  {
    hide TerminatorOf, DelimiterAt, Clean, IsTail;
    var d := Delimiter(boundary);
    var s := x + (d + t);
    DelimiterBehind(x, t, d);
    n := FirstDelimiter(s, d, 0);
    forall k: nat | k < |x|
      ensures DelimiterAt(s, d, k) <==> Occurs(d, x, k) && TerminatorOf(x[k + |d|..] + CRLF) != NotDelimiter
    {
      DelimiterInSlice(x, t, boundary, k);
    }
    CleanIs(x, d);
  }

  lemma DelimiterBehind(x: seq<Byte>, t: seq<Byte>, delim: seq<Byte>)
    requires IsTail(t)
    ensures DelimiterAt(x + (delim + t), delim, |x|)
  {
    TailTerminates(t);
    hide TerminatorOf;
    assert (x + (delim + t))[|x|..] == delim + t;
    assert (delim + t)[|delim|..] == t;
  }

  lemma CleanIs(x: seq<Byte>, delim: seq<Byte>)
    requires delim != []
    ensures Clean(x, delim) <==>
            forall k: nat | k < |x| :: Occurs(delim, x, k) ==> TerminatorOf(x[k + |delim|..] + CRLF) == NotDelimiter
  {
    hide TerminatorOf;
  }

  /** A clean slice is read back whole; any other is cut short. */
  lemma SliceReadBack(x: seq<Byte>, t: seq<Byte>, boundary: seq<Byte>)
    requires ValidBoundary(boundary) && IsTail(t)
    ensures var d := Delimiter(boundary);
            var b := BodyOf(x + (d + t), d);
            if Clean(x, d) then b == Body(x, t[..2] != CRLF, t[2..])
            else b.Body? ==> |b.content| < |x|
  {
    hide TerminatorOf, BodyOf, Clean, AtDelimiter;
    var d := Delimiter(boundary);
    var s := x + (d + t);
    TailTerminates(t);
    var n := FirstDelimiterBehindSlice(x, t, boundary);
    BodyEndsAtFirstDelimiter(s, d, n);
    assert s[|x| + |d|..] == t;
    assert s[..|x|] == x;
  }

  // ----- headers --------------------------------------------------------------------------

  predicate IsHeaderLine(l: seq<Byte>) { l != [] && forall i | 0 <= i < |l| :: l[i] != LF }

  lemma LineReadBack(l: seq<Byte>, rest: seq<Byte>)
    requires forall i | 0 <= i < |l| :: l[i] != LF
    ensures FirstLine(l + CRLF + rest) == Line(l, rest)
  {
    var s := l + CRLF + rest;
    var n := |l| + 1;
    assert s[n] == LF && s[|l|] == CR;
    assert s[n..n + 1] == [LF];
    forall i: nat | i < n ensures !Occurs([LF], s, i) { assert s[i..i + 1] == [s[i]]; }
    FirstIsUnique([LF], s, n);
    assert s[..n] == l + [CR];
    assert s[n + 1..] == rest;
  }

  /** A line may end with a bare LF, and the last one with the input; one CR before either is not part of it. */
  lemma LineEnds(l: seq<Byte>, rest: seq<Byte>)
    requires forall i | 0 <= i < |l| :: l[i] != LF
    ensures FirstLine(l + [13, 10] + rest) == Line(l, rest)
    ensures l == [] || l[|l| - 1] != 13 ==> FirstLine(l + [10] + rest) == Line(l, rest)
    ensures FirstLine(l + [13]) == Line(l, [])
    ensures l == [] ==> FirstLine(l) == EndOfInput
    ensures l != [] && l[|l| - 1] != 13 ==> FirstLine(l) == Line(l, [])
  {
    LineReadBack(l, rest);
    LineAtFeed(l, rest);
    NoFeed(l);
    NoFeed(l + [13]);
    assert (l + [13])[..|l|] == l;
  }

  lemma LineAtFeed(l: seq<Byte>, rest: seq<Byte>)
    requires forall i | 0 <= i < |l| :: l[i] != LF
    ensures FirstLine(l + [10] + rest) == Line(StripCR(l), rest)
  {
    var s := l + [10] + rest;
    assert s[|l|..|l| + 1] == [LF];
    forall i: nat | i < |l| ensures !Occurs([LF], s, i) { assert s[i..i + 1] == [s[i]]; }
    FirstIsUnique([LF], s, |l|);
    assert s[..|l|] == l && s[|l| + 1..] == rest;
  }

  lemma NoFeed(s: seq<Byte>)
    requires forall i | 0 <= i < |s| :: s[i] != LF
    ensures FirstLine(s) == if s == [] then EndOfInput else Line(StripCR(s), [])
  {
    forall i: nat ensures !Occurs([LF], s, i) { if i < |s| { assert s[i..i + 1] == [s[i]]; } }
    FirstIsUnique([LF], s, -1);
  }

  /** Header lines and the blank line. */
  function HeaderText(lines: seq<seq<Byte>>): seq<Byte> {
    if lines == [] then CRLF else lines[0] + CRLF + HeaderText(lines[1..])
  }

  /** What header lines and the blank line take of the cap. */
  function HeaderSize(lines: seq<seq<Byte>>): nat {
    if lines == [] then 2 else |lines[0]| + 2 + HeaderSize(lines[1..])
  }

  /** Header lines are read back exactly when they and the blank line take at most 8192 bytes. */
  lemma {:induction false} HeadersReadBack(lines: seq<seq<Byte>>, rest: seq<Byte>, used: nat, before: seq<seq<Byte>>)
    requires forall i | 0 <= i < |lines| :: IsHeaderLine(lines[i])
    ensures HeadersOf(HeaderText(lines) + rest, used, before)
            == if used + HeaderSize(lines) <= 8192 then HeaderBlock(before + lines, rest)
               else BadHeaders(HeadersTooLarge)
    decreases |lines|
  {
    hide FirstLine;
    if lines == [] {
      LineReadBack([], rest);
      assert [] + CRLF + rest == HeaderText(lines) + rest;
      assert before + lines == before;
    } else {
      var more := HeaderText(lines[1..]) + rest;
      assert HeaderText(lines) + rest == lines[0] + CRLF + more;
      LineReadBack(lines[0], more);
      HeadersReadBack(lines[1..], rest, used + |lines[0]| + 2, before + [lines[0]]);
      assert before + [lines[0]] + lines[1..] == before + lines;
    }
  }

  // ----- messages -------------------------------------------------------------------------

  /** The text behind a `--boundary`: the sections still to come, the close delimiter and an epilogue. */
  function TextBehind(ps: seq<Part>, boundary: seq<Byte>, epilogue: seq<Byte>): seq<Byte> {
    if ps == [] then [DASH, DASH] + epilogue
    else
      CRLF + (HeaderText(ps[0].lines)
              + (ps[0].content + (Delimiter(boundary) + TextBehind(ps[1..], boundary, epilogue))))
  }

  function MessageText(ps: seq<Part>, boundary: seq<Byte>, epilogue: seq<Byte>): seq<Byte> {
    FirstNeedle(boundary) + TextBehind(ps, boundary, epilogue)
  }

  /** The headers are header lines within the cap. */
  predicate GoodHeaders(p: Part) {
    HeaderSize(p.lines) <= 8192 && forall i | 0 <= i < |p.lines| :: IsHeaderLine(p.lines[i])
  }

  ghost predicate AllClean(ps: seq<Part>, delim: seq<Byte>) {
    forall p | p in ps :: Clean(p.content, delim)
  }

  lemma CleanStep(ps: seq<Part>, delim: seq<Byte>)
    requires ps != []
    ensures AllClean(ps, delim) <==> Clean(ps[0].content, delim) && AllClean(ps[1..], delim)
  {
    hide Clean;
    assert forall p :: p in ps <==> p == ps[0] || p in ps[1..];
  }

  lemma TextBehindIsTail(ps: seq<Part>, boundary: seq<Byte>, epilogue: seq<Byte>)
    ensures var t := TextBehind(ps, boundary, epilogue); IsTail(t) && (t[..2] == CRLF <==> ps != [])
    ensures ps != [] ==>
              TextBehind(ps, boundary, epilogue)[2..] ==
              HeaderText(ps[0].lines)
              + (ps[0].content + (Delimiter(boundary) + TextBehind(ps[1..], boundary, epilogue)))
  {
    hide HeaderText;
    var t := TextBehind(ps, boundary, epilogue);
    assert t[0] == if ps == [] then DASH else CR;
    assert t[..2] == if ps == [] then [DASH, DASH] else CRLF;
  }

  /** One section is read back with what follows it, or its body is cut short. */
  lemma SectionReadBack(ps: seq<Part>, boundary: seq<Byte>, epilogue: seq<Byte>)
    requires ValidBoundary(boundary) && ps != [] && GoodHeaders(ps[0])
    ensures var d := Delimiter(boundary);
            var r := SectionsFrom(TextBehind(ps, boundary, epilogue)[2..], d);
            if Clean(ps[0].content, d) then
              r == Before(ps[0], if ps[1..] == [] then Some([])
                                 else SectionsFrom(TextBehind(ps[1..], boundary, epilogue)[2..], d))
            else r.Some? ==> r.value != [] && r.value[0] != ps[0]
  {
    hide BodyOf, HeadersOf, HeaderText, Clean, SectionsFrom, TextBehind, IsHeaderLine;
    var p, t := ps[0], TextBehind(ps[1..], boundary, epilogue);
    var body := p.content + (Delimiter(boundary) + t);
    TextBehindIsTail(ps, boundary, epilogue);
    TextBehindIsTail(ps[1..], boundary, epilogue);
    HeadersReadBack(p.lines, body, 0, []);
    assert [] + p.lines == p.lines;
    SliceReadBack(p.content, t, boundary);
    SectionsFromStep(HeaderText(p.lines) + body, Delimiter(boundary), p.lines, body);
    assert Part(p.lines, p.content) == p;
  }

  lemma SectionsFromStep(s: seq<Byte>, delim: seq<Byte>, lines: seq<seq<Byte>>, body: seq<Byte>)
    requires HeadersOf(s, 0, []) == HeaderBlock(lines, body)
    ensures var b := BodyOf(body, delim);
            SectionsFrom(s, delim) ==
            if b.BadBody? then None
            else Before(Part(lines, b.content), if b.closed then Some([]) else SectionsFrom(b.rest, delim))
  {
    hide HeadersOf, BodyOf, Before;
  }

  lemma BeforeIs(p: Part, rest: Option<seq<Part>>, ps: seq<Part>)
    requires ps != [] && ps[0] == p
    ensures Before(p, rest) == Some(ps) <==> rest == Some(ps[1..])
  {
    assert ps == [p] + ps[1..];
    if rest.Some? { assert ([p] + rest.value)[1..] == rest.value; }
  }

  lemma {:induction false} BehindReadBack(ps: seq<Part>, boundary: seq<Byte>, epilogue: seq<Byte>)
    requires ValidBoundary(boundary) && ps != [] && forall p | p in ps :: GoodHeaders(p)
    ensures SectionsFrom(TextBehind(ps, boundary, epilogue)[2..], Delimiter(boundary)) == Some(ps)
            <==> AllClean(ps, Delimiter(boundary))
    decreases |ps|
  {
    hide SectionsFrom, TextBehind, Clean, AllClean, Before, GoodHeaders;
    var d := Delimiter(boundary);
    TextBehindIsTail(ps, boundary, epilogue);
    TextBehindIsTail(ps[1..], boundary, epilogue);
    SectionReadBack(ps, boundary, epilogue);
    CleanStep(ps, d);
    if ps[1..] == [] {
      NoneAreClean(d);
      BeforeIs(ps[0], Some([]), ps);
    } else {
      BehindReadBack(ps[1..], boundary, epilogue);
      BeforeIs(ps[0], SectionsFrom(TextBehind(ps[1..], boundary, epilogue)[2..], d), ps);
    }
  }

  lemma NoneAreClean(delim: seq<Byte>)
    ensures AllClean([], delim)
  {
  }

  /** The text of any sections is read back as exactly these, if and only if no body holds a complete delimiter. */
  lemma MessageReadBack(ps: seq<Part>, boundary: seq<Byte>, epilogue: seq<Byte>)
    requires ValidBoundary(boundary) && forall p | p in ps :: GoodHeaders(p)
    ensures SectionsOf(MessageText(ps, boundary, epilogue), boundary) == Some(ps)
            <==> AllClean(ps, Delimiter(boundary))
  {
    hide SectionsFrom, TextBehind, AllClean, TerminatorOf, GoodHeaders;
    var t := TextBehind(ps, boundary, epilogue);
    TextBehindIsTail(ps, boundary, epilogue);
    TailTerminates(t);
    SkipToText(FirstNeedle(boundary), t);
    NoneAreClean(Delimiter(boundary));
    if ps != [] { BehindReadBack(ps, boundary, epilogue); }
  }

  lemma SkipToText(needle: seq<Byte>, t: seq<Byte>)
    requires needle != [] && (TerminatorOf(t).Close? || TerminatorOf(t).Next?)
    ensures SkipPreamble(needle + t, needle)
            == if TerminatorOf(t).Close? then NoParts else FirstPart(t[TerminatorOf(t).taken..])
  {
    hide TerminatorOf, IndexOf;
    assert Occurs(needle, needle + t, 0) by { assert (needle + t)[0..0 + |needle|] == needle; }
    FirstIsUnique(needle, needle + t, 0);
    assert (needle + t)[0 + |needle|..] == t;
  }

  /** The text of sections whose bodies hold no complete delimiter, parsed within limits: the named ones if they fit,
      status 413 otherwise. */
  lemma MessageWithin(ps: seq<Part>, boundary: seq<Byte>, epilogue: seq<Byte>, classify: Classifier, lim: Limits)
    requires ValidBoundary(boundary) && forall p | p in ps :: GoodHeaders(p)
    requires AllClean(ps, Delimiter(boundary))
    ensures var m := ParseMultipart(MessageText(ps, boundary, epilogue), boundary, classify, lim);
            if Fits(ps, classify, lim) then m == Message(Named(ps, classify), Done) else m.end == Failed(Status413)
  {
    hide SectionsOf, ParseMultipart, MessageText, Fits, Named, AllClean, GoodHeaders;
    MessageReadBack(ps, boundary, epilogue);
    LimitsDecide(MessageText(ps, boundary, epilogue), boundary, classify, lim);
  }

  // ----- a file larger than the field cap -------------------------------------------------

  /** `--b`, a header line `h`, a body of four bytes and `--b--`. */
  const UPLOAD: seq<Byte> :=
    [45, 45, 98, 13, 10, 104, 13, 10, 13, 10, 97, 98, 99, 100, 13, 10, 45, 45, 98, 45, 45]

  lemma UploadText()
    ensures UPLOAD == MessageText([Part([[104]], [97, 98, 99, 100])], [98], [])
  {
    hide *;
    UploadHeaders();
    var p := Part([[104]], [97, 98, 99, 100]);
    TextOfOne(p, [98]);
    assert [45, 45] + [98] == [45, 45, 98] && [13, 10, 45, 45] + [98] == [13, 10, 45, 45, 98];
    UploadBytes();
  }

  lemma UploadBytes()
    ensures [45, 45, 98] + ([13, 10] + ([104, 13, 10, 13, 10] + ([97, 98, 99, 100]
                                                                 + ([13, 10, 45, 45, 98] + [45, 45]))))
            == UPLOAD
  {
  }

  lemma UploadHeaders()
    ensures HeaderText([[104]]) == [104, 13, 10, 13, 10]
  {
    assert [[104]][1..] == [] && HeaderText([]) == [13, 10];
  }

  lemma TextOfOne(p: Part, boundary: seq<Byte>)
    ensures MessageText([p], boundary, []) ==
            ([45, 45] + boundary)
            + ([13, 10] + (HeaderText(p.lines) + (p.content + (([13, 10, 45, 45] + boundary) + [45, 45]))))
  {
    hide HeaderText;
    assert [p][1..] == [];
    assert TextBehind([], boundary, []) == [45, 45];
  }

  lemma UploadIsGood()
    ensures ValidBoundary([98]) && GoodHeaders(Part([[104]], [97, 98, 99, 100]))
    ensures AllClean([Part([[104]], [97, 98, 99, 100])], Delimiter([98]))
  {
    assert [[104]][1..] == [];
    var x: seq<Byte> := [97, 98, 99, 100];
    forall k: nat ensures !Occurs(Delimiter([98]), x, k) {}
  }

  /** When one part fits. */
  lemma OnePartFits(p: Part, classify: Classifier, lim: Limits)
    requires p.content != [] && !classify(p.lines).Nameless?
    ensures Named([p], classify) == [p]
    ensures Fits([p], classify, lim) <==>
            && |p.content| <= (if classify(p.lines).File? then lim.maxFileSize else lim.maxFieldSize)
            && 1 <= lim.maxFields && (classify(p.lines).File? ==> 1 <= lim.maxFiles)
            && |p.content| <= lim.maxTotalBytes
  {
    assert [p][1..] == [] && p in [p];
    assert Named([p], classify) == [p] + Named([], classify);
    assert Files([p], classify) == (if classify(p.lines).File? then [p] else []) + Files([], classify);
    assert Size([p]) == |p.content|;
  }

  /** Four bytes in a file with a field cap of three are delivered; in a field, or with a file cap of three, they are
      refused. */
  lemma FileAboveFieldCap(classify: Classifier)
    ensures classify([[104]]) == File ==>
              && ParseMultipart(UPLOAD, [98], classify, Limits(10, 1, 1, 3, 100))
                 == Message([Part([[104]], [97, 98, 99, 100])], Done)
              && ParseMultipart(UPLOAD, [98], classify, Limits(3, 1, 1, 10, 100)).end == Failed(Status413)
    ensures classify([[104]]) == Field ==>
              && ParseMultipart(UPLOAD, [98], classify, Limits(10, 1, 1, 3, 100)).end == Failed(Status413)
              && ParseMultipart(UPLOAD, [98], classify, Limits(3, 1, 1, 10, 100))
                 == Message([Part([[104]], [97, 98, 99, 100])], Done)
  {
    hide *;
    UploadText();
    UploadIsGood();
    if !classify([[104]]).Nameless? {
      var p := Part([[104]], [97, 98, 99, 100]);
      OnePartFits(p, classify, Limits(10, 1, 1, 3, 100));
      OnePartFits(p, classify, Limits(3, 1, 1, 10, 100));
      MessageWithin([p], [98], [], classify, Limits(10, 1, 1, 3, 100));
      MessageWithin([p], [98], [], classify, Limits(3, 1, 1, 10, 100));
    }
  }
}
