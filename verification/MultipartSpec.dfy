/**
 What a multipart body means, on the whole byte sequence at once. The streaming scanner of
 MultipartScanner is proved to compute these functions whatever the chunking of the stream.
 */
module MultipartSpec {
  import opened ByteSeqs

  const CR: Byte := 13
  const LF: Byte := 10
  const DASH: Byte := 45
  const SPACE: Byte := 32
  const TAB: Byte := 9
  const MAX_TRANSPORT_PADDING := 1024
  const MAX_PART_HEADERS := 8192

  /** The UTF-8 bytes of a boundary of 1 to 70 characters without control characters. */
  predicate ValidBoundary(boundary: seq<Byte>) {
    0 < |boundary| <= 280 && forall i | 0 <= i < |boundary| :: boundary[i] >= 32 && boundary[i] != 127
  }

  function FirstNeedle(boundary: seq<Byte>): seq<Byte> { [DASH, DASH] + boundary }

  function Delimiter(boundary: seq<Byte>): seq<Byte> { [CR, LF, DASH, DASH] + boundary }

  /** The reasons for status 400. */
  datatype BadRequest = InvalidDelimiter | TruncatedBody | HeadersTooLarge

  // ----- delimiter terminators ------------------------------------------------------------

  /** What follows a `--boundary` match: `Next(n)` takes `n` bytes of padding and line end. */
  datatype Terminator = Close | Next(taken: nat) | NotDelimiter | BadTerminator(error: BadRequest)

  /** Number of leading spaces and tabs. */
  function Padding(s: seq<Byte>): (n: nat)
    ensures n <= |s|
    ensures n < |s| ==> s[n] != SPACE && s[n] != TAB
    ensures forall i | 0 <= i < n :: s[i] == SPACE || s[i] == TAB
  {
    if s != [] && (s[0] == SPACE || s[0] == TAB) then 1 + Padding(s[1..]) else 0
  }

  lemma {:induction false} PaddingIs(s: seq<Byte>, n: nat)
    requires n <= |s|
    requires n < |s| ==> s[n] != SPACE && s[n] != TAB
    requires forall i | 0 <= i < n :: s[i] == SPACE || s[i] == TAB
    ensures Padding(s) == n
  {
    if n > 0 { PaddingIs(s[1..], n - 1); }
  }

  function TerminatorOf(s: seq<Byte>): (t: Terminator)
    ensures t.Close? ==> |s| >= 2
    ensures t.Next? ==> 0 < t.taken <= |s|
  {
    if |s| >= 2 && s[0] == DASH && s[1] == DASH then Close
    else
      var p := Padding(s);
      if p > MAX_TRANSPORT_PADDING then BadTerminator(InvalidDelimiter)
      else if p == |s| then BadTerminator(TruncatedBody)
      else if s[p] != CR && s[p] != LF then NotDelimiter
      else if s[p] == CR && p + 1 < |s| && s[p + 1] == LF then Next(p + 2)
      else Next(p + 1)
  }

  // ----- preamble -------------------------------------------------------------------------

  datatype Preamble = NoParts | FirstPart(rest: seq<Byte>) | BadPreamble(error: BadRequest)

  /** Everything up to the first `--boundary` whose terminator is valid is skipped; a false match is
      stepped over whole. A body without any delimiter has no parts. */
  function SkipPreamble(s: seq<Byte>, needle: seq<Byte>): Preamble
    requires needle != []
    decreases |s|
  {
    var i := IndexOf(needle, s);
    if i < 0 then NoParts
    else
      var after := s[i + |needle|..];
      match TerminatorOf(after)
      case Close => NoParts
      case Next(taken) => FirstPart(after[taken..])
      case NotDelimiter => SkipPreamble(after, needle)
      case BadTerminator(e) => BadPreamble(e)
  }

  lemma PreambleAfterDrop(s: seq<Byte>, needle: seq<Byte>, d: nat)
    requires needle != [] && d <= |s|
    requires forall i: nat | i < d :: !Occurs(needle, s, i)
    ensures SkipPreamble(s, needle) == SkipPreamble(s[d..], needle)
  {
    hide TerminatorOf;
    IndexOfIsFirst(needle, s);
    FirstAfterDrop(needle, s, d);
    var i := IndexOf(needle, s);
    if i >= 0 {
      assert s[d..][i - d + |needle|..] == s[i + |needle|..];
    }
  }

  // ----- part headers ---------------------------------------------------------------------

  function StripCR(line: seq<Byte>): seq<Byte> {
    if line != [] && line[|line| - 1] == CR then line[..|line| - 1] else line
  }

  datatype Line = Line(bytes: seq<Byte>, rest: seq<Byte>) | EndOfInput

  function FirstLine(s: seq<Byte>): (r: Line)
    ensures r.Line? ==> |r.rest| < |s|
    ensures r.EndOfInput? <==> s == []
  {
    var k := IndexOf([LF], s);
    if k >= 0 then Line(StripCR(s[..k]), s[k + 1..])
    else if s == [] then EndOfInput
    else Line(StripCR(s), [])
  }

  datatype HeaderBlock = HeaderBlock(lines: seq<seq<Byte>>, rest: seq<Byte>) | BadHeaders(error: BadRequest)

  /** The header lines up to the blank line; `used` bytes of the cap are already spent. */
  function HeadersOf(s: seq<Byte>, used: nat, lines: seq<seq<Byte>>): (r: HeaderBlock)
    ensures r.HeaderBlock? ==> |r.rest| < |s|
    decreases |s|
  {
    match FirstLine(s)
    case EndOfInput => BadHeaders(TruncatedBody)
    case Line(line, rest) =>
      if used + |line| + 2 > MAX_PART_HEADERS then BadHeaders(HeadersTooLarge)
      else if line == [] then HeaderBlock(lines, rest)
      else HeadersOf(rest, used + |line| + 2, lines + [line])
  }

  // ----- part bodies ----------------------------------------------------------------------

  /** A body and what follows its delimiter; `closed` when that delimiter ends the whole message. */
  datatype Body = Body(content: seq<Byte>, closed: bool, rest: seq<Byte>) | BadBody(error: BadRequest)

  function Prepend(a: seq<Byte>, b: Body): Body {
    if b.Body? then b.(content := a + b.content) else b
  }

  /** The delimiter stands at the start of `s` and its terminator makes it one. */
  predicate AtDelimiter(s: seq<Byte>, delim: seq<Byte>) {
    Occurs(delim, s, 0) && TerminatorOf(s[|delim|..]) != NotDelimiter
  }

  /** The body ends at the first delimiter with a valid terminator: walk byte by byte until there. */
  function BodyOf(s: seq<Byte>, delim: seq<Byte>): (r: Body)
    ensures r.Body? ==> |r.rest| <= |s|
    decreases |s|
  {
    if AtDelimiter(s, delim) then
      var after := s[|delim|..];
      match TerminatorOf(after)
      case Close => Body([], true, after[2..])
      case Next(taken) => Body([], false, after[taken..])
      case BadTerminator(e) => BadBody(e)
      case NotDelimiter => BadBody(TruncatedBody)
    else if s == [] then BadBody(TruncatedBody)
    else Prepend([s[0]], BodyOf(s[1..], delim))
  }

  /** CR stands only at the head of the delimiter, so two of its occurrences never overlap. */
  lemma OccurrencesDisjoint(boundary: seq<Byte>, s: seq<Byte>, i: nat, j: nat)
    requires ValidBoundary(boundary)
    requires Occurs(Delimiter(boundary), s, i) && Occurs(Delimiter(boundary), s, j)
    requires i < j
    ensures i + |Delimiter(boundary)| <= j
  {
    var d := Delimiter(boundary);
    forall k | i < k < i + |d| ensures s[k] != CR {
      assert s[i..i + |d|][k - i] == d[k - i];
    }
    assert s[j..j + |d|][0] == d[0];
    assert s[j] == CR;
  }

  /** Where no delimiter starts, bytes are content. */
  lemma {:induction false} BodyAfterContent(s: seq<Byte>, delim: seq<Byte>, n: nat)
    requires n <= |s|
    requires forall i: nat | i < n :: !AtDelimiter(s[i..], delim)
    ensures BodyOf(s, delim) == Prepend(s[..n], BodyOf(s[n..], delim))
  {
    hide AtDelimiter, TerminatorOf;
    if n == 0 {
      assert s[0..] == s;
      var b := BodyOf(s, delim);
      if b.Body? { assert [] + b.content == b.content; }
    } else {
      assert s[0..] == s;
      forall i: nat | i < n - 1 ensures !AtDelimiter(s[1..][i..], delim) {
        assert s[1..][i..] == s[i + 1..];
      }
      BodyAfterContent(s[1..], delim, n - 1);
      assert s[1..][n - 1..] == s[n..];
      var b := BodyOf(s[n..], delim);
      if b.Body? {
        assert [s[0]] + (s[1..][..n - 1] + b.content) == s[..n] + b.content;
      }
    }
  }

  lemma OnlyMatch(boundary: seq<Byte>, s: seq<Byte>, i: nat, k: nat)
    requires ValidBoundary(boundary)
    requires IsFirst(Delimiter(boundary), s, i)
    requires k < i + |Delimiter(boundary)|
    ensures Occurs(Delimiter(boundary), s, k) ==> k == i
  {
    if i < k && Occurs(Delimiter(boundary), s, k) { OccurrencesDisjoint(boundary, s, i, k); }
  }

  /** A delimiter match with an invalid terminator is content to its last byte. */
  lemma BodyAfterFalseMatch(boundary: seq<Byte>, s: seq<Byte>, i: nat)
    requires ValidBoundary(boundary)
    requires IndexOf(Delimiter(boundary), s) == i
    requires TerminatorOf(s[i + |Delimiter(boundary)|..]) == NotDelimiter
    ensures var d := Delimiter(boundary);
            BodyOf(s, d) == Prepend(s[..i + |d|], BodyOf(s[i + |d|..], d))
  {
    hide TerminatorOf, BodyOf;
    var d := Delimiter(boundary);
    IndexOfIsFirst(d, s);
    forall k: nat | k < i + |d| ensures !AtDelimiter(s[k..], d) {
      OccursShift(d, s, k, 0);
      OnlyMatch(boundary, s, i, k);
      if k == i { assert s[k..][|d|..] == s[i + |d|..]; }
    }
    BodyAfterContent(s, d, i + |d|);
  }

  /** At the first match, a valid terminator ends the body there. */
  lemma BodyAtFirstMatch(s: seq<Byte>, delim: seq<Byte>, i: nat)
    requires delim != [] && IndexOf(delim, s) == i
    requires TerminatorOf(s[i + |delim|..]) != NotDelimiter
    ensures var after := s[i + |delim|..];
            BodyOf(s, delim) ==
            match TerminatorOf(after)
            case Close => Body(s[..i], true, after[2..])
            case Next(taken) => Body(s[..i], false, after[taken..])
            case BadTerminator(e) => BadBody(e)
            case NotDelimiter => BadBody(TruncatedBody)
  {
    hide TerminatorOf;
    IndexOfIsFirst(delim, s);
    forall k: nat | k < i ensures !AtDelimiter(s[k..], delim) {
      OccursShift(delim, s, k, 0);
    }
    BodyAfterContent(s, delim, i);
    OccursShift(delim, s, i, 0);
    assert s[i..][|delim|..] == s[i + |delim|..];
    assert s[..i] + [] == s[..i];
  }

  /** Without any match the body never ends. */
  lemma BodyWithoutMatch(s: seq<Byte>, delim: seq<Byte>)
    requires IndexOf(delim, s) < 0
    ensures BodyOf(s, delim) == BadBody(TruncatedBody)
  {
    IndexOfIsFirst(delim, s);
    forall k: nat | k < |s| ensures !AtDelimiter(s[k..], delim) {
      OccursShift(delim, s, k, 0);
    }
    BodyAfterContent(s, delim, |s|);
    OccursShift(delim, s, |s|, 0);
    assert s[|s|..] == [];
  }

  // ----- how much of a failing body is emitted --------------------------------------------

  /**
   A body that fails has been emitted in part. The emitted length depends on the chunking: at a match
   whose terminator is invalid, bytes before the match have been emitted only if they left the buffer
   before the match was complete. `Emitted(s, delim, false)` is the least, `Emitted(s, delim, true)`
   the greatest length; in a body that just stops they are equal.
   */
  function Emitted(s: seq<Byte>, delim: seq<Byte>, most: bool): nat
    requires delim != []
    decreases |s|
  {
    var i := IndexOf(delim, s);
    if i < 0 then if |s| > |delim| then |s| - |delim| else 0
    else
      match TerminatorOf(s[i + |delim|..])
      case NotDelimiter => i + |delim| + Emitted(s[i + |delim|..], delim, most)
      case _ => if most && i > 0 then i - 1 else 0
  }

  lemma {:induction false} EmittedOrder(s: seq<Byte>, delim: seq<Byte>)
    requires delim != []
    ensures Emitted(s, delim, false) <= Emitted(s, delim, true)
    decreases |s|
  {
    hide TerminatorOf;
    var i := IndexOf(delim, s);
    if i >= 0 && TerminatorOf(s[i + |delim|..]).NotDelimiter? {
      EmittedOrder(s[i + |delim|..], delim);
    }
  }

  /** Emitting `n` bytes of which none can start a delimiter keeps within both bounds. */
  lemma EmittedAfterContent(s: seq<Byte>, delim: seq<Byte>, n: nat)
    requires delim != [] && n + |delim| <= |s|
    requires IndexOf(delim, s) < 0 || IndexOf(delim, s) > n
    ensures Emitted(s, delim, false) <= n + Emitted(s[n..], delim, false)
    ensures IndexOf(delim, s) < 0 ==> Emitted(s, delim, false) == n + Emitted(s[n..], delim, false)
    ensures n + Emitted(s[n..], delim, true) == Emitted(s, delim, true)
  {
    hide TerminatorOf, IndexOf, Emitted;
    var i := IndexOf(delim, s);
    FirstAfterShortDrop(delim, s, n);
    if i < 0 {
      EmittedWithoutMatch(s, delim);
      EmittedWithoutMatch(s[n..], delim);
    } else {
      DropDrop(s, n, i + |delim|);
      var after := s[i + |delim|..];
      EmittedAtMatch(s, delim, after);
      EmittedAtMatch(s[n..], delim, after);
    }
  }

  lemma EmittedWithoutMatch(s: seq<Byte>, delim: seq<Byte>)
    requires delim != [] && IndexOf(delim, s) < 0
    ensures forall most :: Emitted(s, delim, most) == if |s| > |delim| then |s| - |delim| else 0
  {
  }

  lemma EmittedAtMatch(s: seq<Byte>, delim: seq<Byte>, after: seq<Byte>)
    requires delim != [] && IndexOf(delim, s) >= 0
    requires after == s[IndexOf(delim, s) + |delim|..]
    ensures var i := IndexOf(delim, s);
            forall most ::
              Emitted(s, delim, most) ==
              if TerminatorOf(after).NotDelimiter? then i + |delim| + Emitted(after, delim, most)
              else if most && i > 0 then i - 1
              else 0
  {
    hide TerminatorOf, IndexOf;
  }
}
