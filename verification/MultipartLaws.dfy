/** Laws of the whole-input meaning of multipart bodies. */
module MultipartLaws {
  import opened ByteSeqs
  import opened MultipartSpec

  // ----- bodies ---------------------------------------------------------------------------

  /** A delimiter with a valid terminator starts at `n`. */
  predicate DelimiterAt(s: seq<Byte>, delim: seq<Byte>, n: nat) {
    n <= |s| && AtDelimiter(s[n..], delim)
  }

  /** The length of the valid terminator at the start of `s`. */
  function TerminatorLength(s: seq<Byte>): (n: nat)
    ensures n <= |s|
  {
    match TerminatorOf(s)
    case Close => 2
    case Next(taken) => taken
    case _ => 0
  }

  /** Where the first valid delimiter starts, `|s|` without one. */
  function FirstDelimiter(s: seq<Byte>, delim: seq<Byte>, from: nat): (n: nat)
    requires from <= |s|
    ensures from <= n <= |s|
    ensures n < |s| ==> DelimiterAt(s, delim, n)
    ensures forall k: nat | from <= k < n :: !DelimiterAt(s, delim, k)
    decreases |s| - from
  {
    if from == |s| || DelimiterAt(s, delim, from) then from else FirstDelimiter(s, delim, from + 1)
  }

  /** The body ends where the first valid delimiter starts; without one there is no body. */
  lemma BodyEndsAtFirstDelimiter(s: seq<Byte>, delim: seq<Byte>, n: nat)
    requires delim != [] && n <= |s|
    requires forall k: nat | k < n :: !DelimiterAt(s, delim, k)
    requires n < |s| ==> DelimiterAt(s, delim, n)
    ensures BodyOf(s, delim) ==
            if n == |s| then BadBody(TruncatedBody)
            else
              var after := s[n + |delim|..];
              if TerminatorOf(after).BadTerminator? then BadBody(TerminatorOf(after).error)
              else Body(s[..n], TerminatorOf(after).Close?, after[TerminatorLength(after)..])
  {
    hide TerminatorOf;
    forall i: nat | i < n ensures !AtDelimiter(s[i..], delim) { assert !DelimiterAt(s, delim, i); }
    BodyAfterContent(s, delim, n);
    if n < |s| {
      assert s[n..][|delim|..] == s[n + |delim|..];
      assert s[..n] + [] == s[..n];
    } else {
      assert s[n..] == [];
    }
  }

  /** No byte is lost or doubled: an ended body, its delimiter with the terminator, and the rest are the input. */
  lemma BodyConserves(s: seq<Byte>, delim: seq<Byte>)
    requires delim != [] && BodyOf(s, delim).Body?
    ensures var b := BodyOf(s, delim);
            var n := |b.content|;
            && DelimiterAt(s, delim, n) && (forall k: nat | k < n :: !DelimiterAt(s, delim, k))
            && var after := s[n + |delim|..];
               s == b.content + delim + after[..TerminatorLength(after)] + b.rest
  {
    hide TerminatorOf, BodyOf;
    var n := FirstDelimiter(s, delim, 0);
    BodyEndsAtFirstDelimiter(s, delim, n);
    Split3(s, n, delim, TerminatorLength(s[n + |delim|..]));
  }

  lemma Split3(s: seq<Byte>, n: nat, delim: seq<Byte>, m: nat)
    requires n + |delim| + m <= |s| && Occurs(delim, s[n..], 0)
    ensures var after := s[n + |delim|..];
            s == s[..n] + delim + after[..m] + after[m..]
  {
    assert s[n..][..|delim|] == s[n..n + |delim|];
    var after := s[n + |delim|..];
    assert after == after[..m] + after[m..];
  }

  // ----- preambles ------------------------------------------------------------------------

  /** The preamble ended by the first valid delimiter, found walking byte by byte. */
  function PreambleWalk(s: seq<Byte>, needle: seq<Byte>): Preamble
    requires needle != []
    decreases |s|
  {
    if AtDelimiter(s, needle) then
      var after := s[|needle|..];
      match TerminatorOf(after)
      case Close => NoParts
      case Next(taken) => FirstPart(after[taken..])
      case BadTerminator(e) => BadPreamble(e)
      case NotDelimiter => NoParts
    else if s == [] then NoParts
    else PreambleWalk(s[1..], needle)
  }

  /** Two occurrences of `needle` may overlap at distance `k`, the second reaching `tail` further. */
  predicate OverlapsAt(needle: seq<Byte>, k: nat) {
    0 < k < |needle| && needle[k..] == needle[..|needle| - k]
  }

  predicate StartsWithDashes(s: seq<Byte>) { |s| >= 2 && s[0] == DASH && s[1] == DASH }

  /** `needle` overlaps itself, and the overlapping bytes do not make the first occurrence a close delimiter. */
  ghost predicate Ambiguous(needle: seq<Byte>) {
    exists k: nat :: OverlapsAt(needle, k) && !StartsWithDashes(needle[|needle| - k..])
  }

  lemma {:induction false} WalkSkips(s: seq<Byte>, needle: seq<Byte>, n: nat)
    requires needle != [] && n <= |s|
    requires forall k: nat | k < n :: !DelimiterAt(s, needle, k)
    ensures PreambleWalk(s, needle) == PreambleWalk(s[n..], needle)
  {
    hide TerminatorOf, AtDelimiter;
    assert s[0..] == s;
    if n > 0 {
      assert !DelimiterAt(s, needle, 0);
      forall k: nat | k < n - 1 ensures !DelimiterAt(s[1..], needle, k) {
        assert s[1..][k..] == s[k + 1..];
        assert !DelimiterAt(s, needle, k + 1);
      }
      WalkSkips(s[1..], needle, n - 1);
      assert s[1..][n - 1..] == s[n..];
    }
  }

  lemma OverlapOf(s: seq<Byte>, needle: seq<Byte>, i: nat, j: nat)
    requires Occurs(needle, s, i) && Occurs(needle, s, j) && i < j < i + |needle|
    ensures OverlapsAt(needle, j - i)
    ensures var k := j - i;
            i + |needle| + k <= |s| && s[i + |needle|..][..k] == needle[|needle| - k..]
  {
    var k := j - i;
    forall x | 0 <= x < |needle| - k ensures needle[k..][x] == needle[..|needle| - k][x] {
      assert s[i..i + |needle|][k + x] == s[j + x];
      assert s[j..j + |needle|][x] == s[j + x];
    }
    assert s[i + |needle|..][..k] == s[j..j + |needle|][|needle| - k..];
  }

  /** If an unambiguous needle matches again inside a match, the first match is a close delimiter. */
  lemma MatchInMatchCloses(s: seq<Byte>, needle: seq<Byte>, i: nat, j: nat)
    requires needle != [] && !Ambiguous(needle)
    requires Occurs(needle, s, i) && Occurs(needle, s, j)
    requires i < j < i + |needle|
    ensures TerminatorOf(s[i + |needle|..]).Close?
  {
    OverlapOf(s, needle, i, j);
    var after := s[i + |needle|..];
    assert StartsWithDashes(after[..j - i]);
    assert after[0] == after[..j - i][0] && after[1] == after[..j - i][1];
  }

  lemma NoDelimiterThroughFalseMatch(s: seq<Byte>, needle: seq<Byte>, i: nat)
    requires needle != [] && !Ambiguous(needle)
    requires IsFirst(needle, s, i) && TerminatorOf(s[i + |needle|..]).NotDelimiter?
    ensures forall k: nat | k < i + |needle| :: !DelimiterAt(s, needle, k)
  {
    hide TerminatorOf, Ambiguous;
    forall k: nat | k < i + |needle| ensures !DelimiterAt(s, needle, k) {
      OccursShift(needle, s, k, 0);
      if k == i { assert s[k..][|needle|..] == s[i + |needle|..]; }
      if i < k && Occurs(needle, s, k) { MatchInMatchCloses(s, needle, i, k); }
    }
  }

  /** For an unambiguous needle the preamble ends at the first valid delimiter. */
  lemma {:induction false} UnambiguousPreamble(s: seq<Byte>, needle: seq<Byte>)
    requires needle != [] && !Ambiguous(needle)
    ensures SkipPreamble(s, needle) == PreambleWalk(s, needle)
    decreases |s|
  {
    hide TerminatorOf, Ambiguous, IndexOf;
    IndexOfIsFirst(needle, s);
    var i := IndexOf(needle, s);
    if i >= 0 && TerminatorOf(s[i + |needle|..]).NotDelimiter? {
      NoDelimiterThroughFalseMatch(s, needle, i);
      WalkSkips(s, needle, i + |needle|);
      UnambiguousPreamble(s[i + |needle|..], needle);
    } else {
      PreambleAtFirstMatch(s, needle);
    }
  }

  /** Where the first match is a delimiter, or there is none, both readings agree at once. */
  lemma PreambleAtFirstMatch(s: seq<Byte>, needle: seq<Byte>)
    requires needle != []
    requires IndexOf(needle, s) >= 0 ==> !TerminatorOf(s[IndexOf(needle, s) + |needle|..]).NotDelimiter?
    ensures SkipPreamble(s, needle) == PreambleWalk(s, needle)
  {
    hide TerminatorOf, IndexOf;
    IndexOfIsFirst(needle, s);
    var i := IndexOf(needle, s);
    var n := if i < 0 then |s| else i;
    forall k: nat | k < n ensures !DelimiterAt(s, needle, k) { OccursShift(needle, s, k, 0); }
    WalkSkips(s, needle, n);
    if i >= 0 {
      OccursShift(needle, s, i, 0);
      assert s[i..][|needle|..] == s[i + |needle|..];
    }
  }

  /** The shortest ambiguous overlap. */
  ghost predicate ShortestAmbiguity(needle: seq<Byte>, k: nat) {
    && OverlapsAt(needle, k) && !StartsWithDashes(needle[|needle| - k..])
    && forall n: nat | n < k && OverlapsAt(needle, n) :: StartsWithDashes(needle[|needle| - n..])
  }

  lemma {:induction false} HasShortestAmbiguity(needle: seq<Byte>, k: nat) returns (m: nat)
    requires OverlapsAt(needle, k) && !StartsWithDashes(needle[|needle| - k..])
    ensures ShortestAmbiguity(needle, m)
    decreases k
  {
    if n: nat :| n < k && OverlapsAt(needle, n) && !StartsWithDashes(needle[|needle| - n..]) {
      m := HasShortestAmbiguity(needle, n);
    } else {
      m := k;
    }
  }

  /** The text on which the two readings differ: the needle overlapping itself, then a line end. */
  function Overlapping(needle: seq<Byte>, k: nat): seq<Byte>
    requires k <= |needle|
  {
    needle[..k] + needle + [CR, LF]
  }

  lemma TailThenLineEnd(boundary: seq<Byte>, k: nat)
    requires ValidBoundary(boundary) && boundary[|boundary| - 1] != SPACE
    requires var needle := FirstNeedle(boundary);
             0 < k < |needle| && !StartsWithDashes(needle[|needle| - k..])
    ensures var needle := FirstNeedle(boundary);
            TerminatorOf(needle[|needle| - k..] + [CR, LF]) == NotDelimiter
  {
    var needle := FirstNeedle(boundary);
    var s := needle[|needle| - k..] + [CR, LF];
    assert s[k - 1] == boundary[|boundary| - 1];
    assert forall x | 0 <= x < k :: s[x] == needle[|needle| - k + x];
    if k > 1 { assert s[..2] == needle[|needle| - k..][..2]; }
    var p := Padding(s);
    assert p < k;
  }

  /** Neither the tail of a needle nor a line end after it holds the whole needle. */
  lemma TailHoldsNoNeedle(boundary: seq<Byte>, k: nat)
    requires ValidBoundary(boundary) && 0 < k < |FirstNeedle(boundary)|
    ensures var needle := FirstNeedle(boundary);
            SkipPreamble(needle[|needle| - k..] + [CR, LF], needle) == NoParts
  {
    var needle := FirstNeedle(boundary);
    var s := needle[|needle| - k..] + [CR, LF];
    forall i: nat ensures !Occurs(needle, s, i) {
      if i + |needle| <= |s| { assert s[i..i + |needle|][k - i] == s[k] == CR; }
    }
    FirstIsUnique(needle, s, -1);
  }

  /** On the overlapping text of a shortest ambiguity the two readings differ. */
  lemma AmbiguousPreamble(boundary: seq<Byte>, k: nat)
    requires ValidBoundary(boundary) && boundary[|boundary| - 1] != SPACE
    requires ShortestAmbiguity(FirstNeedle(boundary), k)
    ensures var needle := FirstNeedle(boundary);
            && SkipPreamble(Overlapping(needle, k), needle) == NoParts
            && PreambleWalk(Overlapping(needle, k), needle) == FirstPart([])
  {
    SkipOverlapping(boundary, k);
    TailThenLineEnd(boundary, k);
    WalkOverlapping(FirstNeedle(boundary), k);
  }

  lemma SkipOverlapping(boundary: seq<Byte>, k: nat)
    requires ValidBoundary(boundary) && boundary[|boundary| - 1] != SPACE
    requires ShortestAmbiguity(FirstNeedle(boundary), k)
    ensures SkipPreamble(Overlapping(FirstNeedle(boundary), k), FirstNeedle(boundary)) == NoParts
  {
    hide TerminatorOf, IndexOf, Overlapping, SkipPreamble;
    var needle := FirstNeedle(boundary);
    OverlappingMatches(needle, k);
    TailThenLineEnd(boundary, k);
    TailHoldsNoNeedle(boundary, k);
    FirstIsUnique(needle, Overlapping(needle, k), 0);
    SkipFalseMatch(Overlapping(needle, k), needle);
  }

  lemma SkipFalseMatch(s: seq<Byte>, needle: seq<Byte>)
    requires needle != [] && IndexOf(needle, s) == 0 && TerminatorOf(s[|needle|..]).NotDelimiter?
    ensures SkipPreamble(s, needle) == SkipPreamble(s[|needle|..], needle)
  {
    hide TerminatorOf, IndexOf;
  }

  lemma WalkOverlapping(needle: seq<Byte>, k: nat)
    requires ShortestAmbiguity(needle, k)
    requires TerminatorOf(needle[|needle| - k..] + [CR, LF]) == NotDelimiter
    ensures PreambleWalk(Overlapping(needle, k), needle) == FirstPart([])
  {
    hide TerminatorOf, PreambleWalk, Overlapping;
    var s := Overlapping(needle, k);
    OverlappingMatches(needle, k);
    NoMatchBetween(needle, k);
    forall j: nat | j < k ensures !DelimiterAt(s, needle, j) {
      OccursShift(needle, s, j, 0);
      if j == 0 { assert s[0..] == s; }
    }
    WalkSkips(s, needle, k);
    WalkAtLineEnd(needle);
  }

  lemma WalkAtLineEnd(needle: seq<Byte>)
    requires needle != []
    ensures PreambleWalk(needle + [CR, LF], needle) == FirstPart([])
  {
    LineEndTerminates();
    var s := needle + [CR, LF];
    assert Occurs(needle, s, 0);
    assert s[|needle|..] == [CR, LF];
    assert [CR, LF][2..] == [];
  }

  lemma LineEndTerminates()
    ensures TerminatorOf([CR, LF]) == Next(2)
  {
  }

  /** Both occurrences in the overlapping text, and what follows the first. */
  lemma OverlappingMatches(needle: seq<Byte>, k: nat)
    requires OverlapsAt(needle, k)
    ensures var s := Overlapping(needle, k);
            && Occurs(needle, s, 0) && Occurs(needle, s, k)
            && s[|needle|..] == needle[|needle| - k..] + [CR, LF]
            && s[k..] == needle + [CR, LF]
  {
    var s := Overlapping(needle, k);
    assert s[..|needle|] == needle[..k] + needle[..|needle| - k];
    assert needle == needle[..k] + needle[k..];
  }

  lemma NoMatchBetween(needle: seq<Byte>, k: nat)
    requires ShortestAmbiguity(needle, k)
    ensures forall j: nat | 0 < j < k :: !Occurs(needle, Overlapping(needle, k), j)
  {
    var s := Overlapping(needle, k);
    OverlappingMatches(needle, k);
    forall j: nat | 0 < j < k ensures !Occurs(needle, s, j) {
      if Occurs(needle, s, j) {
        OverlapOf(s, needle, 0, j);
        DashesCarry(needle, k, j);
      }
    }
  }

  lemma DashesCarry(needle: seq<Byte>, k: nat, j: nat)
    requires 0 < j < k < |needle|
    requires StartsWithDashes(needle[|needle| - j..])
    requires (needle[|needle| - k..] + [CR, LF])[..j] == needle[|needle| - j..]
    ensures StartsWithDashes(needle[|needle| - k..])
  {
    var t := needle[|needle| - k..];
    assert t[0] == (t + [CR, LF])[..j][0];
    assert t[1] == (t + [CR, LF])[..j][1];
  }

  /** Preamble skipping finds the first valid delimiter on every input exactly when the boundary, whose last
      byte is no space since the parser trims it, is not ambiguous. */
  lemma PreambleFindsFirstDelimiter(boundary: seq<Byte>)
    requires ValidBoundary(boundary) && boundary[|boundary| - 1] != SPACE
    ensures var needle := FirstNeedle(boundary);
            (forall s :: SkipPreamble(s, needle) == PreambleWalk(s, needle)) <==> !Ambiguous(needle)
  {
    hide SkipPreamble, PreambleWalk;
    var needle := FirstNeedle(boundary);
    if Ambiguous(needle) {
      var k: nat :| OverlapsAt(needle, k) && !StartsWithDashes(needle[|needle| - k..]);
      var m := HasShortestAmbiguity(needle, k);
      AmbiguousPreamble(boundary, m);
    } else {
      forall s ensures SkipPreamble(s, needle) == PreambleWalk(s, needle) { UnambiguousPreamble(s, needle); }
    }
  }

  /** The boundary of a single dash is ambiguous: the line `----` hides the delimiter inside it. */
  lemma DashBoundaryIsAmbiguous()
    ensures ValidBoundary([DASH]) && Ambiguous(FirstNeedle([DASH]))
  {
    assert OverlapsAt(FirstNeedle([DASH]), 1);
  }
}
