/** The byte scanner over a chunked request body, proved against MultipartSpec for every chunking. */
module MultipartScanner {
  import opened ByteSeqs
  import opened MultipartSpec

  /** First index of `needle` in `hay`, or -1: compare byte by byte at every offset. */
  method IndexOfNeedle(hay: seq<Byte>, needle: seq<Byte>) returns (r: int)
    ensures r == IndexOf(needle, hay)
  {
    var last := |hay| - |needle|;
    var i := 0;
    while i <= last
      invariant 0 <= i
      invariant forall k: nat | k < i :: !Occurs(needle, hay, k)
      decreases last - i
    {
      var j := 0;
      while j < |needle| && hay[i + j] == needle[j]
        invariant j <= |needle|
        invariant forall k | 0 <= k < j :: needle[k] == hay[i + k]
      {
        j := j + 1;
      }
      if j == |needle| {
        assert hay[i..i + |needle|] == needle;
        assert Occurs(needle, hay, i);
        FirstIsUnique(needle, hay, i);
        return i;
      }
      Mismatch(hay, needle, i, j);
      i := i + 1;
    }
    FirstIsUnique(needle, hay, -1);
    return -1;
  }

  lemma Mismatch(hay: seq<Byte>, needle: seq<Byte>, i: nat, j: nat)
    requires j < |needle| && i + |needle| <= |hay| && hay[i + j] != needle[j]
    ensures !Occurs(needle, hay, i)
  {
    assert hay[i..i + |needle|][j] == hay[i + j];
  }

  datatype SkipResult = Stop | PartFollows | SkipThrew(error: BadRequest)
  datatype HeadersResult = GotHeaders(lines: seq<seq<Byte>>) | HeadersThrew(error: BadRequest)
  datatype ReadLineResult = GotLine(line: seq<Byte>) | NoMoreInput | LineTooLong

  /** What is known of the chunks: nothing, that all bytes come in one, or that each byte comes alone. */
  datatype Pace = AnyPace | Whole | Bytewise

  class ScanState {
    /** What the reader has still to deliver; an empty chunk is legal. */
    var chunks: seq<seq<Byte>>
    var buf: seq<Byte>
    var eof: bool
    var closed: bool

    constructor (chunks: seq<seq<Byte>>)
      ensures Valid() && Settled() && Rest() == Concat(chunks) && !closed && !eof
      ensures this.chunks == chunks && buf == []
    {
      this.chunks := chunks;
      buf, eof, closed := [], false, false;
    }

    ghost predicate Valid() reads this { eof ==> chunks == [] }

    /** Between two reads of the scanner, nearly everything is consumed once the stream has ended. */
    ghost predicate Settled() reads this`eof, this`buf { eof ==> |buf| <= 1 }

    /** The rest of the stream keeps the pace. */
    ghost predicate Paced(pace: Pace) reads this`chunks, this`buf {
      match pace
      case AnyPace => true
      case Whole => chunks == [] || (buf == [] && |chunks| <= 1)
      case Bytewise => forall c | c in chunks :: |c| == 1
    }

    /** Between two reads at this pace; after single bytes the buffer is nearly empty. */
    ghost predicate Rests(pace: Pace) reads this`chunks, this`buf, this`eof {
      Settled() && Paced(pace) && (pace.Bytewise? ==> |buf| <= 1)
    }

    /** Behind a match, which the last single byte completed. */
    ghost predicate Matched(pace: Pace) reads this`chunks, this`buf, this`eof {
      Settled() && Paced(pace) && (pace.Bytewise? ==> buf == [])
    }

    /** Behind a false match. */
    ghost predicate Unmatched(pace: Pace) reads this`chunks, this`buf, this`eof {
      Settled() && Paced(pace) && (pace.Bytewise? ==> IsLeftover(buf))
    }

    /** While the buffer is searched for `needle`. */
    ghost predicate Searches(pace: Pace, needle: seq<Byte>) reads this`chunks, this`buf, this`eof {
      && (Settled() || IndexOf(needle, buf) < 0)
      && Paced(pace) && (pace.Bytewise? ==> MatchAtEnd(needle, buf))
    }

    /** All bytes not yet consumed, buffered or not. */
    ghost function Rest(): seq<Byte> reads this { buf + Concat(chunks) }

    /** Number of `Fill` calls still possible. */
    ghost function Fuel(): nat reads this { |chunks| + if eof then 0 else 1 }

    lemma RestAtEof()
      requires Valid() && eof
      ensures Rest() == buf
    {
    }

    method Fill()
      requires Valid() && !eof
      modifies this`chunks, this`buf, this`eof
      ensures Valid() && Rest() == old(Rest()) && Fuel() < old(Fuel())
      ensures eof ==> Rest() == buf
      ensures old(chunks) == [] ==> eof && buf == old(buf)
      ensures old(chunks) != [] ==> !eof && buf == old(buf) + old(chunks)[0] && chunks == old(chunks)[1..]
      ensures forall pace :: old(Paced(pace)) ==> Paced(pace)
      ensures old(Paced(Bytewise)) ==> old(buf) <= buf && |buf| <= |old(buf)| + 1
    {
      if chunks == [] {
        eof := true;
        return;
      }
      var value := chunks[0];
      chunks := chunks[1..];
      assert old(buf) + Concat(old(chunks)) == (old(buf) + value) + Concat(chunks);
      if value == [] {
        assert buf + value == buf;
        return;
      }
      buf := buf + value;
    }

    /** Drop `n` bytes from the buffer. */
    method Consume(n: nat)
      requires Valid() && n <= |buf|
      modifies this`buf
      ensures Valid() && buf == old(buf)[n..] && Rest() == old(Rest())[n..]
      ensures forall pace :: old(Paced(pace)) ==> Paced(pace)
    {
      hide Concat;
      assert Rest()[n..] == buf[n..] + Concat(chunks);
      buf := buf[n..];
    }

    /** Fill the buffer in search of `needle`. */
    method FillInSearch(needle: seq<Byte>, ghost pace: Pace)
      requires Valid() && !eof && needle != [] && IndexOf(needle, buf) < 0 && Paced(pace)
      modifies this`chunks, this`buf, this`eof
      ensures Valid() && Rest() == old(Rest()) && Fuel() < old(Fuel())
      ensures eof ==> Rest() == buf
      ensures Searches(pace, needle)
    {
      hide IndexOf;
      ghost var before := buf;
      Fill();
      if pace.Bytewise? { MatchAfterOne(needle, before, buf); }
    }

    /** Classify and consume what follows a `--boundary` match. */
    method ReadDelimiterSuffix(ghost pace: Pace) returns (t: Terminator)
      requires Valid() && Matched(pace)
      modifies this`chunks, this`buf, this`eof
      ensures Valid() && Fuel() <= old(Fuel())
      ensures t == TerminatorOf(old(Rest()))
      ensures Rest() == if t.Close? then old(Rest())[2..] else if t.Next? then old(Rest())[t.taken..] else old(Rest())
      ensures t.NotDelimiter? ==> Unmatched(pace)
      ensures t.Close? || t.Next? ==> Rests(pace)
    {
      hide TerminatorOf, Concat;
      ghost var s := Rest();
      FillTwo(pace);
      CloseIsTwoDashes(s);
      if |buf| >= 2 && buf[0] == DASH && buf[1] == DASH {
        Consume(2);
        return Close;
      }
      t := ReadPaddedSuffix(pace);
    }

    /** Fill the buffer with two bytes, if there are two. */
    method FillTwo(ghost pace: Pace)
      requires Valid() && Matched(pace)
      modifies this`chunks, this`buf, this`eof
      ensures Valid() && Rest() == old(Rest()) && Fuel() <= old(Fuel())
      ensures Settled() && Tight(pace, 0)
      ensures |buf| >= 2 || buf == Rest()
      ensures |buf| >= 2 ==> |Rest()| >= 2 && Rest()[0] == buf[0] && Rest()[1] == buf[1]
    {
      ghost var s := Rest();
      if eof { RestAtEof(); }
      hide Concat;
      while |buf| < 2 && !eof
        invariant Valid() && Rest() == s && Fuel() <= old(Fuel())
        invariant Settled() && Paced(pace) && (pace.Bytewise? ==> |buf| <= 2)
        invariant eof ==> s == buf
        decreases Fuel()
      {
        Fill();
      }
    }

    /** At most two bytes, or one after `i` bytes of padding, are in the buffer of a stream of single bytes. */
    ghost predicate Tight(pace: Pace, i: nat) reads this`chunks, this`buf {
      Paced(pace) && (pace.Bytewise? ==> |buf| <= 2 || |buf| <= i + 1)
    }

    /** The part of `ReadDelimiterSuffix` after the test for `--`. */
    method ReadPaddedSuffix(ghost pace: Pace) returns (t: Terminator)
      requires Valid() && !TerminatorOf(Rest()).Close?
      requires Settled() && Tight(pace, 0)
      modifies this`chunks, this`buf, this`eof
      ensures Valid() && Fuel() <= old(Fuel())
      ensures t == TerminatorOf(old(Rest()))
      ensures Rest() == if t.Next? then old(Rest())[t.taken..] else old(Rest())
      ensures t.NotDelimiter? ==> Unmatched(pace)
      ensures t.Next? ==> Rests(pace)
    {
      ghost var s := Rest();
      if eof { RestAtEof(); }
      hide TerminatorOf, Concat;
      var i := 0;
      while true
        invariant Valid() && Rest() == s && Fuel() <= old(Fuel())
        invariant eof ==> s == buf
        invariant i <= |buf| && IsPadding(s, i) && IsPadding(buf, i) && Tight(pace, i)
        invariant i < |buf| ==> Settled()
        decreases Fuel()
      {
        i := SkipPadding(i);
        assert IsPadding(s, i) && Tight(pace, i) by {
          assert forall k | 0 <= k < i :: s[k] == buf[k];
        }
        if i > MAX_TRANSPORT_PADDING {
          TooMuchPadding(s, i);
          return BadTerminator(InvalidDelimiter);
        }
        if i < |buf| { break; }
        if eof {
          OnlyPadding(s);
          return BadTerminator(TruncatedBody);
        }
        Fill();
      }
      assert s[i] == buf[i];
      assert forall k | 0 <= k < i :: buf[k] == s[k];
      t := ReadLineEnd(i, pace);
    }

    /** The index of the first byte in the buffer, from `i` on, that is no padding. */
    method SkipPadding(from: nat) returns (i: nat)
      requires from <= |buf| && IsPadding(buf, from)
      ensures from <= i <= |buf| && IsPadding(buf, i)
      ensures i < |buf| ==> buf[i] != SPACE && buf[i] != TAB
    {
      i := from;
      while i < |buf| && (buf[i] == SPACE || buf[i] == TAB)
        invariant from <= i <= |buf| && IsPadding(buf, i)
      {
        i := i + 1;
      }
    }

    /** The part of `ReadDelimiterSuffix` from the byte after `i` bytes of padding on. */
    method ReadLineEnd(i: nat, ghost pace: Pace) returns (t: Terminator)
      requires Valid() && !TerminatorOf(Rest()).Close?
      requires i <= MAX_TRANSPORT_PADDING && IsPadding(Rest(), i) && IsPadding(buf, i)
      requires i < |buf| && buf[i] != SPACE && buf[i] != TAB
      requires Settled() && Tight(pace, i)
      modifies this`chunks, this`buf, this`eof
      ensures Valid() && Fuel() <= old(Fuel())
      ensures t == TerminatorOf(old(Rest()))
      ensures Rest() == if t.Next? then old(Rest())[t.taken..] else old(Rest())
      ensures t.NotDelimiter? ==> Unmatched(pace)
      ensures t.Next? ==> Rests(pace)
    {
      ghost var s := Rest();
      if eof { RestAtEof(); }
      hide TerminatorOf, Concat;
      assert s[i] == buf[i];
      PaddedTerminator(s, i);
      var c := buf[i];
      if c != CR && c != LF { return NotDelimiter; }
      assert Paced(pace) && (eof || pace.Bytewise? ==> |buf| <= i + 2);
      hide IsPadding, Tight;
      var end := i + 1;
      if c == CR {
        end := CarriageReturn(i, pace);
      }
      Consume(end);
      return Next(end);
    }

    /** The end of the line that a CR at `i` begins: behind an LF, if one follows. */
    method CarriageReturn(i: nat, ghost pace: Pace) returns (end: nat)
      requires Valid() && i < |buf| && Settled() && Tight(pace, i)
      modifies this`chunks, this`buf, this`eof
      ensures Valid() && Fuel() <= old(Fuel()) && Rest() == old(Rest()) && Paced(pace)
      ensures end <= |buf| && (eof ==> |buf| - end <= 1) && (pace.Bytewise? ==> |buf| - end <= 1)
      ensures end == if i + 1 < |Rest()| && Rest()[i + 1] == LF then i + 2 else i + 1
    {
      ghost var s := Rest();
      if eof { RestAtEof(); }
      hide Concat;
      end := i + 1;
      while end >= |buf| && !eof
        invariant Valid() && Rest() == s && Fuel() <= old(Fuel())
        invariant (eof ==> s == buf) && i < |buf| && Paced(pace)
        invariant eof ==> |buf| <= end
        invariant pace.Bytewise? ==> |buf| <= i + 2
        decreases Fuel()
      {
        Fill();
      }
      if end < |buf| {
        assert s[end] == buf[end];
        if buf[end] == LF { end := end + 1; }
      } else {
        assert s == buf;
      }
    }

    /** Discard the preamble; `Stop` also when the first delimiter already closes. */
    method SkipPreamble(needle: seq<Byte>, retain: nat, ghost pace: Pace) returns (r: SkipResult)
      requires Valid() && |needle| >= 3 && needle[0] == DASH && |needle| <= retain
      requires Matched(pace)
      modifies this`chunks, this`buf, this`eof
      ensures Valid()
      ensures r.PartFollows? ==> Rests(pace)
      ensures MultipartSpec.SkipPreamble(old(Rest()), needle) ==
              match r case Stop => NoParts case PartFollows => FirstPart(Rest()) case SkipThrew(e) => BadPreamble(e)
    {
      hide TerminatorOf, MultipartSpec.SkipPreamble, IndexOf, IsFirst, IsLeftover, Concat, Searches;
      ghost var s := Rest();
      SearchesBehindMatch(needle, pace);
      while true
        invariant Valid() && Searches(pace, needle)
        invariant MultipartSpec.SkipPreamble(Rest(), needle) == MultipartSpec.SkipPreamble(s, needle)
        decreases |Rest()|, Fuel()
      {
        ghost var more := Concat(chunks);
        var idx := IndexOfNeedle(buf, needle);
        if idx != -1 {
          PreambleMatch(buf, more, needle, idx);
          SearchEnds(needle, idx, pace);
          buf := buf[idx + |needle|..];
          var kind := ReadDelimiterSuffix(pace);
          match kind {
            case Close => return Stop;
            case Next(_) => return PartFollows;
            case BadTerminator(e) => return SkipThrew(e);
            case NotDelimiter => SearchesAfterFalseMatch(needle, pace);
          }
        } else {
          if eof {
            RestAtEof();
            PreambleWithoutMatch(buf, needle);
            return Stop;
          }
          SearchPaced(needle, pace);
          var drop := |buf| - retain;
          if drop > 0 {
            PreambleTail(buf, more, needle, drop);
            buf := buf[drop..];
          }
          FillInSearch(needle, pace);
        }
      }
    }

    lemma SearchesBehindMatch(needle: seq<Byte>, pace: Pace)
      requires Matched(pace) && needle != []
      ensures Searches(pace, needle)
    {
      if pace.Bytewise? { NothingInNothing(needle); }
    }

    lemma SearchesAfterFalseMatch(needle: seq<Byte>, pace: Pace)
      requires Unmatched(pace) && |needle| >= 3 && needle[0] != SPACE && needle[0] != TAB
      ensures Searches(pace, needle) && (pace.Bytewise? ==> IndexOf(needle, buf) < 0)
    {
      if pace.Bytewise? { NothingInLeftover(needle, buf); }
    }

    lemma SearchPaced(needle: seq<Byte>, pace: Pace)
      requires Searches(pace, needle) && IndexOf(needle, buf) < 0
      ensures Paced(pace) && forall n | 0 <= n <= |buf| :: pace.Whole? ==> chunks == [] || buf[n..] == []
    {
    }

    /** The bytes behind a match. */
    lemma SearchEnds(needle: seq<Byte>, idx: nat, pace: Pace)
      requires Searches(pace, needle) && IndexOf(needle, buf) == idx && |needle| >= 2
      ensures !eof && Paced(pace) && idx + |needle| <= |buf|
      ensures pace.Whole? ==> chunks == []
      ensures pace.Bytewise? ==> buf[idx + |needle|..] == []
    {
    }

    /** Read one line ended by LF, without its trailing CR. */
    method ReadLine(ghost pace: Pace) returns (r: ReadLineResult)
      requires Valid() && Rests(pace)
      modifies this`chunks, this`buf, this`eof
      ensures Valid()
      ensures r.GotLine? ==> FirstLine(old(Rest())) == Line(r.line, Rest()) && Rests(pace)
      ensures r.NoMoreInput? ==> old(Rest()) == []
      ensures r.LineTooLong? ==>
                FirstLine(old(Rest())).Line? && |FirstLine(old(Rest())).bytes| > MAX_PART_HEADERS
    {
      hide IndexOf, FirstLine, StripCR, Concat, Searches, Paced;
      ghost var s := Rest();
      SearchesAtRest(pace);
      while true
        invariant Valid() && Rest() == s && Searches(pace, [LF])
        decreases Fuel()
      {
        ghost var more := Concat(chunks);
        var idx := IndexOfNeedle(buf, [LF]);
        if idx != -1 {
          LineAt(buf, more, idx);
          r := GotLine(StripCR(buf[..idx]));
          TakeLine(idx, pace);
          return;
        }
        SearchPaced([LF], pace);
        if eof {
          RestAtEof();
          if |buf| == 0 { return NoMoreInput; }
          LastLine(buf);
          r := GotLine(StripCR(buf));
          TakeAll(pace);
          return;
        }
        if |buf| > MAX_PART_HEADERS + 1024 {
          LongLine(buf, more);
          return LineTooLong;
        }
        FillInSearch([LF], pace);
      }
    }

    /** Take the line that ends at `idx` from the buffer. */
    method TakeLine(idx: nat, ghost pace: Pace)
      requires Valid() && Searches(pace, [LF]) && IndexOf([LF], buf) == idx
      modifies this`buf
      ensures Valid() && Rest() == old(buf)[idx + 1..] + Concat(chunks) && Rests(pace)
    {
      RestsBehindLine(idx, pace);
      buf := buf[idx + 1..];
    }

    /** Take the whole buffer at the end of the stream. */
    method TakeAll(ghost pace: Pace)
      requires Valid() && eof && Paced(pace)
      modifies this`buf
      ensures Valid() && Rest() == [] && Rests(pace)
    {
      buf := [];
    }

    lemma SearchesAtRest(pace: Pace)
      requires Rests(pace)
      ensures Searches(pace, [LF])
    {
    }

    lemma RestsBehindLine(idx: nat, pace: Pace)
      requires Searches(pace, [LF]) && IndexOf([LF], buf) == idx
      ensures idx + 1 <= |buf| && Paced(pace)
      ensures pace.Whole? ==> chunks == []
      ensures eof || pace.Bytewise? ==> buf[idx + 1..] == []
    {
    }

    /** Read part headers until the blank line. */
    method ReadPartHeaders(ghost pace: Pace) returns (r: HeadersResult)
      requires Valid() && Rests(pace)
      modifies this`chunks, this`buf, this`eof
      ensures Valid()
      ensures r.GotHeaders? ==> Rests(pace)
      ensures HeadersOf(old(Rest()), 0, []) ==
              match r case GotHeaders(lines) => HeaderBlock(lines, Rest()) case HeadersThrew(e) => BadHeaders(e)
    {
      hide FirstLine, Concat, Paced;
      ghost var s := Rest();
      var used := 0;
      var lines: seq<seq<Byte>> := [];
      while true
        invariant Valid() && 0 <= used && Rests(pace)
        invariant HeadersOf(Rest(), used, lines) == HeadersOf(s, 0, [])
        decreases |Rest()|
      {
        var line := ReadLine(pace);
        match line {
          case NoMoreInput => return HeadersThrew(TruncatedBody);
          case LineTooLong => return HeadersThrew(HeadersTooLarge);
          case GotLine(bytes) =>
            used := used + |bytes| + 2;
            if used > MAX_PART_HEADERS { return HeadersThrew(HeadersTooLarge); }
            if |bytes| == 0 { return GotHeaders(lines); }
            lines := lines + [bytes];
        }
      }
    }
  }

  // ----- streams of single bytes ----------------------------------------------------------

  /** What a false match leaves in the buffer: two bytes, or padding and one more byte. */
  predicate IsLeftover(buf: seq<Byte>) {
    |buf| <= 2 || forall k | 0 <= k < |buf| - 1 :: buf[k] == SPACE || buf[k] == TAB
  }

  /** The first match, if there is one, ends the buffer. */
  predicate MatchAtEnd(needle: seq<Byte>, buf: seq<Byte>) {
    IndexOf(needle, buf) < 0 || IndexOf(needle, buf) + |needle| == |buf|
  }

  lemma NothingInNothing(needle: seq<Byte>)
    requires needle != []
    ensures IndexOf(needle, []) < 0
  {
  }

  /** No needle that starts with neither a space nor a tab is in the bytes that a false match leaves. */
  lemma NothingInLeftover(needle: seq<Byte>, buf: seq<Byte>)
    requires |needle| >= 3 && needle[0] != SPACE && needle[0] != TAB && IsLeftover(buf)
    ensures IndexOf(needle, buf) < 0
  {
    forall i: nat ensures !Occurs(needle, buf, i) {
      if i + |needle| <= |buf| { assert buf[i..i + |needle|][0] == buf[i]; }
    }
    FirstIsUnique(needle, buf, -1);
  }

  /** One more byte completes a match at its end or none. */
  lemma MatchAfterOne(needle: seq<Byte>, before: seq<Byte>, after: seq<Byte>)
    requires needle != [] && IndexOf(needle, before) < 0 && before <= after && |after| <= |before| + 1
    ensures MatchAtEnd(needle, after)
  {
    var more := after[|before|..];
    assert after == before + more;
    IndexOfIsFirst(needle, after);
    var i := IndexOf(needle, after);
    if i >= 0 && i + |needle| <= |before| { NoneInPrefix(needle, before, more, i); }
  }

  // ----- buffers and the whole input ------------------------------------------------------

  lemma LineAt(buf: seq<Byte>, more: seq<Byte>, idx: nat)
    requires IndexOf([LF], buf) == idx
    ensures idx < |buf| && FirstLine(buf + more) == Line(StripCR(buf[..idx]), buf[idx + 1..] + more)
  {
    hide IndexOf, StripCR;
    FirstInPrefix([LF], buf, more);
    assert (buf + more)[..idx] == buf[..idx];
    assert (buf + more)[idx + 1..] == buf[idx + 1..] + more;
  }

  lemma LastLine(buf: seq<Byte>)
    requires IndexOf([LF], buf) < 0 && buf != []
    ensures FirstLine(buf) == Line(StripCR(buf), [])
  {
  }

  lemma PreambleWithoutMatch(s: seq<Byte>, needle: seq<Byte>)
    requires needle != [] && IndexOf(needle, s) < 0
    ensures MultipartSpec.SkipPreamble(s, needle) == NoParts
  {
  }

  /** The scan of a buffer that holds a match decides the preamble of the whole input. */
  lemma PreambleMatch(buf: seq<Byte>, more: seq<Byte>, needle: seq<Byte>, i: nat)
    requires needle != [] && IndexOf(needle, buf) == i
    ensures var after := buf[i + |needle|..] + more;
            var t := TerminatorOf(after);
            MultipartSpec.SkipPreamble(buf + more, needle) ==
            if t.Close? then NoParts
            else if t.Next? then FirstPart(after[t.taken..])
            else if t.NotDelimiter? then MultipartSpec.SkipPreamble(after, needle)
            else BadPreamble(t.error)
  {
    hide *;
    var s, after := buf + more, buf[i + |needle|..] + more;
    assert IndexOf(needle, s) == i by { FirstInPrefix(needle, buf, more); }
    assert s[i + |needle|..] == after by { DropInPrefix(buf, more, i + |needle|); }
    PreambleAtMatch(s, needle, after);
  }

  lemma PreambleAtMatch(s: seq<Byte>, needle: seq<Byte>, after: seq<Byte>)
    requires needle != [] && IndexOf(needle, s) >= 0 && after == s[IndexOf(needle, s) + |needle|..]
    ensures var t := TerminatorOf(after);
            MultipartSpec.SkipPreamble(s, needle) ==
            if t.Close? then NoParts
            else if t.Next? then FirstPart(after[t.taken..])
            else if t.NotDelimiter? then MultipartSpec.SkipPreamble(after, needle)
            else BadPreamble(t.error)
  {
    hide TerminatorOf, IndexOf;
  }

  /** Without a match, all but a needle-sized tail of the buffer can go. */
  lemma PreambleTail(buf: seq<Byte>, more: seq<Byte>, needle: seq<Byte>, drop: nat)
    requires needle != [] && IndexOf(needle, buf) < 0
    requires drop + |needle| <= |buf|
    ensures MultipartSpec.SkipPreamble(buf + more, needle) == MultipartSpec.SkipPreamble(buf[drop..] + more, needle)
    ensures IndexOf(needle, buf[drop..]) < 0
  {
    hide TerminatorOf, IndexOf, MultipartSpec.SkipPreamble;
    FirstAfterShortDrop(needle, buf, drop);
    forall i: nat | i < drop ensures !Occurs(needle, buf + more, i) {
      NoneInPrefix(needle, buf, more, i);
    }
    PreambleAfterDrop(buf + more, needle, drop);
    assert (buf + more)[drop..] == buf[drop..] + more;
  }

  /** The first match decides how much of a failing body is emitted. */
  lemma EmittedMatch(buf: seq<Byte>, more: seq<Byte>, delim: seq<Byte>, i: nat)
    requires delim != [] && IndexOf(delim, buf) == i
    ensures var after := buf[i + |delim|..] + more;
            var t := TerminatorOf(after);
            && (t.NotDelimiter? ==> forall most ::
                  Emitted(buf + more, delim, most) == i + |delim| + Emitted(after, delim, most))
            && (t.BadTerminator? ==>
                  Emitted(buf + more, delim, false) == 0 && (i <= 1 ==> Emitted(buf + more, delim, true) == 0))
  {
    hide TerminatorOf, IndexOf, Emitted;
    FirstInPrefix(delim, buf, more);
    assert (buf + more)[i + |delim|..] == buf[i + |delim|..] + more;
    EmittedAtMatch(buf + more, delim, buf[i + |delim|..] + more);
  }

  /** Without a match, all but a delimiter-sized tail of the buffer counts as emitted. */
  lemma EmittedTail(buf: seq<Byte>, more: seq<Byte>, delim: seq<Byte>, safe: nat)
    requires delim != [] && IndexOf(delim, buf) < 0
    requires safe + |delim| <= |buf|
    ensures Emitted(buf + more, delim, false) <= safe + Emitted(buf[safe..] + more, delim, false)
    ensures more == [] ==> Emitted(buf + more, delim, false) == safe + Emitted(buf[safe..] + more, delim, false)
    ensures safe + Emitted(buf[safe..] + more, delim, true) == Emitted(buf + more, delim, true)
  {
    hide TerminatorOf, IndexOf, Emitted;
    var s := buf + more;
    var i := IndexOf(delim, s);
    IndexOfIsFirst(delim, s);
    if 0 <= i <= safe { NoneInPrefix(delim, buf, more, i); }
    EmittedAfterContent(s, delim, safe);
    assert s[safe..] == buf[safe..] + more;
    if more == [] { assert s == buf; }
  }

  /** Without a match, all but a delimiter-sized tail of the buffer is content. */
  lemma BodyTail(buf: seq<Byte>, more: seq<Byte>, delim: seq<Byte>, safe: nat)
    requires IndexOf(delim, buf) < 0
    requires safe + |delim| <= |buf|
    ensures BodyOf(buf + more, delim) == Prepend(buf[..safe], BodyOf(buf[safe..] + more, delim))
  {
    hide TerminatorOf, BodyOf, IndexOf;
    var s := buf + more;
    forall i: nat | i < safe ensures !AtDelimiter(s[i..], delim) {
      OccursShift(delim, s, i, 0);
      NoneInPrefix(delim, buf, more, i);
    }
    BodyAfterContent(s, delim, safe);
    assert s[..safe] == buf[..safe];
    assert s[safe..] == buf[safe..] + more;
  }

  /** The scan of a buffer that holds a match decides the body of the whole input. */
  lemma BodyMatch(buf: seq<Byte>, more: seq<Byte>, boundary: seq<Byte>)
    requires ValidBoundary(boundary) && IndexOf(Delimiter(boundary), buf) >= 0
    ensures var d := Delimiter(boundary);
            var i := IndexOf(d, buf);
            var after := buf[i + |d|..] + more;
            BodyOf(buf + more, d) ==
            match TerminatorOf(after)
            case Close => Body(buf[..i], true, after[2..])
            case Next(taken) => Body(buf[..i], false, after[taken..])
            case BadTerminator(e) => BadBody(e)
            case NotDelimiter => Prepend(buf[..i] + d, BodyOf(after, d))
  {
    hide TerminatorOf, BodyOf, IndexOf;
    FirstInPrefix(Delimiter(boundary), buf, more);
    IndexOfIsFirst(Delimiter(boundary), buf);
    BodyMatchAt(buf, more, boundary, IndexOf(Delimiter(boundary), buf));
  }

  lemma BodyMatchAt(buf: seq<Byte>, more: seq<Byte>, boundary: seq<Byte>, i: nat)
    requires ValidBoundary(boundary) && IndexOf(Delimiter(boundary), buf + more) == i
    requires Occurs(Delimiter(boundary), buf, i)
    ensures var d := Delimiter(boundary);
            var after := buf[i + |d|..] + more;
            BodyOf(buf + more, d) ==
            match TerminatorOf(after)
            case Close => Body(buf[..i], true, after[2..])
            case Next(taken) => Body(buf[..i], false, after[taken..])
            case BadTerminator(e) => BadBody(e)
            case NotDelimiter => Prepend(buf[..i] + d, BodyOf(after, d))
  {
    hide TerminatorOf, BodyOf, IndexOf;
    var d := Delimiter(boundary);
    var s := buf + more;
    assert s[i + |d|..] == buf[i + |d|..] + more;
    assert s[..i] == buf[..i];
    if TerminatorOf(s[i + |d|..]).NotDelimiter? {
      BodyAfterFalseMatch(boundary, s, i);
      assert s[..i + |d|] == buf[..i] + buf[i..i + |d|];
    } else {
      BodyAtFirstMatch(s, d, i);
    }
  }

  predicate IsPadding(s: seq<Byte>, n: nat) {
    n <= |s| && forall k | 0 <= k < n :: s[k] == SPACE || s[k] == TAB
  }

  lemma TooMuchPadding(s: seq<Byte>, i: nat)
    requires !TerminatorOf(s).Close? && IsPadding(s, i) && i > MAX_TRANSPORT_PADDING
    ensures TerminatorOf(s) == BadTerminator(InvalidDelimiter)
  {
    assert Padding(s) >= i;
  }

  lemma OnlyPadding(s: seq<Byte>)
    requires !TerminatorOf(s).Close? && IsPadding(s, |s|) && |s| <= MAX_TRANSPORT_PADDING
    ensures TerminatorOf(s) == BadTerminator(TruncatedBody)
  {
    PaddingIs(s, |s|);
  }

  /** The byte after the padding decides the terminator. */
  lemma PaddedTerminator(s: seq<Byte>, i: nat)
    requires !TerminatorOf(s).Close? && IsPadding(s, i) && i <= MAX_TRANSPORT_PADDING
    requires i < |s| && s[i] != SPACE && s[i] != TAB
    ensures TerminatorOf(s) ==
            if s[i] != CR && s[i] != LF then NotDelimiter
            else if s[i] == CR && i + 1 < |s| && s[i + 1] == LF then Next(i + 2)
            else Next(i + 1)
  {
    PaddingIs(s, i);
  }

  /** A buffer past the cap without a line end starts a line past the cap. */
  lemma LongLine(buf: seq<Byte>, more: seq<Byte>)
    requires IndexOf([LF], buf) < 0 && |buf| > MAX_PART_HEADERS + 1024
    ensures FirstLine(buf + more).Line? && |FirstLine(buf + more).bytes| > MAX_PART_HEADERS
  {
    IndexOfIsFirst([LF], buf + more);
    var k := IndexOf([LF], buf + more);
    if 0 <= k < |buf| { NoneInPrefix([LF], buf, more, k); }
  }

  // ----- the body generator ---------------------------------------------------------------

  datatype Step = Yield(chunk: seq<Byte>) | Finished | Threw(error: BadRequest)

  /** What the terminator behind a match says of the body and of the emitted bytes. */
  lemma MatchDecides(buf: seq<Byte>, more: seq<Byte>, boundary: seq<Byte>, i: nat)
    requires ValidBoundary(boundary) && IndexOf(Delimiter(boundary), buf) == i
    ensures var d := Delimiter(boundary);
            var after := buf[i + |d|..] + more;
            var t := TerminatorOf(after);
            var body := BodyOf(buf + more, d);
            && (t.Close? ==> body == Body(buf[..i], true, after[2..]))
            && (t.Next? ==> body == Body(buf[..i], false, after[t.taken..]))
            && (t.BadTerminator? ==>
                  && body == BadBody(t.error) && Emitted(buf + more, d, false) == 0
                  && (i <= 1 ==> Emitted(buf + more, d, true) == 0))
            && (t.NotDelimiter? ==>
                  && body == Prepend(buf[..i] + d, BodyOf(after, d))
                  && Emitted(buf + more, d, false) == i + |d| + Emitted(after, d, false)
                  && Emitted(buf + more, d, true) == i + |d| + Emitted(after, d, true))
  {
    hide TerminatorOf, BodyOf, IndexOf, Emitted;
    EmittedMatch(buf, more, Delimiter(boundary), i);
    BodyMatch(buf, more, boundary);
  }

  /** Where a body generator resumes: scan; fill after a partial chunk; return after the last chunk. */
  datatype Phase = Scanning | Filling | Ending

  /**
   What a step says about the body that was left `before` it and is left `after` it, where `s` and `t`
   are the unread bytes before and after. The emitted lengths matter only for a body that will fail: they are the
   least ones when all bytes come at once, and the greatest ones when each comes alone.
   */
  ghost predicate Explains(r: Step, before: Body, after: Body, s: seq<Byte>, t: seq<Byte>, delim: seq<Byte>, pace: Pace)
    requires delim != []
  {
    match r
    case Yield(chunk) =>
      && chunk != [] && |t| < |s|
      && before == Prepend(chunk, after)
      && (before.BadBody? ==>
            && Emitted(s, delim, false) <= |chunk| + Emitted(t, delim, false)
            && (pace.Whole? ==> Emitted(s, delim, false) == |chunk| + Emitted(t, delim, false))
            && Emitted(s, delim, true) == |chunk| + Emitted(t, delim, true))
    case Finished => before == after && after.Body? && after.content == []
    case Threw(e) =>
      && before == BadBody(e) && Emitted(s, delim, false) == 0
      && (pace.Bytewise? ==> Emitted(s, delim, true) == 0)
  }

  lemma CloseIsTwoDashes(s: seq<Byte>)
    ensures TerminatorOf(s).Close? <==> |s| >= 2 && s[0] == DASH && s[1] == DASH
  {
  }

  /** The step at a match in the buffer, by the terminator behind it. */
  lemma MatchExplains(buf: seq<Byte>, more: seq<Byte>, boundary: seq<Byte>, i: nat, pace: Pace)
    requires ValidBoundary(boundary) && IndexOf(Delimiter(boundary), buf) == i && (pace.Bytewise? ==> i <= 1)
    ensures var d := Delimiter(boundary);
            var s, after := buf + more, buf[i + |d|..] + more;
            var t := TerminatorOf(after);
            && (t.BadTerminator? ==> forall b, u :: Explains(Threw(t.error), BodyOf(s, d), b, s, u, d, pace))
            && (t.NotDelimiter? ==>
                  Explains(Yield(buf[..i] + d), BodyOf(s, d), BodyOf(after, d), s, after, d, pace))
            && (t.Close? || t.Next? ==>
                  var rest := after[if t.Close? then 2 else t.taken..];
                  Explains(if i > 0 then Yield(buf[..i]) else Finished,
                           BodyOf(s, d), Body([], t.Close?, rest), s, rest, d, pace))
  {
    hide TerminatorOf, BodyOf, IndexOf, Emitted;
    MatchDecides(buf, more, boundary, i);
    assert buf[..i] + [] == buf[..i];
  }

  class BodyGenerator {
    const state: ScanState
    ghost const boundary: seq<Byte>
    ghost const pace: Pace
    const delim: seq<Byte>
    const retain: nat
    var phase: Phase

    constructor (state: ScanState, boundary: seq<Byte>, ghost pace: Pace)
      requires ValidBoundary(boundary) && state.Valid() && state.Rests(pace) && !state.closed
      ensures this.state == state && this.boundary == boundary && this.pace == pace && delim == Delimiter(boundary)
      ensures Valid() && phase == Scanning
    {
      this.state := state;
      this.boundary := boundary;
      this.pace := pace;
      delim := Delimiter(boundary);
      retain := |boundary| + 4;
      phase := Scanning;
    }

    ghost predicate Valid() reads this, state {
      && Sound()
      && (phase.Filling? ==> !state.eof && |state.buf| <= retain)
      && (phase.Ending? ==> state.Rests(pace))
      && (!phase.Ending? && pace.Bytewise? ==> IndexOf(delim, state.buf) < 0)
    }

    ghost predicate Sound() reads this, state {
      && ValidBoundary(boundary) && delim == Delimiter(boundary) && retain == |delim|
      && state.Valid() && state.Paced(pace)
      && (!phase.Ending? ==> !state.closed)
      && (state.eof ==> |state.buf| <= retain)
    }

    /** Before a scan of the buffer; the last single byte may have completed a match. */
    ghost predicate Scans() reads this, state {
      && Sound() && phase.Scanning?
      && (pace.Bytewise? ==>
            IndexOf(delim, state.buf) < 0
            || (|state.buf| <= retain + 1 && IndexOf(delim, state.buf) + |delim| == |state.buf|))
    }

    /** The part of the body that the generator has still to yield. */
    ghost function Remaining(): Body reads this, state {
      if phase.Ending? then Body([], state.closed, state.Rest()) else BodyOf(state.Rest(), delim)
    }

    /** Resume the generator: run to the next yield, the return or the throw. */
    method Next() returns (r: Step)
      requires Valid()
      modifies this`phase, state
      ensures state.Valid() && (!r.Threw? ==> Valid())
      ensures Explains(r, old(Remaining()), Remaining(), old(state.Rest()), state.Rest(), delim, pace)
      ensures r.Finished? ==> phase.Ending?
    {
      hide TerminatorOf, BodyOf, IndexOf, AtDelimiter, Concat, Emitted;
      if phase.Ending? { return Finished; }
      if phase.Filling? {
        phase := Scanning;
        FillOnce();
      }
      while true
        invariant Scans() && state.Rest() == old(state.Rest())
        decreases state.Fuel()
      {
        var idx := IndexOfNeedle(state.buf, delim);
        if idx != -1 {
          r := AtMatch(idx);
          return;
        }
        if state.eof {
          state.RestAtEof();
          BodyWithoutMatch(state.Rest(), delim);
          EmittedWithoutMatch(state.Rest(), delim);
          return Threw(TruncatedBody);
        }
        if |state.buf| > retain {
          r := YieldSafe();
          return;
        }
        FillOnce();
      }
    }

    /** Pull one more chunk for a buffer without a match. */
    method FillOnce()
      requires Sound() && phase.Scanning? && !state.eof && |state.buf| <= retain
      requires pace.Bytewise? ==> IndexOf(delim, state.buf) < 0
      modifies state
      ensures Scans() && state.Rest() == old(state.Rest()) && state.Fuel() < old(state.Fuel())
    {
      hide IndexOf;
      ghost var before := state.buf;
      state.Fill();
      if pace.Bytewise? { MatchAfterOne(delim, before, state.buf); }
    }

    /** Yield all but the retained tail of a buffer without a match. */
    method YieldSafe() returns (r: Step)
      requires Scans() && IndexOf(delim, state.buf) < 0 && |state.buf| > retain && !state.eof
      modifies this`phase, state`buf
      ensures Valid() && !r.Threw? && !r.Finished?
      ensures Explains(r, old(Remaining()), Remaining(), old(state.Rest()), state.Rest(), delim, pace)
    {
      hide TerminatorOf, BodyOf, IndexOf, AtDelimiter, Emitted;
      var safe := |state.buf| - retain;
      BodyTail(state.buf, Concat(state.chunks), delim, safe);
      EmittedTail(state.buf, Concat(state.chunks), delim, safe);
      FirstAfterShortDrop(delim, state.buf, safe);
      var out := state.buf[..safe];
      state.buf := state.buf[safe..];
      phase := Filling;
      return Yield(out);
    }

    /** The branch of `Next` on a delimiter match at `idx` in the buffer. */
    method AtMatch(idx: nat) returns (r: Step)
      requires Scans() && IndexOf(delim, state.buf) == idx
      modifies this`phase, state
      ensures state.Valid() && (!r.Threw? ==> Valid())
      ensures Explains(r, old(Remaining()), Remaining(), old(state.Rest()), state.Rest(), delim, pace)
      ensures r.Finished? ==> phase.Ending?
    {
      hide TerminatorOf, BodyOf, IndexOf, AtDelimiter, Concat, Emitted, IsLeftover, Explains;
      MatchExplains(state.buf, Concat(state.chunks), boundary, idx, pace);
      var head := state.buf[..idx];
      assert state.Rest()[idx + |delim|..] == state.buf[idx + |delim|..] + Concat(state.chunks);
      state.Consume(idx + |delim|);
      var kind := state.ReadDelimiterSuffix(pace);
      if kind.BadTerminator? {
        return Threw(kind.error);
      } else if kind.NotDelimiter? {
        state.SearchesAfterFalseMatch(delim, pace);
        return Yield(head + delim);
      }
      EndBody(kind.Close?);
      return if |head| > 0 then Yield(head) else Finished;
    }

    /** Behind the delimiter of the body. */
    method EndBody(closes: bool)
      requires ValidBoundary(boundary) && delim == Delimiter(boundary) && retain == |delim|
      requires state.Valid() && state.Rests(pace) && !state.closed
      modifies this`phase, state`closed
      ensures Valid() && phase.Ending? && Remaining() == Body([], closes, old(state.Rest()))
      ensures state.Rest() == old(state.Rest())
    {
      hide BodyOf, IndexOf, Concat;
      if closes { state.closed := true; }
      phase := Ending;
    }
  }
}
