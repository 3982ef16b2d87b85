/** What the limits refuse: the sections of a message, read without any limit, decide it. */
module MultipartLimits {
  import opened ByteSeqs
  import opened MultipartSpec
  import opened MultipartParts
  import opened Results

  // ----- the sections of a message --------------------------------------------------------

  function Before(p: Part, rest: Option<seq<Part>>): Option<seq<Part>> {
    match rest case Some(ps) => Some([p] + ps) case None => None
  }

  /** All sections from part headers on, nameless ones included; none when anything is malformed. */
  function SectionsFrom(s: seq<Byte>, delim: seq<Byte>): Option<seq<Part>>
    decreases |s|
  {
    match HeadersOf(s, 0, [])
    case BadHeaders(_) => None
    case HeaderBlock(lines, rest) =>
      match BodyOf(rest, delim)
      case BadBody(_) => None
      case Body(content, closed, after) =>
        Before(Part(lines, content), if closed then Some([]) else SectionsFrom(after, delim))
  }

  function SectionsOf(s: seq<Byte>, boundary: seq<Byte>): Option<seq<Part>> {
    match SkipPreamble(s, FirstNeedle(boundary))
    case NoParts => Some([])
    case BadPreamble(_) => None
    case FirstPart(rest) => SectionsFrom(rest, Delimiter(boundary))
  }

  // ----- counting sections ----------------------------------------------------------------

  /** The sections with a name: the parts that are delivered. */
  function Named(ps: seq<Part>, classify: Classifier): seq<Part> {
    if ps == [] then []
    else (if classify(ps[0].lines).Nameless? then [] else [ps[0]]) + Named(ps[1..], classify)
  }

  function Files(ps: seq<Part>, classify: Classifier): seq<Part> {
    if ps == [] then [] else (if classify(ps[0].lines).File? then [ps[0]] else []) + Files(ps[1..], classify)
  }

  /** Bytes in all bodies. */
  function Size(ps: seq<Part>): nat {
    if ps == [] then 0 else |ps[0].content| + Size(ps[1..])
  }

  predicate BodyFits(p: Part, classify: Classifier, lim: Limits) {
    p.content == []
    || match classify(p.lines)
       case Nameless => true
       case Field => |p.content| <= lim.maxFieldSize
       case File => |p.content| <= lim.maxFileSize
  }

  /** Every body fits the cap of its kind; not too many named parts and files, and not too many bytes in all. Nothing
      is not too many, even for a negative limit. */
  ghost predicate Fits(ps: seq<Part>, classify: Classifier, lim: Limits) {
    && (forall p | p in ps :: BodyFits(p, classify, lim))
    && (Named(ps, classify) != [] ==> |Named(ps, classify)| <= lim.maxFields)
    && (Files(ps, classify) != [] ==> |Files(ps, classify)| <= lim.maxFiles)
    && (Size(ps) > 0 ==> Size(ps) <= lim.maxTotalBytes)
  }

  /** The limits that are left when some parts and bytes are counted already. */
  function Left(lim: Limits, counts: Counts): Limits {
    Limits(lim.maxFileSize, lim.maxFiles - counts.files, lim.maxFields - counts.fields, lim.maxFieldSize,
           lim.maxTotalBytes - counts.total)
  }

  function After(p: Part, classify: Classifier, counts: Counts): Counts {
    var c := CountPart(classify(p.lines), counts);
    c.(total := c.total + |p.content|)
  }

  /** The checks made while one section is read. */
  predicate Passes(p: Part, classify: Classifier, lim: Limits, counts: Counts) {
    var kind := classify(p.lines);
    var c := CountPart(kind, counts);
    WithinCounts(kind, c, lim) && !Exceeds(|p.content|, Room(kind, c, lim))
  }

  lemma FitsNothing(classify: Classifier, lim: Limits)
    ensures Fits([], classify, lim)
  {
  }

  /** Checking section by section is checking the whole. */
  lemma FitsStep(p: Part, rest: seq<Part>, classify: Classifier, lim: Limits, counts: Counts)
    ensures Fits([p] + rest, classify, Left(lim, counts)) <==>
            Passes(p, classify, lim, counts) && Fits(rest, classify, Left(lim, After(p, classify, counts)))
  {
    var ps := [p] + rest;
    assert ps[0] == p && ps[1..] == rest;
    BodiesFitStep(p, rest, classify, Left(lim, counts), Left(lim, After(p, classify, counts)));
    hide BodyFits;
  }

  lemma BodiesFitStep(p: Part, rest: seq<Part>, classify: Classifier, lim: Limits, less: Limits)
    requires less.maxFieldSize == lim.maxFieldSize && less.maxFileSize == lim.maxFileSize
    ensures (forall q | q in [p] + rest :: BodyFits(q, classify, lim)) <==>
            BodyFits(p, classify, lim) && forall q | q in rest :: BodyFits(q, classify, less)
    ensures BodyFits(p, classify, lim) <==>
            p.content == [] || match classify(p.lines)
                               case Nameless => true
                               case Field => |p.content| <= lim.maxFieldSize
                               case File => |p.content| <= lim.maxFileSize
  {
    assert forall q :: q in [p] + rest <==> q == p || q in rest;
    forall q ensures BodyFits(q, classify, less) == BodyFits(q, classify, lim) {}
    hide BodyFits;
  }

  /** The first `k` sections fit, and one more does not. */
  ghost predicate FitsUpTo(ps: seq<Part>, k: int, classify: Classifier, lim: Limits) {
    0 <= k < |ps| && Fits(ps[..k], classify, lim) && !Fits(ps[..k + 1], classify, lim)
  }

  /** What is read of these sections: all named ones, or status 413 behind those before the first that does not fit. */
  ghost predicate ReadWithin(m: Message, ps: seq<Part>, classify: Classifier, lim: Limits) {
    if Fits(ps, classify, lim) then m == Message(Named(ps, classify), Done)
    else
      && m.end == Failed(Status413)
      && exists k :: FitsUpTo(ps, k, classify, lim) && m.parts == Named(ps[..k], classify)
  }

  lemma NamedStep(p: Part, rest: seq<Part>, classify: Classifier)
    ensures Named([p] + rest, classify)
            == (if classify(p.lines).Nameless? then [] else [p]) + Named(rest, classify)
  {
    assert ([p] + rest)[1..] == rest;
  }

  lemma WithPartNamed(p: Part, ps: seq<Part>, classify: Classifier, end: End)
    ensures WithPart(p.lines, p.content, classify(p.lines), Message(Named(ps, classify), end))
            == Message(Named([p] + ps, classify), end)
  {
    NamedStep(p, ps, classify);
    assert Part(p.lines, p.content) == p;
    assert [] + Named(ps, classify) == Named(ps, classify);
  }

  lemma FirstFails(p: Part, rest: seq<Part>, classify: Classifier, lim: Limits, counts: Counts)
    requires !Passes(p, classify, lim, counts)
    ensures ReadWithin(Message([], Failed(Status413)), [p] + rest, classify, Left(lim, counts))
  {
    hide *;
    FitsStep(p, rest, classify, lim, counts);
    FitsStep(p, [], classify, lim, counts);
    FitsNothing(classify, Left(lim, counts));
    NothingRead(p, rest, classify, Left(lim, counts));
  }

  lemma NothingRead(p: Part, rest: seq<Part>, classify: Classifier, lim: Limits)
    requires Fits([], classify, lim) && !Fits([p] + [], classify, lim) && !Fits([p] + rest, classify, lim)
    ensures ReadWithin(Message([], Failed(Status413)), [p] + rest, classify, lim)
  {
    var ps := [p] + rest;
    assert ps[..0] == [] && ps[..1] == [p] + [];
    assert Named(ps[..0], classify) == [];
    hide Fits, Named;
    assert FitsUpTo(ps, 0, classify, lim);
  }

  lemma FirstPasses(p: Part, rest: seq<Part>, tail: Message, classify: Classifier, lim: Limits, counts: Counts)
    requires Passes(p, classify, lim, counts)
    requires ReadWithin(tail, rest, classify, Left(lim, After(p, classify, counts)))
    ensures ReadWithin(WithPart(p.lines, p.content, classify(p.lines), tail), [p] + rest, classify, Left(lim, counts))
  {
    hide Fits, Passes, Named, WithPart, Left, After;
    var ps, more := [p] + rest, Left(lim, After(p, classify, counts));
    FitsStep(p, rest, classify, lim, counts);
    if Fits(rest, classify, more) {
      WithPartNamed(p, rest, classify, Done);
    } else {
      var k :| FitsUpTo(rest, k, classify, more) && tail.parts == Named(rest[..k], classify);
      FitsStep(p, rest[..k], classify, lim, counts);
      FitsStep(p, rest[..k + 1], classify, lim, counts);
      assert ps[..k + 1] == [p] + rest[..k] && ps[..k + 2] == [p] + rest[..k + 1];
      assert FitsUpTo(ps, k + 1, classify, Left(lim, counts));
      WithPartNamed(p, rest[..k], classify, Failed(Status413));
    }
  }

  // ----- the limits decide ----------------------------------------------------------------

  /** What the sections of some bytes, if they have any, make of a message under these limits. */
  ghost predicate Decides(sections: Option<seq<Part>>, m: Message, classify: Classifier, lim: Limits) {
    match sections
    case Some(ps) => ReadWithin(m, ps, classify, lim)
    case None => !m.end.Done?
  }

  lemma WithPartEnd(lines: seq<seq<Byte>>, content: seq<Byte>, kind: Kind, tail: Message)
    ensures WithPart(lines, content, kind, tail).end == tail.end
  {
  }

  lemma BeforeDecides(p: Part, rest: Option<seq<Part>>, tail: Message, m: Message,
                      classify: Classifier, lim: Limits, counts: Counts)
    requires Decides(rest, tail, classify, Left(lim, After(p, classify, counts)))
    requires m == if Passes(p, classify, lim, counts) then WithPart(p.lines, p.content, classify(p.lines), tail)
                  else Message([], Failed(Status413))
    ensures Decides(Before(p, rest), m, classify, Left(lim, counts))
  {
    hide Passes, ReadWithin, WithPart, Left, After;
    if rest.Some? {
      if Passes(p, classify, lim, counts) { FirstPasses(p, rest.value, tail, classify, lim, counts); }
      else { FirstFails(p, rest.value, classify, lim, counts); }
    } else {
      WithPartEnd(p.lines, p.content, classify(p.lines), tail);
    }
  }

  /** One section in both readings. */
  lemma OneSection(s: seq<Byte>, delim: seq<Byte>, classify: Classifier, lim: Limits, counts: Counts,
                   lines: seq<seq<Byte>>, rest: seq<Byte>, content: seq<Byte>, closed: bool, after: seq<Byte>)
    requires delim != []
    requires HeadersOf(s, 0, []) == HeaderBlock(lines, rest) && BodyOf(rest, delim) == Body(content, closed, after)
    ensures var p := Part(lines, content);
            && SectionsFrom(s, delim) == Before(p, if closed then Some([]) else SectionsFrom(after, delim))
            && PartsFrom(s, delim, classify, lim, counts) ==
               if !Passes(p, classify, lim, counts) then Message([], Failed(Status413))
               else WithPart(lines, content, classify(lines),
                             if closed then Message([], Done)
                             else PartsFrom(after, delim, classify, lim, After(p, classify, counts)))
  {
    hide HeadersOf, BodyOf, WithinCounts, Room, Exceeds, CountPart, WithPart, Before;
    PartsFromHeaders(s, delim, classify, lim, counts);
  }

  /** Sections that end in a defect end in a failure, whatever the limits. */
  lemma DefectFails(s: seq<Byte>, delim: seq<Byte>, classify: Classifier, lim: Limits, counts: Counts)
    requires delim != []
    requires var h := HeadersOf(s, 0, []); h.BadHeaders? || BodyOf(h.rest, delim).BadBody?
    ensures SectionsFrom(s, delim) == None && !PartsFrom(s, delim, classify, lim, counts).end.Done?
  {
    hide HeadersOf, BodyOf, WithinCounts, Room, Exceeds, CountPart, WithPart, Before;
    PartsFromHeaders(s, delim, classify, lim, counts);
  }

  lemma {:induction false} SectionsDecide(s: seq<Byte>, delim: seq<Byte>, classify: Classifier, lim: Limits,
                                          counts: Counts)
    requires delim != []
    ensures Decides(SectionsFrom(s, delim), PartsFrom(s, delim, classify, lim, counts), classify, Left(lim, counts))
    decreases |s|
  {
    hide HeadersOf, BodyOf, SectionsFrom, PartsFrom, Decides, Passes, WithPart, Left, After, Before;
    var h := HeadersOf(s, 0, []);
    if h.BadHeaders? || BodyOf(h.rest, delim).BadBody? {
      DefectFails(s, delim, classify, lim, counts);
      NoneDecides(PartsFrom(s, delim, classify, lim, counts), classify, Left(lim, counts));
    } else {
      var b := BodyOf(h.rest, delim);
      var p := Part(h.lines, b.content);
      var next := After(p, classify, counts);
      OneSection(s, delim, classify, lim, counts, h.lines, h.rest, b.content, b.closed, b.rest);
      if b.closed {
        NothingDecides(classify, Left(lim, next));
        BeforeDecides(p, Some([]), Message([], Done), PartsFrom(s, delim, classify, lim, counts), classify, lim,
                      counts);
      } else {
        SectionsDecide(b.rest, delim, classify, lim, next);
        BeforeDecides(p, SectionsFrom(b.rest, delim), PartsFrom(b.rest, delim, classify, lim, next),
                      PartsFrom(s, delim, classify, lim, counts), classify, lim, counts);
      }
    }
  }

  lemma NoneDecides(m: Message, classify: Classifier, lim: Limits)
    requires !m.end.Done?
    ensures Decides(None, m, classify, lim)
  {
  }

  lemma NothingDecides(classify: Classifier, lim: Limits)
    ensures Decides(Some([]), Message([], Done), classify, lim)
  {
    FitsNothing(classify, lim);
  }

  /** A message that ends under no limits at all has sections, and what is read of it under any limits is exactly what
      fits of them; a malformed one ends under none. */
  lemma LimitsDecide(s: seq<Byte>, boundary: seq<Byte>, classify: Classifier, lim: Limits)
    ensures Decides(SectionsOf(s, boundary), ParseMultipart(s, boundary, classify, lim), classify, lim)
  {
    hide SectionsFrom, PartsFrom, Decides, Left, SkipPreamble;
    NothingCounted(lim);
    match SkipPreamble(s, FirstNeedle(boundary))
    case NoParts => NothingDecides(classify, lim);
    case BadPreamble(e) => NoneDecides(Message([], Failed(Status400(e))), classify, lim);
    case FirstPart(rest) => SectionsDecide(rest, Delimiter(boundary), classify, lim, Counts(0, 0, 0));
  }

  lemma NothingCounted(lim: Limits)
    ensures Left(lim, Counts(0, 0, 0)) == lim
  {
  }

  /**
   A message that ends `Done` under some limits consists of sections, and under any limits it ends `Done` with all
   named parts if and only if the sections fit; otherwise with status 413, behind the parts before the first section
   that does not fit.
   */
  lemma SameMessageWithin(s: seq<Byte>, boundary: seq<Byte>, classify: Classifier, free: Limits, lim: Limits)
    requires ParseMultipart(s, boundary, classify, free).end.Done?
    ensures SectionsOf(s, boundary).Some?
    ensures var ps := SectionsOf(s, boundary).value;
            var m := ParseMultipart(s, boundary, classify, lim);
            && (m.end.Done? <==> Fits(ps, classify, lim))
            && (m.end.Done? ==> m == ParseMultipart(s, boundary, classify, free))
            && (!m.end.Done? ==> m.end == Failed(Status413)
                                 && exists k :: FitsUpTo(ps, k, classify, lim) && m.parts == Named(ps[..k], classify))
  {
    hide SectionsOf, ParseMultipart, Fits, FitsUpTo;
    LimitsDecide(s, boundary, classify, free);
    LimitsDecide(s, boundary, classify, lim);
  }

  lemma {:induction false} CountsAreBounded(ps: seq<Part>, classify: Classifier)
    ensures |Named(ps, classify)| <= |ps| && |Files(ps, classify)| <= |ps|
    ensures forall p | p in ps :: |p.content| <= Size(ps)
  {
    if ps != [] { CountsAreBounded(ps[1..], classify); }
  }

  /** Sections are what some limits let through. */
  lemma SomeLimitsDo(s: seq<Byte>, boundary: seq<Byte>, classify: Classifier)
    ensures SectionsOf(s, boundary).Some? <==> exists lim :: ParseMultipart(s, boundary, classify, lim).end.Done?
    ensures SectionsOf(s, boundary).Some? ==>
              exists lim :: ParseMultipart(s, boundary, classify, lim)
                            == Message(Named(SectionsOf(s, boundary).value, classify), Done)
  {
    hide SectionsOf, ParseMultipart, Named, Files, Size;
    forall lim ensures ParseMultipart(s, boundary, classify, lim).end.Done? ==> SectionsOf(s, boundary).Some? {
      LimitsDecide(s, boundary, classify, lim);
    }
    if SectionsOf(s, boundary).Some? {
      var ps := SectionsOf(s, boundary).value;
      var n := |ps| + Size(ps);
      var lim := Limits(n, n, n, n, n);
      CountsAreBounded(ps, classify);
      assert Fits(ps, classify, lim);
      LimitsDecide(s, boundary, classify, lim);
      hide Fits;
      assert ParseMultipart(s, boundary, classify, lim) == Message(Named(ps, classify), Done);
    }
  }
}
