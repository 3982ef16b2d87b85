/** Iteration over the parts of a multipart body with its limits, on top of the byte scanner. */
module MultipartParts {
  import opened ByteSeqs
  import opened MultipartSpec
  import opened MultipartScanner
  import opened Results

  /** What the header lines make of a part: no `name`, a `name` only, or also a `filename`. */
  datatype Kind = Nameless | Field | File

  datatype Limits = Limits(maxFileSize: int, maxFiles: int, maxFields: int, maxFieldSize: int, maxTotalBytes: int)

  /** Parts and bytes counted so far. */
  datatype Counts = Counts(files: nat, fields: nat, total: nat)

  datatype Part = Part(lines: seq<seq<Byte>>, content: seq<Byte>)

  datatype Failure = Status400(error: BadRequest) | Status413

  /** How a message ends. `ByChunking`: 400 or 413, and which of them depends on the chunking. */
  datatype End = Done | Failed(failure: Failure) | ByChunking(error: BadRequest)

  datatype Message = Message(parts: seq<Part>, end: End)

  type Classifier = seq<seq<Byte>> -> Kind

  /** The counts once the headers of a part of this kind are read. */
  function CountPart(kind: Kind, counts: Counts): Counts {
    match kind
    case Nameless => counts
    case Field => counts.(fields := counts.fields + 1)
    case File => counts.(fields := counts.fields + 1, files := counts.files + 1)
  }

  predicate WithinCounts(kind: Kind, counts: Counts, lim: Limits) {
    (kind.Nameless? || counts.fields <= lim.maxFields) && (kind.File? ==> counts.files <= lim.maxFiles)
  }

  /** Content bytes that this part may still take; the own cap of a part does not bind a nameless one. */
  function Room(kind: Kind, counts: Counts, lim: Limits): int {
    var left := lim.maxTotalBytes - counts.total;
    match kind
    case Nameless => left
    case Field => if lim.maxFieldSize < left then lim.maxFieldSize else left
    case File => if lim.maxFileSize < left then lim.maxFileSize else left
  }

  /** Every yielded chunk has at least one byte, so an empty body never exceeds a limit. */
  predicate Exceeds(size: int, room: int) { size > 0 && size > room }

  /** The parts of the bytes `s` that start with part headers. */
  function PartsFrom(s: seq<Byte>, delim: seq<Byte>, classify: Classifier, lim: Limits, counts: Counts): Message
    requires delim != []
    decreases |s|, 1
  {
    match HeadersOf(s, 0, [])
    case BadHeaders(e) => Message([], Failed(Status400(e)))
    case HeaderBlock(lines, rest) =>
      if !WithinCounts(classify(lines), CountPart(classify(lines), counts), lim) then Message([], Failed(Status413))
      else BodyAndOn(rest, lines, classify(lines), delim, classify, lim, CountPart(classify(lines), counts))
  }

  lemma PartsFromHeaders(s: seq<Byte>, delim: seq<Byte>, classify: Classifier, lim: Limits, counts: Counts)
    requires delim != []
    ensures var h := HeadersOf(s, 0, []);
            PartsFrom(s, delim, classify, lim, counts) ==
            if h.BadHeaders? then Message([], Failed(Status400(h.error)))
            else if !WithinCounts(classify(h.lines), CountPart(classify(h.lines), counts), lim)
              then Message([], Failed(Status413))
            else BodyAndOn(h.rest, h.lines, classify(h.lines), delim, classify, lim,
                           CountPart(classify(h.lines), counts))
  {
  }

  /** The message from the body of a part on. */
  function BodyAndOn(s: seq<Byte>, lines: seq<seq<Byte>>, kind: Kind,
                     delim: seq<Byte>, classify: Classifier, lim: Limits, counts: Counts): Message
    requires delim != []
    decreases |s|, 2
  {
    var room := Room(kind, counts, lim);
    match BodyOf(s, delim)
    case BadBody(e) =>
      if Exceeds(Emitted(s, delim, false), room) then Message([], Failed(Status413))
      else if Exceeds(Emitted(s, delim, true), room) then Message([], ByChunking(e))
      else Message([], Failed(Status400(e)))
    case Body(content, closed, rest) =>
      if Exceeds(|content|, room) then Message([], Failed(Status413))
      else
        var tail := if closed then Message([], Done)
                    else PartsFrom(rest, delim, classify, lim, counts.(total := counts.total + |content|));
        WithPart(lines, content, kind, tail)
  }

  /** A nameless part is skipped. */
  function WithPart(lines: seq<seq<Byte>>, content: seq<Byte>, kind: Kind, tail: Message): Message {
    if kind.Nameless? then tail else tail.(parts := [Part(lines, content)] + tail.parts)
  }

  /** The message that a whole request body carries. */
  function ParseMultipart(s: seq<Byte>, boundary: seq<Byte>, classify: Classifier, lim: Limits): Message {
    match SkipPreamble(s, FirstNeedle(boundary))
    case NoParts => Message([], Done)
    case BadPreamble(e) => Message([], Failed(Status400(e)))
    case FirstPart(rest) => PartsFrom(rest, Delimiter(boundary), classify, lim, Counts(0, 0, 0))
  }

  /** An actual end allowed by the specified one; at both extreme paces it is determined. */
  predicate Allows(spec: End, actual: End, pace: Pace) {
    match spec
    case ByChunking(e) =>
      && (actual == Failed(Status413) || actual == Failed(Status400(e)))
      && (pace.Whole? ==> actual == Failed(Status400(e)))
      && (pace.Bytewise? ==> actual == Failed(Status413))
    case _ => actual == spec
  }

  // ----- reading one body under its limits ------------------------------------------------

  datatype BodyOutcome = Complete(content: seq<Byte>) | Stopped(failure: Failure)

  function FailedBody(e: BadRequest, emitted: nat, room: int): BodyOutcome {
    if Exceeds(emitted, room) then Stopped(Status413) else Stopped(Status400(e))
  }

  /** What reading the body that `s` starts with may give. A failing body emits the least when all bytes come at
      once, and the most when each comes alone. */
  ghost predicate BodyOutcomeOf(out: BodyOutcome, s: seq<Byte>, delim: seq<Byte>, room: int, pace: Pace)
    requires delim != []
  {
    match BodyOf(s, delim)
    case Body(content, _, _) => out == if Exceeds(|content|, room) then Stopped(Status413) else Complete(content)
    case BadBody(e) =>
      && ((out == Stopped(Status413) && Exceeds(Emitted(s, delim, true), room))
          || (out == Stopped(Status400(e)) && !Exceeds(Emitted(s, delim, false), room)))
      && (pace.Whole? ==> out == FailedBody(e, Emitted(s, delim, false), room))
      && (pace.Bytewise? ==> out == FailedBody(e, Emitted(s, delim, true), room))
  }

  /** Run a generator to its end, or until a limit is passed. */
  method ReadBody(gen: BodyGenerator, kind: Kind, counts: Counts, lim: Limits) returns (out: BodyOutcome)
    requires gen.Valid() && gen.phase.Scanning?
    modifies gen`phase, gen.state
    ensures gen.state.Valid()
    ensures BodyOutcomeOf(out, old(gen.state.Rest()), gen.delim, Room(kind, counts, lim), gen.pace)
    ensures out.Complete? ==>
              && gen.state.Rests(gen.pace)
              && BodyOf(old(gen.state.Rest()), gen.delim) == Body(out.content, gen.state.closed, gen.state.Rest())
  {
    hide IndexOf, BodyOf, Emitted, BodyOutcomeOf, WithinEmitted, Explains;
    ghost var s := gen.state.Rest();
    ghost var room := Room(kind, counts, lim);
    var perPartMax := if kind.File? then lim.maxFileSize else lim.maxFieldSize;
    var content: seq<Byte> := [];
    PrependNothing(gen.Remaining());
    NothingEmitted(s, gen.delim, gen.pace);
    while true
      invariant gen.Valid()
      invariant BodyOf(s, gen.delim) == Prepend(content, gen.Remaining())
      invariant WithinEmitted(s, content, gen.state.Rest(), gen.delim, gen.pace)
      invariant !Exceeds(|content|, room)
      decreases |gen.state.Rest()|
    {
      ghost var before, t := gen.Remaining(), gen.state.Rest();
      var step := gen.Next();
      StepEmits(s, content, before, gen.Remaining(), step, t, gen.state.Rest(), gen.delim, gen.pace);
      match step {
        case Threw(e) =>
          ThrownOutcome(s, content, t, gen.delim, room, gen.pace, e);
          return Stopped(Status400(e));
        case Finished =>
          CompleteOutcome(s, content, gen.Remaining(), gen.delim, room, gen.pace);
          return Complete(content);
        case Yield(chunk) =>
          content := content + chunk;
          StoppedOutcome(s, content, gen.Remaining(), gen.state.Rest(), gen.delim, room, gen.pace);
          if !kind.Nameless? && |content| > perPartMax { return Stopped(Status413); }
          if counts.total + |content| > lim.maxTotalBytes { return Stopped(Status413); }
      }
    }
  }

  /** `content` of a failing body is emitted and `t` is unread: what is emitted at both extremes. */
  ghost predicate WithinEmitted(s: seq<Byte>, content: seq<Byte>, t: seq<Byte>, delim: seq<Byte>, pace: Pace)
    requires delim != []
  {
    BodyOf(s, delim).BadBody? ==>
      && Emitted(s, delim, false) <= |content| + Emitted(t, delim, false)
      && (pace.Whole? ==> Emitted(s, delim, false) == |content| + Emitted(t, delim, false))
      && Emitted(s, delim, true) == |content| + Emitted(t, delim, true)
  }

  lemma NothingEmitted(s: seq<Byte>, delim: seq<Byte>, pace: Pace)
    requires delim != []
    ensures WithinEmitted(s, [], s, delim, pace)
  {
    hide BodyOf, Emitted;
  }

  /** One step of the generator, seen from the start of the body. */
  lemma StepEmits(s: seq<Byte>, content: seq<Byte>, before: Body, after: Body, step: Step, t: seq<Byte>, u: seq<Byte>,
                  delim: seq<Byte>, pace: Pace)
    requires delim != [] && Explains(step, before, after, t, u, delim, pace)
    requires BodyOf(s, delim) == Prepend(content, before) && WithinEmitted(s, content, t, delim, pace)
    ensures step.Yield? ==>
              && step.chunk != [] && |u| < |t|
              && BodyOf(s, delim) == Prepend(content + step.chunk, after)
              && WithinEmitted(s, content + step.chunk, u, delim, pace)
    ensures step.Finished? ==> after == before && after.Body? && after.content == []
    ensures step.Threw? ==>
              && BodyOf(s, delim) == BadBody(step.error) && Emitted(t, delim, false) == 0
              && (pace.Bytewise? ==> Emitted(t, delim, true) == 0)
  {
    hide BodyOf, Emitted;
    if step.Yield? { PrependTwice(content, step.chunk, after); }
  }

  lemma ThrownOutcome(s: seq<Byte>, content: seq<Byte>, t: seq<Byte>, delim: seq<Byte>, room: int, pace: Pace,
                      e: BadRequest)
    requires delim != [] && WithinEmitted(s, content, t, delim, pace) && !Exceeds(|content|, room)
    requires BodyOf(s, delim) == BadBody(e) && Emitted(t, delim, false) == 0
    requires pace.Bytewise? ==> Emitted(t, delim, true) == 0
    ensures BodyOutcomeOf(Stopped(Status400(e)), s, delim, room, pace)
  {
    hide BodyOf, Emitted;
  }

  lemma CompleteOutcome(s: seq<Byte>, content: seq<Byte>, after: Body, delim: seq<Byte>, room: int, pace: Pace)
    requires delim != [] && !Exceeds(|content|, room)
    requires BodyOf(s, delim) == Prepend(content, after) && after.Body? && after.content == []
    ensures BodyOutcomeOf(Complete(content), s, delim, room, pace)
    ensures BodyOf(s, delim) == Body(content, after.closed, after.rest)
  {
    hide BodyOf, Emitted;
    assert content + [] == content;
  }

  lemma StoppedOutcome(s: seq<Byte>, content: seq<Byte>, after: Body, t: seq<Byte>, delim: seq<Byte>, room: int,
                       pace: Pace)
    requires delim != [] && BodyOf(s, delim) == Prepend(content, after) && WithinEmitted(s, content, t, delim, pace)
    ensures Exceeds(|content|, room) ==> BodyOutcomeOf(Stopped(Status413), s, delim, room, pace)
  {
    hide BodyOf, Emitted;
    EmittedOrder(t, delim);
  }

  lemma PrependNothing(b: Body)
    ensures Prepend([], b) == b
  {
    if b.Body? { assert [] + b.content == b.content; }
  }

  lemma PrependTwice(x: seq<Byte>, y: seq<Byte>, b: Body)
    ensures Prepend(x, Prepend(y, b)) == Prepend(x + y, b)
  {
    if b.Body? { assert x + (y + b.content) == (x + y) + b.content; }
  }

  // ----- iterating over the parts ---------------------------------------------------------

  /** A part as the consumer saw it: with its bytes, or unread and drained by the iterator. */
  datatype Delivered = Delivered(lines: seq<seq<Byte>>, seen: Option<seq<Byte>>)

  /** What a consumer sees that reads to their ends the bodies `wants` tells and no others. */
  function Seen(parts: seq<Part>, wants: nat -> bool): (r: seq<Delivered>)
    ensures |r| == |parts|
  {
    seq(|parts|, i requires 0 <= i < |parts| =>
      Delivered(parts[i].lines, if wants(i) then Some(parts[i].content) else None))
  }

  datatype Pending = NoPending | Pending(gen: BodyGenerator, lines: seq<seq<Byte>>, kind: Kind)

  /** The message still to come after the parts in `done` have been delivered. */
  ghost predicate Continues(full: Message, done: seq<Part>, rest: Message) {
    full == Message(done + rest.parts, rest.end)
  }

  lemma ContinuesWithPart(full: Message, done: seq<Part>, p: Part, rest: Message)
    requires Continues(full, done, rest.(parts := [p] + rest.parts))
    ensures Continues(full, done + [p], rest)
  {
    assert done + ([p] + rest.parts) == (done + [p]) + rest.parts;
  }

  lemma ContinuesAtEnd(full: Message, done: seq<Part>, end: End)
    requires Continues(full, done, Message([], end))
    ensures full == Message(done, end)
  {
    assert done + [] == done;
  }

  lemma Ends(full: Message, done: seq<Part>, rest: Message, actual: End, pace: Pace)
    requires Continues(full, done, rest) && rest.parts == [] && Allows(rest.end, actual, pace)
    ensures full.parts == done && Allows(full.end, actual, pace)
  {
    assert done + [] == done;
  }

  lemma SeenSnoc(done: seq<Part>, p: Part, wants: nat -> bool)
    ensures Seen(done + [p], wants) ==
            Seen(done, wants) + [Delivered(p.lines, if wants(|done|) then Some(p.content) else None)]
  {
  }

  /** The message that is left when the scanner stands after the delimiter of a part. */
  ghost function After(state: ScanState, delim: seq<Byte>, classify: Classifier, lim: Limits, counts: Counts): Message
    requires delim != []
    reads state
  {
    if state.closed then Message([], Done) else PartsFrom(state.Rest(), delim, classify, lim, counts)
  }

  /** The message that is left when the scanner stands at the body of a part. */
  lemma BodyDone(s: seq<Byte>, lines: seq<seq<Byte>>, kind: Kind, delim: seq<Byte>, classify: Classifier, lim: Limits,
                 counts: Counts, out: BodyOutcome, state: ScanState, pace: Pace)
    requires delim != [] && BodyOutcomeOf(out, s, delim, Room(kind, counts, lim), pace)
    requires out.Complete? ==> BodyOf(s, delim) == Body(out.content, state.closed, state.Rest())
    ensures var m := BodyAndOn(s, lines, kind, delim, classify, lim, counts);
            match out
            case Stopped(f) => m.parts == [] && Allows(m.end, Failed(f), pace)
            case Complete(content) =>
              m == WithPart(lines, content, kind,
                            After(state, delim, classify, lim, counts.(total := counts.total + |content|)))
  {
    hide BodyOf, PartsFrom, Emitted;
    EmittedOrder(s, delim);
  }

  /** The chunks come at this pace. */
  predicate ComesAt(chunks: seq<seq<Byte>>, pace: Pace) {
    match pace
    case AnyPace => true
    case Whole => |chunks| == 1
    case Bytewise => forall c | c in chunks :: |c| == 1
  }

  /** Read the body of a part and count its bytes; `full` is the whole message and `done` what was delivered. */
  method ReadPart(gen: BodyGenerator, lines: seq<seq<Byte>>, kind: Kind, classify: Classifier, lim: Limits,
                  counts: Counts,
                  ghost full: Message, ghost done: seq<Part>)
    returns (out: BodyOutcome)
    requires gen.Valid() && gen.phase.Scanning?
    requires Continues(full, done, BodyAndOn(gen.state.Rest(), lines, kind, gen.delim, classify, lim, counts))
    modifies gen`phase, gen.state
    ensures gen.state.Valid()
    ensures out.Stopped? ==> full.parts == done && Allows(full.end, Failed(out.failure), gen.pace)
    ensures out.Complete? ==>
              && gen.state.Rests(gen.pace) && |gen.state.Rest()| <= |old(gen.state.Rest())|
              && Continues(full, if kind.Nameless? then done else done + [Part(lines, out.content)],
                           After(gen.state, gen.delim, classify, lim, counts.(total := counts.total + |out.content|)))
  {
    hide BodyOf, PartsFrom, BodyAndOn, Emitted, BodyOutcomeOf, Continues;
    ghost var s := gen.state.Rest();
    out := ReadBody(gen, kind, counts, lim);
    BodyDone(s, lines, kind, gen.delim, classify, lim, counts, out, gen.state, gen.pace);
    if out.Stopped? {
      Ends(full, done, BodyAndOn(s, lines, kind, gen.delim, classify, lim, counts), Failed(out.failure), gen.pace);
    } else if !kind.Nameless? {
      ContinuesWithPart(full, done, Part(lines, out.content),
                        After(gen.state, gen.delim, classify, lim, counts.(total := counts.total + |out.content|)));
    }
  }

  datatype Head = Ended(end: End) | Entered(lines: seq<seq<Byte>>)

  /** Behind the delimiter of a part: stop at the close delimiter, or read the headers of the next part. */
  method EnterPart(state: ScanState, delim: seq<Byte>, classify: Classifier, lim: Limits, counts: Counts,
                   ghost pace: Pace, ghost full: Message, ghost done: seq<Part>)
    returns (r: Head)
    requires delim != [] && state.Valid() && state.Rests(pace)
    requires Continues(full, done, After(state, delim, classify, lim, counts))
    modifies state`chunks, state`buf, state`eof
    ensures state.Valid()
    ensures r.Ended? ==> full.parts == done && Allows(full.end, r.end, pace)
    ensures r.Entered? ==>
              && state.Rests(pace) && |state.Rest()| < |old(state.Rest())| && !state.closed
              && var kind := classify(r.lines);
                 Continues(full, done, BodyAndOn(state.Rest(), r.lines, kind, delim, classify, lim,
                                                 CountPart(kind, counts)))
  {
    hide PartsFrom, HeadersOf, BodyAndOn, Continues, Allows;
    if state.closed {
      EndIs(full, done, Done, pace);
      return Ended(Done);
    }
    PartsFromHeaders(state.Rest(), delim, classify, lim, counts);
    var headers := state.ReadPartHeaders(pace);
    match headers {
      case HeadersThrew(e) =>
        EndIs(full, done, Failed(Status400(e)), pace);
        return Ended(Failed(Status400(e)));
      case GotHeaders(lines) =>
        var kind := classify(lines);
        if !WithinCounts(kind, CountPart(kind, counts), lim) {
          EndIs(full, done, Failed(Status413), pace);
          return Ended(Failed(Status413));
        }
        return Entered(lines);
    }
  }

  method IterateParts(chunks: seq<seq<Byte>>, boundary: seq<Byte>, classify: Classifier, lim: Limits,
                      wants: nat -> bool, ghost pace: Pace)
    returns (delivered: seq<Delivered>, end: End)
    requires ValidBoundary(boundary) && ComesAt(chunks, pace)
    ensures var m := ParseMultipart(Concat(chunks), boundary, classify, lim);
            delivered == Seen(m.parts, wants) && Allows(m.end, end, pace)
  {
    hide *;
    ghost var full := ParseMultipart(Concat(chunks), boundary, classify, lim);
    var state := new ScanState(chunks);
    var delim := Delimiter(boundary);
    delivered := [];
    ghost var done: seq<Part> := [];
    var counts := Counts(0, 0, 0);
    var pending := NoPending;
    assert delim != [] by { DelimiterIsLong(boundary); }
    NoneSeen(wants);
    StartsMatched(state, chunks, pace);
    var start := Start(state, boundary, classify, lim, pace, full);
    if start.Some? { return delivered, start.value; }
    while true
      invariant state.Valid() && state.Rests(pace)
      invariant delivered == Seen(done, wants) && |delivered| == |done|
      invariant pending.Pending? ==>
                  && pending.gen.state == state && pending.gen.Valid() && pending.gen.phase.Scanning?
                  && pending.gen.delim == delim && pending.gen.pace == pace && !wants(|done|) && !pending.kind.Nameless?
      invariant Continues(full, done,
                          if pending.NoPending? then After(state, delim, classify, lim, counts)
                          else BodyAndOn(state.Rest(), pending.lines, pending.kind, delim, classify, lim, counts))
      invariant fresh(state) && (pending.Pending? ==> fresh(pending.gen))
      decreases |state.Rest()|, pending.Pending?
    {
      if pending.Pending? {
        var out := ReadPart(pending.gen, pending.lines, pending.kind, classify, lim, counts, full, done);
        match out {
          case Stopped(f) =>
            return delivered, Failed(f);
          case Complete(content) =>
            counts := counts.(total := counts.total + |content|);
            ghost var p := Part(pending.lines, content);
            SeenSnoc(done, p, wants);
            delivered := delivered + [Delivered(pending.lines, None)];
            done := done + [p];
            pending := NoPending;
        }
      }
      var head := EnterPart(state, delim, classify, lim, counts, pace, full, done);
      match head {
        case Ended(e) => return delivered, e;
        case Entered(lines) =>
          var kind := classify(lines);
          counts := CountPart(kind, counts);
          var gen := new BodyGenerator(state, boundary, pace);
          if !kind.Nameless? && !wants(|delivered|) {
            pending := Pending(gen, lines, kind);
          } else {
            var out := ReadPart(gen, lines, kind, classify, lim, counts, full, done);
            match out {
              case Stopped(f) =>
                return delivered, Failed(f);
              case Complete(content) =>
                counts := counts.(total := counts.total + |content|);
                if !kind.Nameless? {
                  ghost var p := Part(lines, content);
                  SeenSnoc(done, p, wants);
                  delivered := delivered + [Delivered(lines, Some(content))];
                  done := done + [p];
                }
            }
          }
      }
    }
  }

  lemma DelimiterIsLong(boundary: seq<Byte>)
    ensures |Delimiter(boundary)| > 0
  {
  }

  lemma NoneSeen(wants: nat -> bool)
    ensures Seen([], wants) == []
  {
  }

  lemma StartsMatched(state: ScanState, chunks: seq<seq<Byte>>, pace: Pace)
    requires state.chunks == chunks && state.buf == [] && !state.eof && state.Settled() && ComesAt(chunks, pace)
    ensures state.Matched(pace)
  {
  }

  /** Skip the preamble; the end if there are no parts. */
  method Start(state: ScanState, boundary: seq<Byte>, classify: Classifier, lim: Limits, ghost pace: Pace,
               ghost full: Message)
    returns (end: Option<End>)
    requires ValidBoundary(boundary) && state.Valid() && state.Matched(pace) && !state.closed
    requires full == ParseMultipart(state.Rest(), boundary, classify, lim)
    modifies state`chunks, state`buf, state`eof
    ensures state.Valid()
    ensures end.Some? ==> full.parts == [] && Allows(full.end, end.value, pace)
    ensures end.None? ==>
              && state.Rests(pace)
              && Continues(full, [], After(state, Delimiter(boundary), classify, lim, Counts(0, 0, 0)))
  {
    hide PartsFrom, SkipPreamble;
    var skip := state.SkipPreamble(FirstNeedle(boundary), |Delimiter(boundary)|, pace);
    match skip {
      case SkipThrew(e) => return Some(Failed(Status400(e)));
      case Stop => return Some(Done);
      case PartFollows => return None;
    }
  }

  lemma EndIs(full: Message, done: seq<Part>, end: End, pace: Pace)
    requires Continues(full, done, Message([], end)) && !end.ByChunking?
    ensures full.parts == done && Allows(full.end, end, pace)
  {
    ContinuesAtEnd(full, done, end);
  }

  // ----- what the chunking can change -----------------------------------------------------

  /** The same bytes in any two chunkings: the same parts, and the same end unless that end is `ByChunking`. */
  method CompareChunkings(a: seq<seq<Byte>>, b: seq<seq<Byte>>, boundary: seq<Byte>, classify: Classifier,
                          lim: Limits, wants: nat -> bool)
    returns (first: (seq<Delivered>, End), second: (seq<Delivered>, End))
    requires ValidBoundary(boundary) && Concat(a) == Concat(b)
    ensures first.0 == second.0
    ensures !ParseMultipart(Concat(a), boundary, classify, lim).end.ByChunking? ==> first == second
  {
    var p, e := IterateParts(a, boundary, classify, lim, wants, AnyPace);
    var q, f := IterateParts(b, boundary, classify, lim, wants, AnyPace);
    return (p, e), (q, f);
  }

  lemma OneChunk(s: seq<Byte>)
    ensures Concat([s]) == s
  {
    assert s + Concat<Byte>([]) == s;
  }

  function Singles(s: seq<Byte>): (chunks: seq<seq<Byte>>)
    ensures forall c | c in chunks :: |c| == 1
    ensures Concat(chunks) == s
  {
    if s == [] then [] else [[s[0]]] + Singles(s[1..])
  }

  /**
   For every message, in any chunking, in one chunk and in single bytes: the parts are the same, and the ends differ
   for some chunkings if and only if the specified end is `ByChunking`. Then one chunk gives status 400 and single
   bytes give 413, and every chunking gives one of the two.
   */
  method StatusByChunking(chunks: seq<seq<Byte>>, boundary: seq<Byte>, classify: Classifier, lim: Limits,
                          wants: nat -> bool)
    returns (any: (seq<Delivered>, End), whole: (seq<Delivered>, End), single: (seq<Delivered>, End))
    requires ValidBoundary(boundary)
    ensures any.0 == whole.0 == single.0
    ensures var end := ParseMultipart(Concat(chunks), boundary, classify, lim).end;
            && (whole.1 == single.1 <==> !end.ByChunking?)
            && (end.ByChunking? ==> whole.1 == Failed(Status400(end.error)) && single.1 == Failed(Status413))
    ensures any.1 == whole.1 || any.1 == single.1
  {
    hide ParseMultipart, Seen;
    var s := Concat(chunks);
    OneChunk(s);
    var p, e := IterateParts(chunks, boundary, classify, lim, wants, AnyPace);
    var q, f := IterateParts([s], boundary, classify, lim, wants, Whole);
    var r, g := IterateParts(Singles(s), boundary, classify, lim, wants, Bytewise);
    return (p, e), (q, f), (r, g);
  }

  // ----- an end that depends on the chunking ----------------------------------------------

  /** A message of one part without headers that stops right behind the delimiter of its end. */
  function OpenEnd(boundary: seq<Byte>, content: seq<Byte>): seq<Byte> {
    FirstNeedle(boundary) + ([CR, LF] + ([CR, LF] + (content + Delimiter(boundary))))
  }

  lemma OpenEndBody(boundary: seq<Byte>, content: seq<Byte>)
    requires ValidBoundary(boundary) && CR !in content
    ensures var s, d := content + Delimiter(boundary), Delimiter(boundary);
            BodyOf(s, d) == BadBody(TruncatedBody) && Emitted(s, d, false) == 0
            && Emitted(s, d, true) == if content == [] then 0 else |content| - 1
  {
    var d := Delimiter(boundary);
    var s := content + d;
    forall i: nat | i < |content| ensures !Occurs(d, s, i) {
      assert s[i] == content[i];
      assert s[i..i + |d|][0] == s[i];
    }
    assert s[|content|..|content| + |d|] == d;
    FirstIsUnique(d, s, |content|);
    assert s[|content| + |d|..] == [];
    NothingFollows();
    hide BodyOf, Emitted, TerminatorOf, IndexOf;
    BodyAtFirstMatch(s, d, |content|);
    EmittedAtMatch(s, d, []);
  }

  lemma NothingFollows()
    ensures TerminatorOf([]) == BadTerminator(TruncatedBody)
  {
  }

  lemma OpenEndStart(boundary: seq<Byte>, rest: seq<Byte>)
    requires ValidBoundary(boundary)
    ensures SkipPreamble(FirstNeedle(boundary) + ([CR, LF] + rest), FirstNeedle(boundary)) == FirstPart(rest)
  {
    var n := FirstNeedle(boundary);
    var s := n + ([CR, LF] + rest);
    assert s[0..0 + |n|] == n;
    FirstIsUnique(n, s, 0);
    assert s[0 + |n|..] == [CR, LF] + rest;
    assert ([CR, LF] + rest)[2..] == rest;
    assert TerminatorOf([CR, LF] + rest) == Next(2);
    hide TerminatorOf, IndexOf;
  }

  lemma NoHeaders(rest: seq<Byte>)
    ensures HeadersOf([CR, LF] + rest, 0, []) == HeaderBlock([], rest)
  {
    var s := [CR, LF] + rest;
    assert s[1..2] == [LF] && s[0..1] == [CR];
    FirstIsUnique([LF], s, 1);
    assert StripCR([CR]) == [] by { assert [CR][..0] == []; }
    assert s[..1] == [CR] && s[1 + 1..] == rest;
    assert FirstLine(s) == Line([], rest);
    hide IndexOf;
  }

  /** The message `--b`, a blank line, `abc` and `--b` with a limit of one byte for a field: a status of 400 or 413. */
  lemma OpenEndDependsOnChunking(classify: Classifier)
    requires classify([]) == Field
    ensures var boundary, content: seq<Byte> := [98], [97, 98, 99];
            ValidBoundary(boundary)
            && ParseMultipart(OpenEnd(boundary, content), boundary, classify, Limits(0, 0, 1, 1, 100))
               == Message([], ByChunking(TruncatedBody))
  {
    var boundary, content: seq<Byte> := [98], [97, 98, 99];
    var body := content + Delimiter(boundary);
    OpenEndStart(boundary, [CR, LF] + body);
    NoHeaders(body);
    OpenEndBody(boundary, content);
    PartsFromHeaders([CR, LF] + body, Delimiter(boundary), classify, Limits(0, 0, 1, 1, 100), Counts(0, 0, 0));
    hide PartsFrom, HeadersOf, BodyOf, Emitted, SkipPreamble;
  }
}
