/** Laws of the WebSocket stream: independence of the chunking, and the round trip of messages. */
module WebSocketLaws {
  import opened ByteSeqs
  import opened WebSocketSpec
  import opened Results

  // ----- chunking -------------------------------------------------------------------------

  lemma HeadIsStable(s: seq<Byte>, more: seq<Byte>)
    requires !ReadHead(s).ShortHead?
    ensures ReadHead(s + more) == ReadHead(s)
  {
    var t := s + more;
    var extra := ExtraLength(s[1]);
    assert t[0] == s[0] && t[1] == s[1];
    assert t[2..2 + extra] == s[2..2 + extra];
  }

  /** More bytes do not change a decision that is made. */
  lemma ParseIsStable(s: seq<Byte>, more: seq<Byte>)
    requires !ParseFrame(s).NeedMore?
    ensures ParseFrame(s + more) == ParseFrame(s)
  {
    hide ReadHead;
    HeadIsStable(s, more);
    var t := s + more;
    var h := ReadHead(s);
    if h.Head? {
      assert t[0] == s[0];
      assert t[h.size..h.size + h.len] == s[h.size..h.size + h.len];
      if h.masked { assert t[h.size - 4..h.size] == s[h.size - 4..h.size]; }
    }
  }

  lemma PrefixedTwice(a: seq<Message>, b: seq<Message>, o: Outcome)
    ensures Prefixed(a, Prefixed(b, o)) == Prefixed(a + b, o)
  {
    assert a + (b + o.out) == (a + b) + o.out;
  }

  lemma PrefixedNothing(o: Outcome)
    ensures Prefixed([], o) == o
  {
    assert [] + o.out == o.out;
  }

  /** The outcome on `s` and more bytes: a violation stands; otherwise the unfinished rest is parsed on. */
  function Continued(o: Outcome, more: seq<Byte>): Outcome {
    match o
    case Waiting(out, st, rest) => Prefixed(out, Run(st, rest + more))
    case Violated(_, _) => o
  }

  /** Running on a stream in two pieces is running on the whole. */
  lemma {:induction false} RunInPieces(st: Progress, s: seq<Byte>, more: seq<Byte>)
    ensures Run(st, s + more) == Continued(Run(st, s), more)
    decreases |s|
  {
    hide ParseFrame, Deliver;
    match ParseFrame(s) {
      case NeedMore => PrefixedNothing(Run(st, s + more));
      case Bad(_) => ParseIsStable(s, more);
      case Parsed(f, taken) =>
        ParseIsStable(s, more);
        assert (s + more)[taken..] == s[taken..] + more;
        match Deliver(st, f) {
          case Refused(_) =>
          case Delivered(next, out) =>
            RunInPieces(next, s[taken..], more);
            var o := Run(next, s[taken..]);
            if o.Waiting? { PrefixedTwice(out, o.out, Run(o.state, o.rest + more)); }
        }
    }
  }

  /** What stays unparsed holds no decided frame. */
  lemma {:induction false} RestIsUnfinished(st: Progress, s: seq<Byte>)
    ensures var o := Run(st, s);
            o.Waiting? ==> ParseFrame(o.rest).NeedMore? && |o.rest| <= |s| && o.rest == s[|s| - |o.rest|..]
    decreases |s|
  {
    hide ParseFrame, Deliver;
    match ParseFrame(s) {
      case NeedMore =>
      case Bad(_) =>
      case Parsed(f, taken) =>
        match Deliver(st, f) {
          case Refused(_) =>
          case Delivered(next, out) =>
            RestIsUnfinished(next, s[taken..]);
            var o := Run(next, s[taken..]);
            if o.Waiting? { assert s[taken..][|s| - taken - |o.rest|..] == s[|s| - |o.rest|..]; }
        }
    }
  }

  /** The outcome of successive pushes, which stop at the first violation. */
  function Pushes(o: Outcome, chunks: seq<seq<Byte>>): Outcome
    decreases |chunks|
  {
    if chunks == [] || o.Violated? then o
    else Pushes(Prefixed(o.out, Run(o.state, o.rest + chunks[0])), chunks[1..])
  }

  /** For every partition of a byte stream the pushes deliver what one push of the whole delivers, up to the
      first violation, and leave the same unparsed rest. */
  lemma {:induction false} PartitionDoesNotMatter(o: Outcome, chunks: seq<seq<Byte>>)
    requires o.Waiting? ==> ParseFrame(o.rest).NeedMore?
    ensures Pushes(o, chunks) == Continued(o, Concat(chunks))
    decreases |chunks|
  {
    hide ParseFrame, Run;
    if o.Violated? {
    } else if chunks == [] {
      assert o.rest + [] == o.rest;
      UnfinishedRun(o.state, o.rest);
      assert o.out + [] == o.out;
    } else {
      var s := o.rest + chunks[0];
      var mid := Run(o.state, s);
      var next := Prefixed(o.out, mid);
      RestIsUnfinished(o.state, s);
      PartitionDoesNotMatter(next, chunks[1..]);
      RunInPieces(o.state, s, Concat(chunks[1..]));
      assert o.rest + Concat(chunks) == s + Concat(chunks[1..]);
      if mid.Waiting? { PrefixedTwice(o.out, mid.out, Run(mid.state, mid.rest + Concat(chunks[1..]))); }
    }
  }

  // ----- pushing on after a violation -----------------------------------------------------

  /** The messages of the control frames that a stream starts with. */
  function LeadingControls(s: seq<Byte>): seq<Message>
    decreases |s|
  {
    match ParseFrame(s)
    case Parsed(f, taken) =>
      if IsControl(f.opcode) then [Message(f.opcode, f.data)] + LeadingControls(s[taken..]) else []
    case _ => []
  }

  lemma {:induction false} InterleavedAgain(st: Progress, s: seq<Byte>, more: seq<Byte>)
    requires st.Fragments? && StateAfter(Idle, s) != Idle
    ensures Run(st, s + more) == Violated(LeadingControls(s), InterleavedMessage)
    decreases |s|
  {
    hide ParseFrame;
    ParseIsStable(s, more);
    var Parsed(f, taken) := ParseFrame(s);
    assert (s + more)[taken..] == s[taken..] + more;
    if IsControl(f.opcode) { InterleavedAgain(st, s[taken..], more); }
  }

  /**
   After a violation all bytes are run again from the start, in the state that the delivered frames have left. A state
   that is as before delivers the same messages again and ends in the same violation. A parser that was idle and has a
   message in progress delivers the control frames again up to the first frame of a message, which it then refuses.
   */
  lemma AfterViolation(st: Progress, s: seq<Byte>, more: seq<Byte>)
    requires Run(st, s).Violated?
    ensures StateAfter(st, s) == st ==> Run(StateAfter(st, s), s + more) == Run(st, s)
    ensures st.Idle? && StateAfter(st, s) != Idle ==>
              Run(StateAfter(st, s), s + more) == Violated(LeadingControls(s), InterleavedMessage)
  {
    RunInPieces(st, s, more);
    hide ParseFrame, Run, StateAfter, LeadingControls;
    if st.Idle? && StateAfter(st, s) != Idle { InterleavedAgain(StateAfter(st, s), s, more); }
  }

  lemma UnfinishedRun(st: Progress, s: seq<Byte>)
    requires ParseFrame(s).NeedMore?
    ensures Run(st, s) == Waiting([], st, s)
  {
  }

  // ----- round trip of frames -------------------------------------------------------------

  lemma PowersOf256()
    ensures Power256(2) == 65536 && Power256(8) > MAX_SAFE_LENGTH
  {
    assert Power256(4) == 4294967296 by { assert Power256(2) == 65536; }
    assert Power256(6) == 281474976710656;
    assert Power256(8) == 18446744073709551616;
  }

  lemma {:induction false} BigEndianValue(v: nat, n: nat)
    requires v < Power256(n)
    ensures ValueOf(BigEndian(v, n)) == v
  {
    if n > 0 {
      BigEndianValue(v / 256, n - 1);
      var init := BigEndian(v / 256, n - 1);
      assert (init + [v % 256])[..n - 1] == init;
    }
  }

  lemma ValueOfTwo(s: seq<Byte>)
    requires |s| == 2
    ensures ValueOf(s) == s[0] as int * 256 + s[1] as int
  {
    assert s[..1][..0] == [];
    assert ValueOf(s[..1]) == s[0];
  }

  lemma ValueOfAppend(s: seq<Byte>)
    requires |s| >= 2
    ensures ValueOf(s) == ValueOf(s[..|s| - 2]) * 65536 + s[|s| - 2] as int * 256 + s[|s| - 1] as int
  {
    var t := s[..|s| - 1];
    assert t[..|t| - 1] == s[..|s| - 2];
  }

  lemma ValueOfEight(s: seq<Byte>)
    requires |s| == 8
    ensures ValueOf(s) ==
            (s[0] as int * 16777216 + s[1] as int * 65536 + s[2] as int * 256 + s[3] as int) * 4294967296
            + (s[4] as int * 16777216 + s[5] as int * 65536 + s[6] as int * 256 + s[7] as int)
  {
    ValueOfAppend(s);
    ValueOfAppend(s[..6]);
    assert s[..6][..4] == s[..4];
    ValueOfAppend(s[..4]);
    assert s[..4][..2] == s[..2];
    ValueOfTwo(s[..2]);
  }

  lemma MaskedTwice(data: seq<Byte>, mask: Mask)
    ensures Masked(Masked(data, mask), mask) == data
  {
    var once := Masked(data, mask);
    var twice := Masked(once, mask);
    forall i | 0 <= i < |data| ensures twice[i] == data[i] {
      XorTwice(data[i], mask[i % 4]);
    }
  }

  /** Frames that the protocol allows: opcodes of four bits, short and unfragmented control frames. */
  predicate LegalFrame(f: Frame) {
    f.opcode < 16 && |f.data| <= MAX_SAFE_LENGTH && (IsControl(f.opcode) ==> f.fin && |f.data| <= 125)
  }

  lemma FirstByteBack(fin: bool, opcode: nat)
    requires opcode < 16
    ensures FirstByte(fin, opcode) % 16 == opcode && (FirstByte(fin, opcode) >= 128 <==> fin)
  {
  }

  /** The length bytes announce and hold the length. */
  lemma LengthBack(len: nat, masked: bool)
    requires len <= MAX_SAFE_LENGTH
    ensures var l := LengthBytes(len, masked);
            && l != [] && (l[0] >= 128 <==> masked)
            && |l| == 1 + ExtraLength(l[0])
            && (if ExtraLength(l[0]) == 0 then l[0] % 128 == len else ValueOf(l[1..]) == len)
  {
    PowersOf256();
    var l := LengthBytes(len, masked);
    if 126 <= len < 65536 {
      BigEndianValue(len, 2);
      assert l[1..] == BigEndian(len, 2);
    } else if len >= 65536 {
      BigEndianValue(len, 8);
      assert l[1..] == BigEndian(len, 8);
    }
  }

  /** The header is read back from the encoded frame and whatever follows it. */
  lemma HeadBack(f: Frame, masked: bool, tail: seq<Byte>)
    requires LegalFrame(f) && (masked ==> |tail| >= 4)
    ensures var l := LengthBytes(|f.data|, masked);
            ReadHead([FirstByte(f.fin, f.opcode)] + l + tail)
            == Head(masked, |f.data|, 1 + |l| + if masked then 4 else 0)
  {
    hide LengthBytes, FirstByte;
    FirstByteBack(f.fin, f.opcode);
    LengthBack(|f.data|, masked);
    var l := LengthBytes(|f.data|, masked);
    var s := [FirstByte(f.fin, f.opcode)] + l + tail;
    assert s[0] == FirstByte(f.fin, f.opcode) && s[1] == l[0];
    assert s[2..2 + ExtraLength(s[1])] == l[1..];
  }

  /** An encoded frame, whatever follows it, is parsed back to the frame. */
  lemma FrameRoundTrip(f: Frame, mask: Option<Mask>, more: seq<Byte>)
    requires LegalFrame(f)
    ensures ParseFrame(Encoded(f, mask) + more) == Parsed(f, |Encoded(f, mask)|)
  {
    hide LengthBytes, FirstByte, ReadHead, Masked;
    var first := [FirstByte(f.fin, f.opcode)];
    var l := LengthBytes(|f.data|, mask.Some?);
    var body := match mask case None => f.data case Some(m) => m + Masked(f.data, m);
    var s := Encoded(f, mask) + more;
    assert s == first + l + (body + more);
    FirstByteBack(f.fin, f.opcode);
    HeadBack(f, mask.Some?, body + more);
    assert s[0] == FirstByte(f.fin, f.opcode);
    match mask {
      case None =>
        assert s[1 + |l|..1 + |l| + |f.data|] == f.data;
      case Some(m) =>
        MaskedTwice(f.data, m);
        assert s[1 + |l|..1 + |l| + 4] == m;
        assert s[1 + |l| + 4..1 + |l| + 4 + |f.data|] == Masked(f.data, m);
    }
  }

  // ----- round trip of messages -----------------------------------------------------------

  datatype Control = Control(opcode: nat, data: seq<Byte>)

  /** A later fragment of a message and the control frames sent before it. */
  datatype Piece = Piece(controls: seq<Control>, data: seq<Byte>)

  /** What a peer sends: a control frame, or a message cut into fragments with control frames between. */
  datatype Sent = SentControl(control: Control) | SentMessage(opcode: nat, first: seq<Byte>, pieces: seq<Piece>)

  predicate LegalControl(c: Control) { 8 <= c.opcode < 16 && |c.data| <= 125 }

  predicate LegalPiece(p: Piece) {
    |p.data| <= MAX_SAFE_LENGTH && forall i | 0 <= i < |p.controls| :: LegalControl(p.controls[i])
  }

  predicate LegalSent(u: Sent) {
    match u
    case SentControl(c) => LegalControl(c)
    case SentMessage(opcode, first, pieces) =>
      0 < opcode < 8 && |first| <= MAX_SAFE_LENGTH && forall i | 0 <= i < |pieces| :: LegalPiece(pieces[i])
  }

  function ControlFrames(cs: seq<Control>): seq<Frame> {
    if cs == [] then [] else [Frame(true, cs[0].opcode, cs[0].data)] + ControlFrames(cs[1..])
  }

  function PieceFrames(ps: seq<Piece>): seq<Frame> {
    if ps == [] then []
    else ControlFrames(ps[0].controls) + [Frame(|ps| == 1, 0, ps[0].data)] + PieceFrames(ps[1..])
  }

  function FramesOf(u: Sent): seq<Frame> {
    match u
    case SentControl(c) => [Frame(true, c.opcode, c.data)]
    case SentMessage(opcode, first, pieces) => [Frame(pieces == [], opcode, first)] + PieceFrames(pieces)
  }

  function AllFrames(us: seq<Sent>): seq<Frame> {
    if us == [] then [] else FramesOf(us[0]) + AllFrames(us[1..])
  }

  function ControlMessages(cs: seq<Control>): seq<Message> {
    if cs == [] then [] else [Message(cs[0].opcode, cs[0].data)] + ControlMessages(cs[1..])
  }

  /** The control frames inside a message and the bytes of its later fragments. */
  function InnerControls(ps: seq<Piece>): seq<Message> {
    if ps == [] then [] else ControlMessages(ps[0].controls) + InnerControls(ps[1..])
  }

  function PieceBytes(ps: seq<Piece>): seq<Byte> {
    if ps == [] then [] else ps[0].data + PieceBytes(ps[1..])
  }

  /** In order of completion: the controls inside a message come before it. */
  function ExpectedOf(u: Sent): seq<Message> {
    match u
    case SentControl(c) => [Message(c.opcode, c.data)]
    case SentMessage(opcode, first, pieces) => InnerControls(pieces) + [Message(opcode, first + PieceBytes(pieces))]
  }

  function Expected(us: seq<Sent>): seq<Message> {
    if us == [] then [] else ExpectedOf(us[0]) + Expected(us[1..])
  }

  /** The bytes of frames, each with its own mask or none. */
  function EncodedAll(fs: seq<Frame>, masks: seq<Option<Mask>>): seq<Byte>
    requires |fs| == |masks|
  {
    if fs == [] then [] else Encoded(fs[0], masks[0]) + EncodedAll(fs[1..], masks[1..])
  }

  /** Delivering frames one after the other. */
  datatype Deliveries = Deliveries(state: Progress, out: seq<Message>) | RefusedAt(out: seq<Message>,
                                                                                   violation: Violation)

  function Then(out: seq<Message>, d: Deliveries): Deliveries {
    match d
    case Deliveries(last, more) => Deliveries(last, out + more)
    case RefusedAt(more, v) => RefusedAt(out + more, v)
  }

  function DeliverAll(st: Progress, fs: seq<Frame>): Deliveries
    decreases |fs|
  {
    if fs == [] then Deliveries(st, [])
    else
      match Deliver(st, fs[0])
      case Refused(v) => RefusedAt([], v)
      case Delivered(next, out) => Then(out, DeliverAll(next, fs[1..]))
  }

  /** Running on the bytes of frames is delivering the frames. */
  lemma {:induction false} RunIsDelivery(st: Progress, fs: seq<Frame>, masks: seq<Option<Mask>>)
    requires |fs| == |masks| && forall i | 0 <= i < |fs| :: LegalFrame(fs[i])
    ensures Run(st, EncodedAll(fs, masks)) ==
            match DeliverAll(st, fs)
            case Deliveries(last, out) => Waiting(out, last, [])
            case RefusedAt(out, v) => Violated(out, v)
    decreases |fs|
  {
    hide ParseFrame, Deliver, Encoded;
    if fs == [] {
      NothingToParse();
    } else {
      var s := EncodedAll(fs, masks);
      var rest := EncodedAll(fs[1..], masks[1..]);
      FrameRoundTrip(fs[0], masks[0], rest);
      assert s[|Encoded(fs[0], masks[0])|..] == rest;
      match Deliver(st, fs[0]) {
        case Refused(_) =>
        case Delivered(next, out) => RunIsDelivery(next, fs[1..], masks[1..]);
      }
    }
  }

  lemma NothingToParse()
    ensures ParseFrame([]) == NeedMore
  {
  }

  lemma ThenTwice(a: seq<Message>, b: seq<Message>, d: Deliveries)
    ensures Then(a, Then(b, d)) == Then(a + b, d) && Then([], d) == d
  {
    assert a + (b + d.out) == (a + b) + d.out;
    assert [] + d.out == d.out;
  }

  lemma {:induction false} DeliverAppend(st: Progress, a: seq<Frame>, b: seq<Frame>)
    requires DeliverAll(st, a).Deliveries?
    ensures var d := DeliverAll(st, a);
            DeliverAll(st, a + b) == Then(d.out, DeliverAll(d.state, b))
    decreases |a|
  {
    hide Deliver;
    if a == [] {
      assert a + b == b;
      ThenTwice([], [], DeliverAll(st, b));
    } else {
      assert (a + b)[1..] == a[1..] + b;
      var step := Deliver(st, a[0]);
      DeliverAppend(step.state, a[1..], b);
      var d := DeliverAll(step.state, a[1..]);
      ThenTwice(step.out, d.out, DeliverAll(d.state, b));
    }
  }

  lemma {:induction false} DeliverControls(st: Progress, cs: seq<Control>)
    requires forall i | 0 <= i < |cs| :: LegalControl(cs[i])
    ensures DeliverAll(st, ControlFrames(cs)) == Deliveries(st, ControlMessages(cs))
  {
    if cs != [] {
      assert LegalControl(cs[0]);
      DeliverControls(st, cs[1..]);
    }
  }

  lemma DeliverOne(st: Progress, f: Frame, rest: seq<Frame>)
    requires Deliver(st, f).Delivered?
    ensures var d := Deliver(st, f);
            DeliverAll(st, [f] + rest) == Then(d.out, DeliverAll(d.state, rest))
  {
    assert ([f] + rest)[1..] == rest;
  }

  /** The later fragments complete the message; the controls between them are delivered first. */
  lemma {:induction false} DeliverPieces(opcode: nat, parts: seq<seq<Byte>>, ps: seq<Piece>)
    requires ps != [] && forall i | 0 <= i < |ps| :: LegalPiece(ps[i])
    ensures DeliverAll(Fragments(opcode, parts), PieceFrames(ps))
            == Deliveries(Idle, InnerControls(ps) + [Message(opcode, Concat(parts) + PieceBytes(ps))])
    decreases |ps|
  {
    hide DeliverAll, ControlFrames, ControlMessages, Concat, InnerControls, PieceBytes;
    var st := Fragments(opcode, parts);
    var cf, cm := ControlFrames(ps[0].controls), ControlMessages(ps[0].controls);
    var f := Frame(|ps| == 1, 0, ps[0].data);
    var rest := PieceFrames(ps[1..]);
    assert LegalPiece(ps[0]);
    DeliverControls(st, ps[0].controls);
    assert PieceFrames(ps) == cf + ([f] + rest);
    DeliverAppend(st, cf, [f] + rest);
    DeliverOne(st, f, rest);
    ConcatSnoc(parts, ps[0].data);
    if |ps| == 1 {
      LastPiece(ps);
    } else {
      DeliverPieces(opcode, parts + [ps[0].data], ps[1..]);
      MorePieces(opcode, Concat(parts), ps);
    }
  }

  lemma MorePieces(opcode: nat, before: seq<Byte>, ps: seq<Piece>)
    requires ps != []
    ensures before + ps[0].data + PieceBytes(ps[1..]) == before + PieceBytes(ps)
    ensures var m := [Message(opcode, before + PieceBytes(ps))];
            ControlMessages(ps[0].controls) + ([] + (InnerControls(ps[1..]) + m)) == InnerControls(ps) + m
  {
    FirstPiece(ps);
    hide *;
    Regrouped(before, ps[0].data, PieceBytes(ps[1..]));
    var m := [Message(opcode, before + PieceBytes(ps))];
    Regrouped(ControlMessages(ps[0].controls), InnerControls(ps[1..]), m);
    assert [] + (InnerControls(ps[1..]) + m) == InnerControls(ps[1..]) + m;
  }

  lemma FirstPiece(ps: seq<Piece>)
    requires ps != []
    ensures PieceBytes(ps) == ps[0].data + PieceBytes(ps[1..])
    ensures InnerControls(ps) == ControlMessages(ps[0].controls) + InnerControls(ps[1..])
  {
  }

  lemma Regrouped<T>(x: seq<T>, y: seq<T>, z: seq<T>)
    ensures x + (y + z) == (x + y) + z
  {
  }

  lemma LastPiece(ps: seq<Piece>)
    requires |ps| == 1
    ensures PieceFrames(ps[1..]) == [] && DeliverAll(Idle, []) == Deliveries(Idle, [])
    ensures PieceBytes(ps) == ps[0].data && InnerControls(ps) == ControlMessages(ps[0].controls)
  {
    assert ps[1..] == [];
    assert PieceBytes([]) == [] && InnerControls([]) == [];
    assert ps[0].data + [] == ps[0].data;
    assert ControlMessages(ps[0].controls) + [] == ControlMessages(ps[0].controls);
  }

  /** Legal units of sending are delivered completely and in order of completion. */
  lemma {:induction false} DeliverSent(us: seq<Sent>)
    requires forall i | 0 <= i < |us| :: LegalSent(us[i])
    ensures DeliverAll(Idle, AllFrames(us)) == Deliveries(Idle, Expected(us))
    decreases |us|
  {
    if us != [] {
      hide DeliverAll;
      assert LegalSent(us[0]);
      DeliverUnit(us[0]);
      DeliverSent(us[1..]);
      DeliverAppend(Idle, FramesOf(us[0]), AllFrames(us[1..]));
    }
  }

  lemma DeliverUnit(u: Sent)
    requires LegalSent(u)
    ensures DeliverAll(Idle, FramesOf(u)) == Deliveries(Idle, ExpectedOf(u))
  {
    match u {
      case SentControl(c) =>
        var f := Frame(true, c.opcode, c.data);
        assert [f] + [] == [f];
        DeliverOne(Idle, f, []);
      case SentMessage(opcode, first, pieces) =>
        var f := Frame(pieces == [], opcode, first);
        DeliverOne(Idle, f, PieceFrames(pieces));
        if pieces == [] {
          assert first + [] == first;
        } else {
          DeliverPieces(opcode, [first], pieces);
          assert Concat([first]) == first + Concat<Byte>([]) == first;
        }
    }
  }

  lemma {:induction false} ControlFramesLegal(cs: seq<Control>)
    requires forall i | 0 <= i < |cs| :: LegalControl(cs[i])
    ensures forall i | 0 <= i < |ControlFrames(cs)| :: LegalFrame(ControlFrames(cs)[i])
  {
    if cs != [] {
      assert LegalControl(cs[0]);
      ControlFramesLegal(cs[1..]);
    }
  }

  lemma {:induction false} PieceFramesLegal(ps: seq<Piece>)
    requires forall i | 0 <= i < |ps| :: LegalPiece(ps[i])
    ensures forall i | 0 <= i < |PieceFrames(ps)| :: LegalFrame(PieceFrames(ps)[i])
  {
    if ps != [] {
      assert LegalPiece(ps[0]);
      ControlFramesLegal(ps[0].controls);
      PieceFramesLegal(ps[1..]);
    }
  }

  lemma {:induction false} AllFramesLegal(us: seq<Sent>)
    requires forall i | 0 <= i < |us| :: LegalSent(us[i])
    ensures forall i | 0 <= i < |AllFrames(us)| :: LegalFrame(AllFrames(us)[i])
  {
    if us != [] {
      assert LegalSent(us[0]);
      if us[0].SentMessage? { PieceFramesLegal(us[0].pieces); }
      AllFramesLegal(us[1..]);
    }
  }

  /**
   Any legal sequence of messages and control frames, cut into fragments, masked in any way and pushed in any
   chunks, is delivered exactly, in order of completion, and leaves nothing behind.
   */
  lemma MessagesRoundTrip(us: seq<Sent>, masks: seq<Option<Mask>>, chunks: seq<seq<Byte>>)
    requires forall i | 0 <= i < |us| :: LegalSent(us[i])
    requires |masks| == |AllFrames(us)| && Concat(chunks) == EncodedAll(AllFrames(us), masks)
    ensures Pushes(Waiting([], Idle, []), chunks) == Waiting(Expected(us), Idle, [])
  {
    hide Run, DeliverAll, Pushes, EncodedAll, AllFrames, Expected;
    NothingToParse();
    PartitionDoesNotMatter(Waiting([], Idle, []), chunks);
    AllFramesLegal(us);
    RunIsDelivery(Idle, AllFrames(us), masks);
    DeliverSent(us);
    assert [] + Concat(chunks) == Concat(chunks);
    PrefixedNothing(Run(Idle, Concat(chunks)));
  }
}
