/** WebSocket frames as bytes, and what a byte stream of frames delivers (sections 5.2 to 5.5 of RFC 6455). */
module WebSocketSpec {
  import opened ByteSeqs
  import opened Results

  const MAX_SAFE_LENGTH := 9007199254740991

  /** A masking key of four bytes. */
  type Mask = m: seq<Byte> | |m| == 4 witness [0, 0, 0, 0]

  datatype Frame = Frame(fin: bool, opcode: nat, data: seq<Byte>)

  predicate IsControl(opcode: nat) { opcode >= 8 }

  // ----- encoding -------------------------------------------------------------------------

  /** The `n` low bytes of `v`, most significant first. */
  function BigEndian(v: nat, n: nat): (s: seq<Byte>)
    ensures |s| == n
  {
    if n == 0 then [] else BigEndian(v / 256, n - 1) + [v % 256]
  }

  function ValueOf(s: seq<Byte>): nat {
    if s == [] then 0 else ValueOf(s[..|s| - 1]) * 256 + s[|s| - 1]
  }

  function Masked(data: seq<Byte>, mask: Mask): (r: seq<Byte>)
    ensures |r| == |data|
  {
    seq(|data|, i requires 0 <= i < |data| => Xor(data[i], mask[i % 4]))
  }

  /** The two leading bytes and the extended length. */
  function LengthBytes(len: nat, masked: bool): seq<Byte> {
    var m := if masked then 128 else 0;
    if len < 126 then [m + len]
    else if len < 65536 then [m + 126] + BigEndian(len, 2)
    else [m + 127] + BigEndian(len, 8)
  }

  function FirstByte(fin: bool, opcode: nat): Byte { (if fin then 128 else 0) + opcode % 16 }

  function Encoded(f: Frame, mask: Option<Mask>): seq<Byte> {
    [FirstByte(f.fin, f.opcode)] + LengthBytes(|f.data|, mask.Some?)
    + (match mask case None => f.data case Some(m) => m + Masked(f.data, m))
  }

  // ----- parsing one frame ----------------------------------------------------------------

  datatype Violation =
    | FrameTooLarge | FragmentedControl | ControlTooLarge
    | UnexpectedContinuation | InterleavedMessage

  datatype Parse = NeedMore | Bad(violation: Violation) | Parsed(frame: Frame, taken: nat)

  /** Bytes of the extended length that the second byte announces. */
  function ExtraLength(b1: Byte): nat {
    if b1 % 128 == 126 then 2 else if b1 % 128 == 127 then 8 else 0
  }

  datatype Head = ShortHead | BadHead(violation: Violation) | Head(masked: bool, len: nat, size: nat)

  /** The header at the start of `s`: payload length and header size, the mask included. */
  function ReadHead(s: seq<Byte>): (r: Head)
    ensures r.Head? ==> |s| >= 2 && r.size >= if r.masked then 6 else 2
  {
    if |s| < 2 then ShortHead
    else
      var extra := ExtraLength(s[1]);
      if |s| < 2 + extra then ShortHead
      else
        var len := if extra == 0 then s[1] % 128 else ValueOf(s[2..2 + extra]);
        if extra == 8 && len > MAX_SAFE_LENGTH then BadHead(FrameTooLarge)
        else if IsControl(s[0] % 16) && s[0] < 128 then BadHead(FragmentedControl)
        else if IsControl(s[0] % 16) && len > 125 then BadHead(ControlTooLarge)
        else Head(s[1] >= 128, len, 2 + extra + if s[1] >= 128 then 4 else 0)
  }

  function Payload(s: seq<Byte>, h: Head): seq<Byte>
    requires h.Head? && h.size >= (if h.masked then 4 else 0) && h.size + h.len <= |s|
  {
    var payload := s[h.size..h.size + h.len];
    if h.masked then Masked(payload, s[h.size - 4..h.size]) else payload
  }

  /** The frame at the start of `s`, a defect of its header, or not enough bytes to tell. */
  function ParseFrame(s: seq<Byte>): (r: Parse)
    ensures r.Parsed? ==> 0 < r.taken <= |s|
  {
    match ReadHead(s)
    case ShortHead => NeedMore
    case BadHead(v) => Bad(v)
    case Head(masked, len, size) =>
      if |s| < size + len then NeedMore
      else Parsed(Frame(s[0] >= 128, s[0] % 16, Payload(s, Head(masked, len, size))), size + len)
  }

  // ----- delivering -----------------------------------------------------------------------

  /** A fragmented message in progress. */
  datatype Progress = Idle | Fragments(opcode: nat, parts: seq<seq<Byte>>)

  datatype Message = Message(opcode: nat, data: seq<Byte>)

  datatype Delivery = Delivered(state: Progress, out: seq<Message>) | Refused(violation: Violation)

  function Deliver(st: Progress, f: Frame): Delivery {
    if f.opcode == 0 then
      match st
      case Idle => Refused(UnexpectedContinuation)
      case Fragments(opcode, parts) =>
        if f.fin then Delivered(Idle, [Message(opcode, Concat(parts + [f.data]))])
        else Delivered(Fragments(opcode, parts + [f.data]), [])
    else if IsControl(f.opcode) then Delivered(st, [Message(f.opcode, f.data)])
    else if st.Fragments? then Refused(InterleavedMessage)
    else if f.fin then Delivered(Idle, [Message(f.opcode, f.data)])
    else Delivered(Fragments(f.opcode, [f.data]), [])
  }

  // ----- a whole stream -------------------------------------------------------------------

  /** What a stream has delivered: up to its unfinished rest, or up to its first violation. */
  datatype Outcome =
    | Waiting(out: seq<Message>, state: Progress, rest: seq<Byte>)
    | Violated(out: seq<Message>, violation: Violation)

  function Prefixed(out: seq<Message>, o: Outcome): Outcome {
    match o
    case Waiting(more, st, rest) => Waiting(out + more, st, rest)
    case Violated(more, v) => Violated(out + more, v)
  }

  function Run(st: Progress, s: seq<Byte>): Outcome
    decreases |s|
  {
    match ParseFrame(s)
    case NeedMore => Waiting([], st, s)
    case Bad(v) => Violated([], v)
    case Parsed(f, taken) =>
      match Deliver(st, f)
      case Refused(v) => Violated([], v)
      case Delivered(next, out) => Prefixed(out, Run(next, s[taken..]))
  }

  /** The reassembly state when a stream runs out or violates the protocol. */
  function StateAfter(st: Progress, s: seq<Byte>): Progress
    decreases |s|
  {
    match ParseFrame(s)
    case Parsed(f, taken) =>
      (match Deliver(st, f)
       case Delivered(next, _) => StateAfter(next, s[taken..])
       case Refused(_) => st)
    case _ => st
  }
}
