/** The frame encoder, which fills a byte array, and the incremental parser object. */
module WebSocket {
  import opened ByteSeqs
  import opened WebSocketSpec
  import opened WebSocketLaws
  import opened WebSocketWire
  import opened Results

  // ----- encoder --------------------------------------------------------------------------

  /** Copy `s` into `out` from `at` on. */
  method Put(out: array<Byte>, at: nat, s: seq<Byte>)
    requires at + |s| <= out.Length
    modifies out
    ensures out[..] == old(out[..at]) + s + old(out[at + |s|..])
  {
    forall i | 0 <= i < |s| { out[at + i] := s[i]; }
  }

  /** Encode one frame; `mask` is the random mask of a masked frame. The platform bounds the length. */
  method EncodeFrame(fin: bool, opcode: nat, data: seq<Byte>, mask: Option<Mask>) returns (out: array<Byte>)
    requires |data| <= MAX_SAFE_LENGTH
    ensures fresh(out) && out[..] == Encoded(Frame(fin, opcode, data), mask)
    ensures StandsOnWire(out[..], Frame(fin, opcode, data), mask)
  {
    out := FillFrame(fin, opcode, data, mask);
    hide *;
    EncodedOctets(Frame(fin, opcode, data), mask);
  }

  /** Allocate the buffer of the frame and fill it. */
  method FillFrame(fin: bool, opcode: nat, data: seq<Byte>, mask: Option<Mask>) returns (out: array<Byte>)
    requires |data| <= MAX_SAFE_LENGTH
    ensures fresh(out) && out[..] == Encoded(Frame(fin, opcode, data), mask)
  {
    hide Masked, BigEndian, FirstByte;
    var len := |data|;
    var headerLen := 2;
    if 126 <= len < 65536 { headerLen := headerLen + 2; } else if len >= 65536 { headerLen := headerLen + 8; }
    var maskOffset := headerLen;
    if mask.Some? { headerLen := headerLen + 4; }
    var payloadOffset := headerLen;
    out := new Byte[headerLen + len];
    FillHeader(out, fin, opcode, len, mask.Some?, maskOffset);
    ghost var head := out[..maskOffset];
    if mask.Some? {
      Put(out, maskOffset, mask.value);
      assert out[..payloadOffset] == head + mask.value;
      Put(out, payloadOffset, data);
      assert out[payloadOffset..] == data && out[..payloadOffset] == head + mask.value;
      MaskInPlace(out, payloadOffset, mask.value);
      assert out[..] == head + (mask.value + Masked(data, mask.value));
    } else {
      Put(out, payloadOffset, data);
      assert out[..] == head + data;
    }
  }

  /** Apply the mask to the payload that starts at `at`. */
  method MaskInPlace(out: array<Byte>, at: nat, mask: Mask)
    requires at <= out.Length
    modifies out
    ensures out[..] == old(out[..at]) + Masked(old(out[at..]), mask)
  {
    ghost var data := out[at..];
    var len := out.Length - at;
    var i := 0;
    while i < len
      invariant 0 <= i <= len
      invariant out[..at] == old(out[..at])
      invariant forall k | at <= k < at + i :: out[k] == Xor(data[k - at], mask[(k - at) % 4])
      invariant forall k | at + i <= k < out.Length :: out[k] == data[k - at]
    {
      out[at + i] := Xor(out[at + i], mask[i % 4]);
      i := i + 1;
    }
    assert out[at..] == Masked(data, mask);
    assert out[..] == out[..at] + out[at..];
  }

  /** The first bytes up to the mask. */
  method FillHeader(out: array<Byte>, fin: bool, opcode: nat, len: nat, masked: bool, size: nat)
    requires len <= MAX_SAFE_LENGTH
    requires size == 1 + |LengthBytes(len, masked)| <= out.Length
    modifies out
    ensures out[..size] == [FirstByte(fin, opcode)] + LengthBytes(len, masked)
  {
    var m := if masked then 128 else 0;
    out[0] := (if fin then 128 else 0) + opcode % 16;
    if len < 126 {
      out[1] := m + len;
    } else if len < 65536 {
      out[1] := m + 126;
      out[2], out[3] := len / 256 % 256, len % 256;
      TwoBytes(len);
    } else {
      var hi, lo := len / 4294967296, len % 4294967296;
      out[1] := m + 127;
      out[2], out[3], out[4], out[5] := hi / 16777216 % 256, hi / 65536 % 256, hi / 256 % 256, hi % 256;
      out[6], out[7], out[8], out[9] := lo / 16777216 % 256, lo / 65536 % 256, lo / 256 % 256, lo % 256;
      EightBytes(len);
    }
  }

  lemma TwoBytes(len: nat)
    ensures BigEndian(len, 2) == [len / 256 % 256, len % 256]
  {
    assert BigEndian(len / 256, 1) == BigEndian(len / 256 / 256, 0) + [len / 256 % 256];
  }

  lemma TwoMoreBytes(v: nat, n: nat)
    ensures BigEndian(v, n + 2) == BigEndian(v / 65536, n) + [v / 256 % 256, v % 256]
  {
    assert v / 256 / 256 == v / 65536;
    assert BigEndian(v / 256, n + 1) == BigEndian(v / 256 / 256, n) + [v / 256 % 256];
    assert BigEndian(v, n + 2) == BigEndian(v / 256, n + 1) + [v % 256];
  }

  lemma FourBytes(v: nat)
    ensures BigEndian(v, 4) == [v / 16777216 % 256, v / 65536 % 256, v / 256 % 256, v % 256]
  {
    TwoMoreBytes(v, 2);
    TwoBytes(v / 65536);
    assert v / 65536 / 256 == v / 16777216;
  }

  lemma EightBytes(len: nat)
    requires len <= MAX_SAFE_LENGTH
    ensures var hi, lo := len / 4294967296, len % 4294967296;
            BigEndian(len, 8) ==
            [hi / 16777216 % 256, hi / 65536 % 256, hi / 256 % 256, hi % 256,
             lo / 16777216 % 256, lo / 65536 % 256, lo / 256 % 256, lo % 256]
  {
    var hi, lo := len / 4294967296, len % 4294967296;
    assert len / 65536 / 65536 == hi;
    TwoMoreBytes(len, 6);
    TwoMoreBytes(len / 65536, 4);
    FourBytes(hi);
    LowBytes(hi, lo);
    assert len / 65536 / 256 == len / 16777216;
  }

  /** The low half alone decides the low bytes. */
  lemma LowBytes(hi: nat, lo: nat)
    ensures var len := 4294967296 * hi + lo;
            && len % 256 == lo % 256 && len / 256 % 256 == lo / 256 % 256
            && len / 65536 % 256 == lo / 65536 % 256 && len / 16777216 % 256 == lo / 16777216 % 256
  {
    var len := 4294967296 * hi + lo;
    DropByte(len);
    DropByte(lo);
    LowByte(16777216 * hi, lo);
    LowByte(65536 * hi, lo / 256);
    LowByte(256 * hi, lo / 65536);
    LowByte(hi, lo / 16777216);
  }

  lemma DropByte(v: nat)
    ensures v / 65536 == v / 256 / 256 && v / 16777216 == v / 65536 / 256
  {
  }

  lemma LowByte(high: nat, v: nat)
    ensures (256 * high + v) / 256 == high + v / 256 && (256 * high + v) % 256 == v % 256
  {
  }

  // ----- parser ---------------------------------------------------------------------------

  /** Parse the header at `off`. */
  method TryHead(buf: seq<Byte>, off: nat) returns (r: Head)
    requires off <= |buf|
    ensures r == ReadHead(buf[off..])
  {
    hide ValueOf;
    if |buf| - off < 2 { return ShortHead; }
    var b0, b1 := buf[off], buf[off + 1];
    var fin := b0 >= 128;
    var opcode := b0 % 16;
    var masked := b1 >= 128;
    var len := b1 % 128;
    var head := off + 2;
    ghost var s := buf[off..];
    if len == 126 {
      if |buf| - head < 2 { return ShortHead; }
      assert s[2..4] == buf[head..head + 2];
      ValueOfTwo(s[2..4]);
      len := buf[head] as int * 256 + buf[head + 1] as int;
      head := head + 2;
    } else if len == 127 {
      if |buf| - head < 8 { return ShortHead; }
      assert s[2..10] == buf[head..head + 8];
      ValueOfEight(s[2..10]);
      var hi := buf[head] as int * 16777216 + buf[head + 1] as int * 65536 + buf[head + 2] as int * 256
                + buf[head + 3] as int;
      var lo := buf[head + 4] as int * 16777216 + buf[head + 5] as int * 65536 + buf[head + 6] as int * 256
                + buf[head + 7] as int;
      var big := hi * 4294967296 + lo;
      if big > MAX_SAFE_LENGTH { return BadHead(FrameTooLarge); }
      len := big;
      head := head + 8;
    }
    if opcode >= 8 {
      if !fin { return BadHead(FragmentedControl); }
      if len > 125 { return BadHead(ControlTooLarge); }
    }
    return Head(masked, len, head - off + if masked then 4 else 0);
  }

  /** Parse one frame at `off`. */
  method TryParse(buf: seq<Byte>, off: nat) returns (r: Parse)
    requires off <= |buf|
    ensures r == ParseFrame(buf[off..])
    ensures r.Parsed? ==> TakenFromWire(buf[off..], r.frame, r.taken)
  {
    hide *;
    ParsedOctets(buf[off..]);
    r := ParseAt(buf, off);
  }

  /** Take the frame at `off` apart. */
  method ParseAt(buf: seq<Byte>, off: nat) returns (r: Parse)
    requires off <= |buf|
    ensures r == ParseFrame(buf[off..])
  {
    hide ReadHead;
    var h := TryHead(buf, off);
    match h {
      case ShortHead => return NeedMore;
      case BadHead(v) => return Bad(v);
      case Head(masked, len, size) =>
        ghost var s := buf[off..];
        var head := off + size;
        if |buf| - head < len { return NeedMore; }
        var data := buf[head..head + len];
        assert data == s[size..size + len];
        if masked {
          var mask := buf[head - 4..head];
          assert mask == s[size - 4..size];
          data := Unmask(data, mask);
        }
        return Parsed(Frame(buf[off] >= 128, buf[off] % 16, data), head + len - off);
    }
  }

  /** Remove the mask byte by byte. */
  method Unmask(data: seq<Byte>, mask: Mask) returns (plain: seq<Byte>)
    ensures plain == Masked(data, mask)
  {
    var out := new Byte[|data|];
    var i := 0;
    while i < |data|
      invariant 0 <= i <= |data|
      invariant forall k | 0 <= k < i :: out[k] == Xor(data[k], mask[k % 4])
    {
      out[i] := Xor(data[i], mask[i % 4]);
      i := i + 1;
    }
    plain := out[..];
  }

  class FrameParser {
    var buf: seq<Byte>
    var fragOpcode: int
    var fragParts: seq<seq<Byte>>
    /** The frames handed to the callback so far. */
    var delivered: seq<Message>

    constructor ()
      ensures Valid() && State() == Idle && buf == [] && delivered == []
    {
      buf, fragOpcode, fragParts, delivered := [], -1, [], [];
    }

    ghost predicate Valid() reads `fragOpcode, `fragParts { fragOpcode >= -1 && (fragOpcode == -1 ==> fragParts == []) }

    ghost function State(): Progress
      reads `fragOpcode, `fragParts
    {
      if fragOpcode < 0 then Idle else Fragments(fragOpcode, fragParts)
    }

    /** Reassemble or hand on one raw frame; a violation is thrown. */
    method DeliverFrame(raw: Frame) returns (thrown: Option<Violation>)
      requires Valid()
      modifies this`fragOpcode, this`fragParts, this`delivered
      ensures Valid()
      ensures match Deliver(old(State()), raw)
              case Refused(v) => thrown == Some(v) && State() == old(State()) && delivered == old(delivered)
              case Delivered(next, out) => thrown == None && State() == next && delivered == old(delivered) + out
    {
      if raw.opcode == 0 {
        if fragOpcode == -1 { return Some(UnexpectedContinuation); }
        if !raw.fin {
          fragParts := fragParts + [raw.data];
          return None;
        }
        var parts := fragParts + [raw.data];
        var merged := Flatten(parts, |Concat(parts)|);
        var opcode := fragOpcode;
        fragOpcode, fragParts := -1, [];
        delivered := delivered + [Message(opcode, merged[..])];
        return None;
      }
      if raw.opcode >= 8 {
        delivered := delivered + [Message(raw.opcode, raw.data)];
        return None;
      }
      if !raw.fin {
        if fragOpcode != -1 { return Some(InterleavedMessage); }
        fragOpcode, fragParts := raw.opcode, [raw.data];
        return None;
      }
      if fragOpcode != -1 { return Some(InterleavedMessage); }
      delivered := delivered + [Message(raw.opcode, raw.data)];
      return None;
    }

    /** Feed a chunk. On a violation the buffer keeps all bytes, those of delivered frames included. */
    method Push(chunk: seq<Byte>) returns (thrown: Option<Violation>, ghost out: seq<Message>)
      requires Valid()
      modifies this
      ensures Valid() && delivered == old(delivered) + out
      ensures chunk == [] ==> thrown == None && buf == old(buf) && State() == old(State()) && out == []
      ensures chunk != [] && thrown.None? ==> Run(old(State()), old(buf) + chunk) == Waiting(out, State(), buf)
      ensures chunk != [] && thrown.Some? ==>
                Run(old(State()), old(buf) + chunk) == Violated(out, thrown.value) && buf == old(buf) + chunk
                && State() == StateAfter(old(State()), buf)
    {
      hide ParseFrame, Deliver, Run, Prefixed, Stands, StateAfter;
      out := [];
      if |chunk| == 0 { return None, []; }
      buf := buf + chunk;
      ghost var whole, last := Run(State(), buf), StateAfter(State(), buf);
      var off := 0;
      assert buf[0..] == buf;
      StandsAtFirst(State(), buf);
      while true
        invariant Valid() && buf == old(buf) + chunk && 0 <= off <= |buf|
        invariant delivered == old(delivered) + out
        invariant Stands(whole, out, State(), buf[off..]) && last == StateAfter(State(), buf[off..])
        decreases |buf| - off
      {
        var parsed := TryParse(buf, off);
        StandsOnward(whole, out, State(), buf[off..]);
        StateOnward(State(), buf[off..]);
        if parsed.NeedMore? {
          if off > 0 { buf := buf[off..]; }
          return None, out;
        } else if parsed.Bad? {
          return Some(parsed.violation), out;
        }
        assert buf[off..][parsed.taken..] == buf[off + parsed.taken..];
        off := off + parsed.taken;
        ghost var step := Deliver(State(), parsed.frame);
        thrown := DeliverFrame(parsed.frame);
        if thrown.Some? { return thrown, out; }
        assert (old(delivered) + out) + step.out == old(delivered) + (out + step.out);
        out := out + step.out;
      }
    }
  }

  /** `whole` is `out` followed by what the rest still brings. */
  ghost predicate Stands(whole: Outcome, out: seq<Message>, st: Progress, rest: seq<Byte>) {
    whole == Prefixed(out, Run(st, rest))
  }

  lemma StandsAtFirst(st: Progress, s: seq<Byte>)
    ensures Stands(Run(st, s), [], st, s)
  {
    PrefixedNothing(Run(st, s));
  }

  /** What the next parse says of the whole. */
  lemma StandsOnward(whole: Outcome, out: seq<Message>, st: Progress, rest: seq<Byte>)
    requires Stands(whole, out, st, rest)
    ensures match ParseFrame(rest)
            case NeedMore => whole == Waiting(out, st, rest)
            case Bad(v) => whole == Violated(out, v)
            case Parsed(f, taken) =>
              match Deliver(st, f)
              case Refused(v) => whole == Violated(out, v)
              case Delivered(next, more) => Stands(whole, out + more, next, rest[taken..])
  {
    hide ParseFrame, Deliver;
    assert out + [] == out;
    var parsed := ParseFrame(rest);
    if parsed.Parsed? {
      var step := Deliver(st, parsed.frame);
      if step.Delivered? { PrefixedTwice(out, step.out, Run(step.state, rest[parsed.taken..])); }
    }
  }

  lemma StateOnward(st: Progress, rest: seq<Byte>)
    ensures var parsed := ParseFrame(rest);
            StateAfter(st, rest) ==
            if parsed.Parsed? && Deliver(st, parsed.frame).Delivered?
            then StateAfter(Deliver(st, parsed.frame).state, rest[parsed.taken..])
            else st
  {
    hide ParseFrame, Deliver;
  }

  /** A push after one that threw: when the frames before the violation have left the reassembly state as it was, such
      as a complete message before a bad frame, their messages are delivered a second time. */
  method PushAfterViolation(parser: FrameParser, first: seq<Byte>, second: seq<Byte>)
    returns (thrown: Option<Violation>, again: Option<Violation>, ghost out: seq<Message>, ghost outAgain: seq<Message>)
    requires parser.Valid() && first != [] && second != []
    modifies parser
    ensures parser.Valid() && parser.delivered == old(parser.delivered) + out + outAgain
    ensures thrown.Some? && StateAfter(old(parser.State()), old(parser.buf) + first) == old(parser.State()) ==>
              again == thrown && outAgain == out
    ensures thrown.Some? && old(parser.State()).Idle? && StateAfter(Idle, old(parser.buf) + first) != Idle ==>
              again == Some(InterleavedMessage) && outAgain == LeadingControls(old(parser.buf) + first)
  {
    hide ParseFrame, Deliver, Run, StateAfter, LeadingControls;
    ghost var st, s := parser.State(), parser.buf + first;
    thrown, out := parser.Push(first);
    if thrown.Some? { AfterViolation(st, s, second); }
    again, outAgain := parser.Push(second);
  }

  /** Push chunks until one throws. */
  method PushAll(chunks: seq<seq<Byte>>) returns (delivered: seq<Message>, thrown: Option<Violation>, rest: seq<Byte>)
    ensures match Run(Idle, Concat(chunks))
            case Waiting(out, _, left) => delivered == out && thrown == None && rest == left
            case Violated(out, v) => delivered == out && thrown == Some(v)
  {
    hide ParseFrame, Run, Concat;
    var parser := new FrameParser();
    var i := 0;
    ghost var total: seq<Byte> := [];
    NothingToParse();
    UnfinishedRun(Idle, []);
    NothingLeft(chunks);
    while i < |chunks|
      invariant 0 <= i <= |chunks| && parser.Valid() && fresh(parser)
      invariant total + Concat(chunks[i..]) == Concat(chunks)
      invariant Run(Idle, total) == Waiting(parser.delivered, parser.State(), parser.buf)
    {
      ghost var chunk := chunks[i];
      ghost var out;
      thrown, out := parser.Push(chunks[i]);
      NextChunk(chunks, i, total);
      RunInPieces(Idle, total, chunk);
      assert total + [] == total;
      if thrown.Some? {
        RunInPieces(Idle, total + chunk, Concat(chunks[i + 1..]));
        return parser.delivered, thrown, parser.buf;
      }
      total := total + chunk;
      i := i + 1;
    }
    assert total + [] == total;
    return parser.delivered, None, parser.buf;
  }

  lemma NothingLeft(chunks: seq<seq<Byte>>)
    ensures chunks[0..] == chunks && Concat(chunks[|chunks|..]) == [] && [] + Concat(chunks) == Concat(chunks)
  {
  }

  lemma NextChunk(chunks: seq<seq<Byte>>, i: nat, total: seq<Byte>)
    requires i < |chunks|
    ensures total + Concat(chunks[i..]) == (total + chunks[i]) + Concat(chunks[i + 1..])
  {
    assert chunks[i..][1..] == chunks[i + 1..];
  }
}
