/** What stands at which place of a frame, octet by octet, and the frames of section 5.7 of RFC 6455. */
module WebSocketWire {
  import opened ByteSeqs
  import opened WebSocketSpec
  import opened WebSocketLaws
  import opened Results

  // ----- the length -----------------------------------------------------------------------

  /** The length that the octets behind the first one announce, most significant first. */
  lemma LengthOctets(s: seq<Byte>, h: Head)
    requires ReadHead(s) == h && h.Head?
    ensures h.masked == (s[1] >= 128)
    ensures s[1] % 128 < 126 ==> h.len == s[1] % 128 && h.size == 2 + if h.masked then 4 else 0
    ensures s[1] % 128 == 126 ==>
              |s| >= 4 && h.len == s[2] as int * 0x100 + s[3] as int && h.size == 4 + if h.masked then 4 else 0
    ensures s[1] % 128 == 127 ==>
              && |s| >= 10 && h.size == 10 + (if h.masked then 4 else 0)
              && h.len == s[2] as int * 0x100_0000_0000_0000 + s[3] as int * 0x1_0000_0000_0000
                          + s[4] as int * 0x100_0000_0000 + s[5] as int * 0x1_0000_0000
                          + s[6] as int * 0x100_0000 + s[7] as int * 0x1_0000 + s[8] as int * 0x100 + s[9] as int
              && h.len <= 9007199254740991
  {
    hide ValueOf;
    if s[1] % 128 == 126 { ValueOfTwo(s[2..4]); }
    if s[1] % 128 == 127 { ValueOfEight(s[2..10]); }
  }

  // ----- frames ---------------------------------------------------------------------------

  /** The frame was read off the first `taken` octets of `s`: its flags, its length, and octet `i` of the payload under
      octet `i % 4` of the four before it. */
  ghost predicate TakenFromWire(s: seq<Byte>, f: Frame, taken: nat) {
    var size := |f.data|;
    var at := taken - size;
    && 2 <= at && taken <= |s| && (s[1] >= 128 ==> 6 <= at)
    && f.fin == (s[0] >= 128) && f.opcode == s[0] % 16
    && forall i | 0 <= i < size :: f.data[i] == if s[1] >= 128 then Xor(s[at + i], s[at - 4 + i % 4]) else s[at + i]
  }

  lemma ParsedOctets(s: seq<Byte>)
    ensures var r := ParseFrame(s); r.Parsed? ==> TakenFromWire(s, r.frame, r.taken)
  {
    if ParseFrame(s).Parsed? {
      LengthOctets(s, ReadHead(s));
      hide ReadHead;
    }
  }

  /** The octets `out` are the frame: its flags, its mask, and octet `i` of the payload under octet `i % 4` of the
      mask. */
  ghost predicate StandsOnWire(out: seq<Byte>, f: Frame, mask: Option<Mask>) {
    var size := |f.data|;
    var at := |out| - size;
    && at == (if size < 126 then 2 else if size < 65536 then 4 else 10) + (if mask.Some? then 4 else 0)
    && out[0] as int == (if f.fin then 128 else 0) + f.opcode % 16
    && (mask.None? ==> out[at..] == f.data)
    && (mask.Some? ==> out[at - 4..at] == mask.value)
    && (mask.Some? ==> forall i | 0 <= i < size :: out[at + i] == Xor(f.data[i], mask.value[i % 4]))
  }

  lemma EncodedOctets(f: Frame, mask: Option<Mask>)
    requires |f.data| <= MAX_SAFE_LENGTH
    ensures StandsOnWire(Encoded(f, mask), f, mask)
  {
    var l := LengthBytes(|f.data|, mask.Some?);
    hide LengthBytes;
    assert |l| == if |f.data| < 126 then 1 else if |f.data| < 65536 then 3 else 9 by { LengthOf(|f.data|, mask.Some?); }
    var out := Encoded(f, mask);
    if mask.Some? { assert out[1 + |l|..5 + |l|] == mask.value; }
  }

  lemma LengthOf(len: nat, masked: bool)
    requires len <= MAX_SAFE_LENGTH
    ensures |LengthBytes(len, masked)| == if len < 126 then 1 else if len < 65536 then 3 else 9
  {
  }

  // ----- the examples of the standard -----------------------------------------------------

  const HELLO: seq<Byte> := [0x48, 0x65, 0x6c, 0x6c, 0x6f]

  /** A single unmasked text message. */
  lemma UnmaskedHello()
    ensures ParseFrame([0x81, 0x05] + HELLO) == Parsed(Frame(true, 1, HELLO), 7)
  {
    var s := [0x81, 0x05] + HELLO;
    assert s[2..7] == HELLO;
  }

  /** The same message masked. */
  lemma MaskedHello()
    ensures ParseFrame(MASKED_HELLO) == Parsed(Frame(true, 1, HELLO), 11)
  {
    MaskedHelloHead();
    ParsedOctets(MASKED_HELLO);
    HelloOctets();
    hide ReadHead, Xor, Masked;
    var data := ParseFrame(MASKED_HELLO).frame.data;
    assert |data| == 5;
    hide ParseFrame;
    SameOctets(data);
  }

  const MASKED_HELLO: seq<Byte> := [0x81, 0x85, 0x37, 0xfa, 0x21, 0x3d, 0x7f, 0x9f, 0x4d, 0x51, 0x58]

  lemma MaskedHelloHead()
    ensures ReadHead(MASKED_HELLO) == Head(true, 5, 6)
  {
  }

  lemma SameOctets(data: seq<Byte>)
    requires |data| == 5 && data[0] == 0x48 && data[1] == 0x65 && data[2] == 0x6c && data[3] == 0x6c && data[4] == 0x6f
    ensures data == HELLO
  {
  }

  lemma HelloOctets()
    ensures Xor(0x7f, 0x37) == 0x48 && Xor(0x9f, 0xfa) == 0x65 && Xor(0x4d, 0x21) == 0x6c
    ensures Xor(0x51, 0x3d) == 0x6c && Xor(0x58, 0x37) == 0x6f
  {
    hide XorBits;
    FirstOctet();
    SecondOctet();
    ThirdOctet();
    FourthOctet();
    FifthOctet();
  }

  lemma FirstOctet()
    ensures XorBits(0x7f, 0x37, 8) == 0x48
  {
    assert XorBits(0x3, 0x1, 3) == 0x2;
    assert XorBits(0x7, 0x3, 4) == 0x4;
    assert XorBits(0xf, 0x6, 5) == 0x9;
    assert XorBits(0x1f, 0xd, 6) == 0x12;
    assert XorBits(0x3f, 0x1b, 7) == 0x24;
  }

  lemma SecondOctet()
    ensures XorBits(0x9f, 0xfa, 8) == 0x65
  {
    assert XorBits(0x4, 0x7, 3) == 0x3;
    assert XorBits(0x9, 0xf, 4) == 0x6;
    assert XorBits(0x13, 0x1f, 5) == 0xc;
    assert XorBits(0x27, 0x3e, 6) == 0x19;
    assert XorBits(0x4f, 0x7d, 7) == 0x32;
  }

  lemma ThirdOctet()
    ensures XorBits(0x4d, 0x21, 8) == 0x6c
  {
    assert XorBits(0x2, 0x1, 3) == 0x3;
    assert XorBits(0x4, 0x2, 4) == 0x6;
    assert XorBits(0x9, 0x4, 5) == 0xd;
    assert XorBits(0x13, 0x8, 6) == 0x1b;
    assert XorBits(0x26, 0x10, 7) == 0x36;
  }

  lemma FourthOctet()
    ensures XorBits(0x51, 0x3d, 8) == 0x6c
  {
    assert XorBits(0x2, 0x1, 3) == 0x3;
    assert XorBits(0x5, 0x3, 4) == 0x6;
    assert XorBits(0xa, 0x7, 5) == 0xd;
    assert XorBits(0x14, 0xf, 6) == 0x1b;
    assert XorBits(0x28, 0x1e, 7) == 0x36;
  }

  lemma FifthOctet()
    ensures XorBits(0x58, 0x37, 8) == 0x6f
  {
    assert XorBits(0x2, 0x1, 3) == 0x3;
    assert XorBits(0x5, 0x3, 4) == 0x6;
    assert XorBits(0xb, 0x6, 5) == 0xd;
    assert XorBits(0x16, 0xd, 6) == 0x1b;
    assert XorBits(0x2c, 0x1b, 7) == 0x37;
  }

  /** The lengths 256 and 65536. */
  lemma LongLengths()
    ensures LengthBytes(256, false) == [0x7e, 0x01, 0x00]
    ensures LengthBytes(65536, false) == [0x7f, 0, 0, 0, 0, 0, 1, 0, 0]
  {
  }

  /** A fragmented message, and the four defects of a header or of the order of frames. */
  lemma Defects(s: seq<Byte>, data: seq<Byte>, parts: seq<seq<Byte>>)
    requires |s| >= 2
    ensures s[0] % 16 >= 8 && s[0] < 128 && s[1] % 128 < 126 ==> ParseFrame(s) == Bad(FragmentedControl)
    ensures s[0] % 16 >= 8 && s[0] >= 128 && s[1] % 128 == 126 && |s| >= 4 && (s[2] > 0 || s[3] > 125) ==>
              ParseFrame(s) == Bad(ControlTooLarge)
    ensures Deliver(Idle, Frame(true, 0, data)) == Deliver(Idle, Frame(false, 0, data))
            == Refused(UnexpectedContinuation)
    ensures forall op | 1 <= op < 8 ::
              Deliver(Fragments(2, parts), Frame(true, op, data)) == Refused(InterleavedMessage)
  {
    if s[1] % 128 == 126 && |s| >= 4 { ValueOfTwo(s[2..4]); }
  }

  lemma FragmentedHello()
    ensures Run(Idle, [0x01, 0x03, 0x48, 0x65, 0x6c, 0x80, 0x02, 0x6c, 0x6f]) == Waiting([Message(1, HELLO)], Idle, [])
  {
    var s: seq<Byte> := [0x01, 0x03, 0x48, 0x65, 0x6c, 0x80, 0x02, 0x6c, 0x6f];
    var first, second := Frame(false, 1, [0x48, 0x65, 0x6c]), Frame(true, 0, [0x6c, 0x6f]);
    assert s[2..5] == first.data && s[5..] == [0x80, 0x02, 0x6c, 0x6f];
    assert s[5..][2..4] == second.data && s[5..][4..] == [];
    assert ParseFrame(s) == Parsed(first, 5);
    assert ParseFrame(s[5..]) == Parsed(second, 4);
    assert Concat([first.data] + [second.data]) == HELLO by { TwoParts(first.data, second.data); }
    assert Run(Idle, []) == Waiting([], Idle, []);
  }

  lemma TwoParts(x: seq<Byte>, y: seq<Byte>)
    ensures Concat([x] + [y]) == x + y
  {
    assert ([x] + [y])[1..] == [y] && [y][1..] == [];
    assert Concat([y]) == y + Concat<Byte>([]) == y;
  }
}
