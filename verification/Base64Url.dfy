/** Unpadded base64url (section 5 of RFC 4648): the two loops of the codec, and that they are inverse both ways. */
module Base64Url {
  import opened ByteSeqs
  import opened Results

  type Sextet = x: int | 0 <= x < 64

  // ----- the alphabet ---------------------------------------------------------------------

  function Letter(v: Sextet): char {
    if v < 26 then (65 + v) as char
    else if v < 52 then (71 + v) as char
    else if v < 62 then (v - 4) as char
    else if v == 62 then '-' else '_'
  }

  predicate IsLetter(c: char) {
    'A' <= c <= 'Z' || 'a' <= c <= 'z' || '0' <= c <= '9' || c == '-' || c == '_'
  }

  function ValueOf(c: char): Sextet
    requires IsLetter(c)
  {
    if 'A' <= c <= 'Z' then c as int - 65
    else if 'a' <= c <= 'z' then c as int - 71
    else if '0' <= c <= '9' then c as int + 4
    else if c == '-' then 62 else 63
  }

  lemma LetterValue(v: Sextet)
    ensures IsLetter(Letter(v)) && ValueOf(Letter(v)) == v
  {
  }

  lemma ValueLetter(c: char)
    requires IsLetter(c)
    ensures Letter(ValueOf(c)) == c
  {
  }

  predicate AllLetters(s: string) { forall i | 0 <= i < |s| :: IsLetter(s[i]) }

  function Letters(v: seq<Sextet>): string { seq(|v|, i requires 0 <= i < |v| => Letter(v[i])) }

  function Values(s: string): seq<Sextet>
    requires AllLetters(s)
  {
    seq(|s|, i requires 0 <= i < |s| => ValueOf(s[i]))
  }

  lemma ValuesOfLetters(v: seq<Sextet>)
    ensures AllLetters(Letters(v)) && Values(Letters(v)) == v
  {
    forall i | 0 <= i < |v| ensures IsLetter(Letter(v[i])) && ValueOf(Letter(v[i])) == v[i] { LetterValue(v[i]); }
  }

  lemma LettersOfValues(s: string)
    requires AllLetters(s)
    ensures Letters(Values(s)) == s
  {
    forall i | 0 <= i < |s| ensures Letter(ValueOf(s[i])) == s[i] { ValueLetter(s[i]); }
  }

  // ----- groups of three bytes and four sextets -------------------------------------------

  function Sextet0(a: Byte): Sextet { a / 4 }
  function Sextet1(a: Byte, b: Byte): Sextet { a as int % 4 * 16 + b / 16 }
  function Sextet2(b: Byte, c: Byte): Sextet { b as int % 16 * 4 + c / 64 }
  function Sextet3(c: Byte): Sextet { c % 64 }

  function Sextets(b: seq<Byte>): seq<Sextet> {
    if b == [] then []
    else if |b| == 1 then [Sextet0(b[0]), Sextet1(b[0], 0)]
    else if |b| == 2 then [Sextet0(b[0]), Sextet1(b[0], b[1]), Sextet2(b[1], 0)]
    else [Sextet0(b[0]), Sextet1(b[0], b[1]), Sextet2(b[1], b[2]), Sextet3(b[2])] + Sextets(b[3..])
  }

  function Byte0(v0: Sextet, v1: Sextet): Byte { v0 as int * 4 + v1 / 16 }
  function Byte1(v1: Sextet, v2: Sextet): Byte { v1 as int % 16 * 16 + v2 / 4 }
  function Byte2(v2: Sextet, v3: Sextet): Byte { v2 as int % 4 * 64 + v3 }

  /** The bytes completed by the sextets; the unfinished bits of a short last group are dropped. */
  function Completed(v: seq<Sextet>): seq<Byte> {
    if |v| < 2 then []
    else if |v| == 2 then [Byte0(v[0], v[1])]
    else if |v| == 3 then [Byte0(v[0], v[1]), Byte1(v[1], v[2])]
    else [Byte0(v[0], v[1]), Byte1(v[1], v[2]), Byte2(v[2], v[3])] + Completed(v[4..])
  }

  /** Canonical: the unfinished bits of a short last group are zero, and no group has one sextet. */
  predicate Canonical(v: seq<Sextet>) {
    match |v| % 4
    case 0 => true
    case 1 => false
    case 2 => v[|v| - 1] % 16 == 0
    case _ => v[|v| - 1] % 4 == 0
  }

  function EncodedText(b: seq<Byte>): string { Letters(Sextets(b)) }

  function Decoded(s: string): Option<seq<Byte>> {
    if AllLetters(s) && Canonical(Values(s)) then Some(Completed(Values(s))) else None
  }

  lemma BytesBack(a: Byte, b: Byte, c: Byte)
    ensures Byte0(Sextet0(a), Sextet1(a, b)) == a
    ensures Byte1(Sextet1(a, b), Sextet2(b, c)) == b
    ensures Byte2(Sextet2(b, c), Sextet3(c)) == c
    ensures Sextet1(a, 0) % 16 == 0 && Sextet2(b, 0) % 4 == 0
  {
  }

  lemma GroupBack(v0: Sextet, v1: Sextet, v2: Sextet, v3: Sextet)
    ensures var (a, b, c) := (Byte0(v0, v1), Byte1(v1, v2), Byte2(v2, v3));
            && Sextet0(a) == v0 && Sextet1(a, b) == v1 && Sextet2(b, c) == v2 && Sextet3(c) == v3
            && (v1 % 16 == 0 ==> Sextet1(a, 0) == v1) && (v2 % 4 == 0 ==> Sextet2(b, 0) == v2)
  {
  }

  /** Three bytes and their four sextets are the same number. */
  lemma GroupBits(a: Byte, b: Byte, c: Byte)
    ensures Sextet0(a) as int * 0x4_0000 + Sextet1(a, b) as int * 0x1000 + Sextet2(b, c) as int * 0x40
            + Sextet3(c) as int
            == a as int * 0x1_0000 + b as int * 0x100 + c as int
  {
  }

  lemma {:induction false} SextetsBack(b: seq<Byte>)
    ensures Canonical(Sextets(b)) && Completed(Sextets(b)) == b
  {
    hide Byte0, Byte1, Byte2, Sextet0, Sextet1, Sextet2, Sextet3;
    if b != [] { BytesBack(b[0], if |b| > 1 then b[1] else 0, if |b| > 2 then b[2] else 0); }
    if |b| >= 3 {
      SextetsBack(b[3..]);
      GroupFirst([Sextet0(b[0]), Sextet1(b[0], b[1]), Sextet2(b[1], b[2]), Sextet3(b[2])], Sextets(b[3..]));
    }
  }

  lemma GroupFirst(g: seq<Sextet>, rest: seq<Sextet>)
    requires |g| == 4
    ensures Completed(g + rest) == [Byte0(g[0], g[1]), Byte1(g[1], g[2]), Byte2(g[2], g[3])] + Completed(rest)
    ensures Canonical(g + rest) <==> Canonical(rest)
  {
    hide Byte0, Byte1, Byte2;
    assert (g + rest)[4..] == rest;
    assert |g + rest| % 4 == |rest| % 4;
  }

  lemma {:induction false} CompletedBack(v: seq<Sextet>)
    requires Canonical(v)
    ensures Sextets(Completed(v)) == v
  {
    hide Byte0, Byte1, Byte2, Sextet0, Sextet1, Sextet2, Sextet3;
    if |v| >= 2 { GroupBack(v[0], v[1], if |v| > 2 then v[2] else 0, if |v| > 3 then v[3] else 0); }
    if |v| >= 4 {
      var rest := v[4..];
      assert |v| % 4 == |rest| % 4;
      if rest != [] { assert v[|v| - 1] == rest[|rest| - 1]; }
      CompletedBack(rest);
      var b := Completed(v);
      assert b[3..] == Completed(rest);
    }
  }

  /** Decoding an encoding gives the bytes back. */
  lemma DecodeEncode(b: seq<Byte>)
    ensures Decoded(EncodedText(b)) == Some(b)
  {
    SextetsBack(b);
    ValuesOfLetters(Sextets(b));
  }

  /** A string that the decoder accepts is the encoding of its result. */
  lemma EncodeDecode(s: string)
    requires Decoded(s).Some?
    ensures EncodedText(Decoded(s).value) == s
  {
    CompletedBack(Values(s));
    LettersOfValues(s);
  }

  /** An encoding holds letters of the alphabet only, no dot. */
  lemma EncodedLetters(b: seq<Byte>)
    ensures AllLetters(EncodedText(b)) && '.' !in EncodedText(b)
  {
    ValuesOfLetters(Sextets(b));
  }

  /** Examples of section 10 of RFC 4648, without padding, and the two letters that differ from plain base64. */
  lemma Examples()
    ensures EncodedText([0x66]) == "Zg" && EncodedText([0x66, 0x6f]) == "Zm8"
    ensures EncodedText([0x66, 0x6f, 0x6f, 0x62, 0x61, 0x72]) == "Zm9vYmFy"
    ensures EncodedText([0xfb, 0xff]) == "-_8"
  {
    var foobar: seq<Byte> := [0x66, 0x6f, 0x6f, 0x62, 0x61, 0x72];
    assert foobar[3..] == [0x62, 0x61, 0x72] && foobar[3..][3..] == [];
    assert Sextets([]) == [];
    assert Sextets([0x62, 0x61, 0x72]) == [24, 38, 5, 50] + [];
    assert Sextets(foobar) == [25, 38, 61, 47] + [24, 38, 5, 50];
    assert Letters([25, 38, 61, 47, 24, 38, 5, 50]) == "Zm9vYmFy";
    assert Sextets([0x66]) == [25, 32] && Sextets([0x66, 0x6f]) == [25, 38, 60];
    assert Sextets([0xfb, 0xff]) == [62, 63, 60];
  }

  // ----- encoder --------------------------------------------------------------------------

  lemma {:induction false} WholeGroups(b: seq<Byte>, i: nat)
    requires i % 3 == 0 && i + 2 < |b|
    ensures EncodedText(b[i..]) ==
            Letters([Sextet0(b[i]), Sextet1(b[i], b[i + 1]), Sextet2(b[i + 1], b[i + 2]), Sextet3(b[i + 2])])
            + EncodedText(b[i + 3..])
  {
    assert b[i..][3..] == b[i + 3..];
  }

  method BytesToBase64Url(bytes: seq<Byte>) returns (out: string)
    ensures out == EncodedText(bytes)
  {
    hide EncodedText, Letter;
    out := "";
    var i := 0;
    assert bytes[0..] == bytes;
    while i + 2 < |bytes|
      invariant 0 <= i <= |bytes| && i % 3 == 0
      invariant out + EncodedText(bytes[i..]) == EncodedText(bytes)
    {
      var a, b, c := bytes[i], bytes[i + 1], bytes[i + 2];
      WholeGroups(bytes, i);
      out := out + [Letter(a / 4), Letter(a % 4 * 16 + b / 16), Letter(b % 16 * 4 + c / 64), Letter(c % 64)];
      i := i + 3;
    }
    LastGroup(bytes[i..]);
    var rem := |bytes| - i;
    if rem == 1 {
      var a := bytes[i];
      out := out + [Letter(a / 4), Letter(a % 4 * 16)];
    } else if rem == 2 {
      var a, b := bytes[i], bytes[i + 1];
      out := out + [Letter(a / 4), Letter(a % 4 * 16 + b / 16), Letter(b % 16 * 4)];
    }
  }

  lemma LastGroup(b: seq<Byte>)
    requires |b| < 3
    ensures EncodedText(b) ==
            if b == [] then ""
            else if |b| == 1 then [Letter(b[0] / 4), Letter(b[0] % 4 * 16)]
            else [Letter(b[0] / 4), Letter(b[0] % 4 * 16 + b[1] / 16), Letter(b[1] % 16 * 4)]
  {
  }

  // ----- decoder --------------------------------------------------------------------------

  /** The signed 32-bit value of an integer. */
  function Wrap32(x: int): (r: int)
    ensures -0x8000_0000 <= r < 0x8000_0000
  {
    (x + 0x8000_0000) % 0x1_0000_0000 - 0x8000_0000
  }

  /** Bits that a group of `n` sextets leaves unfinished. */
  function Leftover(n: nat): nat {
    if n % 4 == 0 then 0 else if n % 4 == 1 then 6 else if n % 4 == 2 then 4 else 2
  }

  lemma WrapTo(x: int) returns (k: int)
    ensures Wrap32(x) == x - k * 0x1_0000_0000
  {
    k := (x + 0x8000_0000) / 0x1_0000_0000;
  }

  /** The step of the accumulator when a byte is completed from six, four or two unfinished bits: reduction
      modulo 2^32 changes none of the bits that are read. */
  lemma SixBits(acc: int, u: Sextet, v: Sextet)
    requires acc % 64 == u
    ensures var next := Wrap32(acc * 64) + v; next % 16 == v % 16 && next / 16 % 256 == Byte0(u, v)
  {
    var k := WrapTo(acc * 64);
    var next := Wrap32(acc * 64) + v;
    hide Wrap32;
    var high := acc / 64 - k * 0x10_0000;
    assert acc == acc / 64 * 64 + u;
    assert next == 16 * (256 * high + Byte0(u, v)) + v % 16;
    hide Byte0;
    ReadAbove16(high, Byte0(u, v), v % 16);
  }

  lemma ReadAbove16(high: int, byte: Byte, low: nat)
    requires low < 16
    ensures var x := 16 * (256 * high + byte) + low; x % 16 == low && x / 16 % 256 == byte
  {
    var x := 16 * (256 * high + byte) + low;
    assert x / 16 == 256 * high + byte;
  }

  lemma FourBits(acc: int, u: Sextet, v: Sextet)
    requires acc % 16 == u % 16
    ensures var next := Wrap32(acc * 64) + v; next % 4 == v % 4 && next / 4 % 256 == Byte1(u, v)
  {
    var k := WrapTo(acc * 64);
    var next := Wrap32(acc * 64) + v;
    hide Wrap32;
    var high := acc / 16 - k * 0x40_0000;
    assert acc == acc / 16 * 16 + u % 16;
    assert next == 4 * (256 * high + Byte1(u, v)) + v % 4;
    hide Byte1;
    ReadAbove4(high, Byte1(u, v), v % 4);
  }

  lemma ReadAbove4(high: int, byte: Byte, low: nat)
    requires low < 4
    ensures var x := 4 * (256 * high + byte) + low; x % 4 == low && x / 4 % 256 == byte
  {
    var x := 4 * (256 * high + byte) + low;
    assert x / 4 == 256 * high + byte;
  }

  lemma TwoBits(acc: int, u: Sextet, v: Sextet)
    requires acc % 4 == u % 4
    ensures (Wrap32(acc * 64) + v) % 256 == Byte2(u, v)
  {
    var k := WrapTo(acc * 64);
    var next := Wrap32(acc * 64) + v;
    assert acc == acc / 4 * 4 + u % 4;
    assert next == 256 * (acc / 4 - k * 0x100_0000) + Byte2(u, v);
  }

  lemma NoBits(acc: int, v: Sextet)
    ensures (Wrap32(acc * 64) + v) % 64 == v
  {
    var k := WrapTo(acc * 64);
    assert Wrap32(acc * 64) + v == 64 * (acc - k * 0x400_0000) + v;
  }

  /** The byte, if any, that sextet `x` completes after `n` sextets of which `u` is the last. */
  function Finished(n: nat, u: Sextet, x: Sextet): seq<Byte> {
    if n % 4 == 0 then [] else if n % 4 == 1 then [Byte0(u, x)] else if n % 4 == 2 then [Byte1(u, x)] else [Byte2(u, x)]
  }

  lemma {:induction false} CompletedSnoc(v: seq<Sextet>, x: Sextet)
    ensures Completed(v + [x]) == Completed(v) + Finished(|v|, if v == [] then 0 else v[|v| - 1], x)
  {
    if |v| < 4 {
      ShortSnoc(v, x);
    } else {
      hide Finished, Byte0, Byte1, Byte2, Completed;
      var g, rest := v[..4], v[4..];
      CompletedSnoc(rest, x);
      assert v == g + rest && v + [x] == g + (rest + [x]);
      GroupFirst(g, rest);
      GroupFirst(g, rest + [x]);
      SameGroup(|rest|, if rest == [] then 0 else rest[|rest| - 1], if v == [] then 0 else v[|v| - 1], x);
    }
  }

  lemma SameGroup(n: nat, u: Sextet, w: Sextet, x: Sextet)
    requires n > 0 ==> u == w
    ensures Finished(n + 4, w, x) == Finished(n, u, x)
  {
    assert (n + 4) % 4 == n % 4;
  }

  lemma ShortSnoc(v: seq<Sextet>, x: Sextet)
    requires |v| < 4
    ensures Completed(v + [x]) == Completed(v) + Finished(|v|, if v == [] then 0 else v[|v| - 1], x)
  {
    hide *;
    FinishedShort(if v == [] then 0 else v[|v| - 1], x);
    if |v| == 0 {
      assert v == [] && v + [x] == [x];
      CompletedShort(x, x, x, x);
    } else if |v| == 1 {
      assert v == [v[0]] && v + [x] == [v[0], x];
      CompletedShort(v[0], x, x, x);
    } else if |v| == 2 {
      assert v == [v[0], v[1]] && v + [x] == [v[0], v[1], x];
      CompletedShort(v[0], v[1], x, x);
    } else {
      assert v == [v[0], v[1], v[2]] && v + [x] == [v[0], v[1], v[2], x];
      CompletedShort(v[0], v[1], v[2], x);
    }
  }

  lemma CompletedShort(a: Sextet, b: Sextet, c: Sextet, d: Sextet)
    ensures Completed([]) == [] == Completed([a]) && Completed([a, b]) == [Byte0(a, b)]
    ensures Completed([a, b, c]) == [Byte0(a, b)] + [Byte1(b, c)]
    ensures Completed([a, b, c, d]) == [Byte0(a, b)] + [Byte1(b, c)] + [Byte2(c, d)]
  {
    hide Byte0, Byte1, Byte2;
    assert [a, b, c, d][4..] == [] && Completed([]) == [];
  }

  lemma FinishedShort(u: Sextet, x: Sextet)
    ensures Finished(0, u, x) == [] && Finished(1, u, x) == [Byte0(u, x)]
    ensures Finished(2, u, x) == [Byte1(u, x)] && Finished(3, u, x) == [Byte2(u, x)]
  {
  }

  /** Bits that are read of the accumulator; a power of two. */
  function Unit(bits: nat): nat {
    if bits == 0 then 1 else if bits == 2 then 4 else if bits == 4 then 16 else 64
  }

  lemma AccumulatorStep(n: nat, acc: int, u: Sextet, x: Sextet)
    requires n > 0 ==> acc % Unit(Leftover(n)) == u % Unit(Leftover(n))
    ensures var next := Wrap32(acc * 64) + x;
            var after := Leftover(n + 1);
            && next % Unit(after) == x % Unit(after)
            && (if Leftover(n) + 6 >= 8
                then after == Leftover(n) - 2 && Finished(n, u, x) == [next / Unit(after) % 256]
                else after == Leftover(n) + 6 && Finished(n, u, x) == [])
  {
    hide Wrap32, Byte0, Byte1, Byte2;
    NextLeftover(n);
    if n % 4 == 0 {
      NoBits(acc, x);
    } else if n % 4 == 1 {
      SixBits(acc, u, x);
    } else if n % 4 == 2 {
      FourBits(acc, u, x);
    } else {
      TwoBits(acc, u, x);
    }
    hide Leftover;
  }

  lemma NextLeftover(n: nat)
    ensures Leftover(n) == (if n % 4 == 0 then 0 else if n % 4 == 1 then 6 else if n % 4 == 2 then 4 else 2)
    ensures Leftover(n + 1) == (if n % 4 == 0 then 6 else if n % 4 == 1 then 4 else if n % 4 == 2 then 2 else 0)
  {
  }

  method Base64UrlToBytes(s: string) returns (r: Option<seq<Byte>>)
    ensures r == Decoded(s)
  {
    if |s| % 4 == 1 { return None; }
    hide Completed, Finished, Wrap32, ValueOf, IsLetter, Unit, Leftover;
    var out: seq<Byte> := [];
    var acc, bits, i := 0, 0, 0;
    ghost var v: seq<Sextet> := [];
    NothingDecoded();
    while i < |s|
      invariant 0 <= i <= |s| && |v| == i
      invariant forall k | 0 <= k < i :: IsLetter(s[k]) && ValueOf(s[k]) == v[k]
      invariant bits == Leftover(i) && out == Completed(v)
      invariant i > 0 ==> acc % Unit(bits) == v[i - 1] % Unit(bits)
    {
      if !IsLetter(s[i]) { return None; }
      var x := ValueOf(s[i]);
      ghost var u := if i == 0 then 0 else v[i - 1];
      CompletedSnoc(v, x);
      AccumulatorStep(i, acc, u, x);
      acc := Wrap32(acc * 64) + x;
      bits := bits + 6;
      if bits >= 8 {
        bits := bits - 8;
        out := out + [acc / Unit(bits) % 256];
      }
      v := v + [x];
      i := i + 1;
    }
    assert v == Values(s);
    UnitIsPositive(bits);
    LastBits(v, acc, bits);
    if bits > 0 && acc % Unit(bits) != 0 { return None; }
    return Some(out);
  }

  lemma NothingDecoded()
    ensures Completed([]) == [] && Leftover(0) == 0
  {
  }

  lemma UnitIsPositive(bits: nat)
    ensures Unit(bits) > 0
  {
  }

  /** The bits left over at the end decide whether the text is canonical. */
  lemma LastBits(v: seq<Sextet>, acc: int, bits: nat)
    requires |v| % 4 != 1 && bits == Leftover(|v|)
    requires v != [] ==> acc % Unit(bits) == v[|v| - 1] % Unit(bits)
    ensures Canonical(v) <==> !(bits > 0 && acc % Unit(bits) != 0)
  {
  }
}
