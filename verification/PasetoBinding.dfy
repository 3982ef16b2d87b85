/** What a token binds: a change of ciphertext, footer or assertion is accepted only through a collision of digests. */
module PasetoBinding {
  import opened ByteSeqs
  import opened Base64Url
  import opened Paseto
  import opened PasetoLaws

  // ----- what the tag covers --------------------------------------------------------------

  /** The key of the tag, which key and nonce of the token give. */
  function MacKey(p: Primitives, key: Bytes32, n: Bytes32): Bytes32 {
    Digest(p, Ascii("paseto-auth-key-for-aead") + n, key, 32)
  }

  /** Two different inputs have the same digest under the key of the tag. */
  ghost predicate Collision(p: Primitives, key: Bytes32, n: Bytes32) {
    exists x, y :: x != y && Digest(p, x, MacKey(p, key, n), 32) == Digest(p, y, MacKey(p, key, n), 32)
  }

  /** A token that carries nonce and tag of a sealed one, but another ciphertext, footer or assertion, is opened only
      through a collision. */
  lemma ForgeryCollides(p: Primitives, key: Bytes32, message: seq<Byte>, footer: seq<Byte>, assertion: seq<Byte>,
                        n: Bytes32, token: string, footer2: seq<Byte>, assertion2: seq<Byte>)
    requires Fits(message) && Fits(footer) && Fits(assertion) && Fits(footer2) && Fits(assertion2)
    requires Opened(p, key, token, footer2, assertion2).Ok?
    requires SplitToken(Sealed(p, key, message, footer, assertion, n), footer).Ok?
    requires var mine := SplitToken(Sealed(p, key, message, footer, assertion, n), footer).value;
             var other := SplitToken(token, footer2).value;
             && other.n == n && other.t == mine.t && Fits(other.c)
             && (other.c != mine.c || footer2 != footer || assertion2 != assertion)
    ensures Collision(p, key, n)
  {
    hide SplitToken, TokenOf, Cipher, Digest, PaeOf;
    var c := Cipher(p, key, n, message);
    var other := SplitToken(token, footer2).value;
    AcceptsCarried(Sealed(p, key, message, footer, assertion, n),
                   TokenParts(n, c, Tag(p, key, n, c, footer, assertion)), footer);
    var h := Ascii("v4.local.");
    SmallFits(h);
    SmallFits(n);
    DifferentPieces(h, n, c, footer, assertion, other.c, footer2, assertion2);
    var x, y := PaeOf([h, n, c, footer, assertion]), PaeOf([h, n, other.c, footer2, assertion2]);
    assert Digest(p, x, MacKey(p, key, n), 32) == Digest(p, y, MacKey(p, key, n), 32);
  }

  lemma SmallFits(s: seq<Byte>)
    requires |s| <= 64
    ensures Fits(s)
  {
    assert Power256(2) == 65536;
    assert Power256(4) == 0x1_0000_0000;
    assert Power256(6) == 0x1_0000_0000_0000;
  }

  lemma DifferentPieces(h: seq<Byte>, n: seq<Byte>, c: seq<Byte>, f: seq<Byte>, a: seq<Byte>, c2: seq<Byte>,
                        f2: seq<Byte>, a2: seq<Byte>)
    requires Fits(h) && Fits(n) && Fits(c) && Fits(f) && Fits(a) && Fits(c2) && Fits(f2) && Fits(a2)
    requires c != c2 || f != f2 || a != a2
    ensures PaeOf([h, n, c, f, a]) != PaeOf([h, n, c2, f2, a2])
  {
    var x, y := [h, n, c, f, a], [h, n, c2, f2, a2];
    assert x[2] == c && x[3] == f && x[4] == a && y[2] == c2 && y[3] == f2 && y[4] == a2;
    SmallFits(Zeros(5));
    hide PaeOf, Fits;
    assert forall i | 0 <= i < 5 :: Fits(x[i]) && Fits(y[i]);
    PaeInjective(x, y);
  }

  /** A token that was sealed under one assertion opens under another only through a collision. */
  lemma AssertionIsBound(p: Primitives, key: Bytes32, message: seq<Byte>, footer: seq<Byte>, assertion: seq<Byte>,
                         n: Bytes32, other: seq<Byte>)
    requires Fits(message) && Fits(footer) && Fits(assertion) && Fits(other) && other != assertion
    requires Opened(p, key, Sealed(p, key, message, footer, assertion, n), footer, other).Ok?
    ensures Collision(p, key, n)
  {
    hide SplitToken, TokenOf, Cipher, Tag;
    var c := Cipher(p, key, n, message);
    AcceptsCarried(Sealed(p, key, message, footer, assertion, n),
                   TokenParts(n, c, Tag(p, key, n, c, footer, assertion)), footer);
    ForgeryCollides(p, key, message, footer, assertion, n, Sealed(p, key, message, footer, assertion, n), footer,
                    other);
  }

  // ----- what a token is made of ----------------------------------------------------------

  /** The token of version 4: nonce, ciphertext and tag in this order, the ciphertext and the tag under keys that are
      digests of different inputs. */
  lemma SealedIs(p: Primitives, key: Bytes32, message: seq<Byte>, footer: seq<Byte>, assertion: seq<Byte>, n: Bytes32)
    ensures var tmp := Digest(p, Ascii("paseto-encryption-key") + n, key, 56);
            var c := Stream(p, message, tmp[32..56], tmp[..32]);
            var t := Digest(p, PaeOf([Ascii("v4.local."), n, c, footer, assertion]), MacKey(p, key, n), 32);
            Sealed(p, key, message, footer, assertion, n)
            == "v4.local." + EncodedText(n + c + t) + if footer == [] then "" else "." + EncodedText(footer)
  {
    hide Digest, Stream, PaeOf, EncodedText;
  }

  lemma KeysAreSeparated(n: Bytes32, n2: Bytes32)
    ensures Ascii("paseto-encryption-key") + n != Ascii("paseto-auth-key-for-aead") + n2
  {
    assert (Ascii("paseto-encryption-key") + n)[7] == 'e' as int;
    assert (Ascii("paseto-auth-key-for-aead") + n2)[7] == 'a' as int;
  }

  // ----- encodings ------------------------------------------------------------------------

  /** Byte `i` of a length counts multiples of 256 to the `i`. */
  lemma {:induction false} LittleEndianByte(v: nat, n: nat, i: nat)
    requires i < n
    ensures LittleEndian(v, n)[i] as int == v / Power256(i) % 256
  {
    if i > 0 {
      LittleEndianByte(v / 256, n - 1, i - 1);
      DivideTwice(v, Power256(i - 1));
    } else {
      assert Power256(0) == 1;
    }
  }

  lemma DivideTwice(v: nat, q: nat)
    requires q > 0
    ensures v / 256 / q == v / (256 * q)
  {
    var a := v / 256;
    assert v == 256 * a + v % 256;
    assert a == q * (a / q) + a % q;
    var r := 256 * (a % q) + v % 256;
    assert r <= 256 * (q - 1) + 255;
    QuotientIs(v, 256 * q, a / q, r);
  }

  lemma QuotientIs(v: nat, d: nat, k: nat, r: nat)
    requires v == d * k + r && r < d
    ensures v / d == k
  {
    var e := v / d - k;
    assert v == d * (v / d) + v % d;
    assert d * e == r - v % d;
    ProductIsFar(d, e);
  }

  lemma ProductIsFar(d: nat, e: int)
    ensures e >= 1 ==> d * e >= d
    ensures e <= -1 ==> d * e <= -(d as int)
  {
  }

  /** No piece, one empty piece, and the piece `test`. */
  lemma PaeOfFew()
    ensures PaeOf([]) == [0, 0, 0, 0, 0, 0, 0, 0]
    ensures PaeOf([[]]) == [1, 0, 0, 0, 0, 0, 0, 0] + [0, 0, 0, 0, 0, 0, 0, 0]
    ensures PaeOf([[0x74, 0x65, 0x73, 0x74]])
            == [1, 0, 0, 0, 0, 0, 0, 0] + [4, 0, 0, 0, 0, 0, 0, 0] + [0x74, 0x65, 0x73, 0x74]
  {
    SmallLengths();
    hide Le64;
    PaeOfOne([]);
    PaeOfOne([0x74, 0x65, 0x73, 0x74]);
    assert Le64(0) + [] == Le64(0);
  }

  lemma PaeOfOne(piece: seq<Byte>)
    ensures PaeOf([piece]) == Le64(1) + Le64(|piece|) + piece
  {
    assert [piece][1..] == [];
    assert PaePieces([piece]) == Le64(|piece|) + piece + [];
  }

  lemma SmallLengths()
    ensures Le64(0) == [0, 0, 0, 0, 0, 0, 0, 0] && Le64(1) == [1, 0, 0, 0, 0, 0, 0, 0]
    ensures Le64(4) == [4, 0, 0, 0, 0, 0, 0, 0]
  {
    ZeroLength(7);
    assert LittleEndian(1, 8) == [1] + LittleEndian(0, 7);
    assert LittleEndian(4, 8) == [4] + LittleEndian(0, 7);
    assert LittleEndian(0, 8) == [0] + LittleEndian(0, 7);
  }

  lemma {:induction false} ZeroLength(n: nat)
    ensures LittleEndian(0, n) == Zeros(n)
  {
    if n > 0 { ZeroLength(n - 1); }
  }

  // ----- digest and stream ----------------------------------------------------------------

  /** The digest of at most 128 bytes, without a key, takes one compression; with a key of 32 bytes, two. */
  lemma ShortDigest(p: Primitives, message: seq<Byte>, key: Bytes32)
    requires |message| <= 128
    ensures var h := p.iv[0 := XorWord(p.iv[0], 0x0101_0020)];
            Digest(p, message, [], 32)
            == WordBytes(p.compress(h, message + Zeros(128 - |message|), |message|, true))[..32]
    ensures var h := p.iv[0 := XorWord(p.iv[0], 0x0101_2020)];
            message != [] ==>
              var mid := p.compress(h, key + Zeros(96), 128, false);
              Digest(p, message, key, 32)
              == WordBytes(p.compress(mid, message + Zeros(128 - |message|), 128 + |message|, true))[..32]
  {
    hide Initial, WordBytes;
    assert Initial(p, 0, 32) == p.iv[0 := XorWord(p.iv[0], 0x0101_0020)] by { InitialIs(p, 0, 32); }
    assert Initial(p, 32, 32) == p.iv[0 := XorWord(p.iv[0], 0x0101_2020)] by { InitialIs(p, 32, 32); }
    OneBlockChain(p, Initial(p, 0, 32), message);
    if message != [] { TwoBlockChain(p, Initial(p, 32, 32), key, message); }
    hide Chained;
  }

  function XorWord(a: Word, b: Word): Word {
    SixtyFourBits();
    XorBitsBound(a, b, 64);
    XorBits(a, b, 64)
  }

  lemma InitialIs(p: Primitives, keyLength: nat, outlen: nat)
    requires keyLength <= 128 && outlen <= 64
    ensures Initial(p, keyLength, outlen) == p.iv[0 := XorWord(p.iv[0], 0x0101_0000 + 0x100 * keyLength + outlen)]
  {
    hide XorBits;
  }

  lemma OneBlockChain(p: Primitives, h: Words8, body: seq<Byte>)
    requires |body| <= 128
    ensures Chained(p, h, body, 1) == p.compress(h, body + Zeros(128 - |body|), |body|, true) && BlockCount(|body|) == 1
  {
    assert body[0..Min(128, |body|)] == body;
    assert Chained(p, h, body, 0) == h;
  }

  lemma TwoBlockChain(p: Primitives, h: Words8, key: Bytes32, message: seq<Byte>)
    requires 0 < |message| <= 128
    ensures var body := Body(message, key);
            && BlockCount(|body|) == 2
            && Chained(p, h, body, 2)
               == p.compress(p.compress(h, key + Zeros(96), 128, false), message + Zeros(128 - |message|),
                             128 + |message|, true)
  {
    var body := Body(message, key);
    assert body == (key + Zeros(96)) + message;
    assert body[0..128] == key + Zeros(96) && (key + Zeros(96)) + Zeros(0) == key + Zeros(96);
    assert body[128..|body|] == message;
    assert Chained(p, h, body, 0) == h;
    assert Chained(p, h, body, 1) == p.compress(h, key + Zeros(96), 128, false);
  }

  /** Byte `64 * b + j` of the stream is byte `j` of block `b`; the blocks count from 0, in 32 bits. */
  lemma StreamByte(p: Primitives, message: seq<Byte>, nonce: seq<Byte>, key: Bytes32, b: nat, j: nat)
    requires |nonce| == 24 && j < 64 && 64 * b + j < |message|
    ensures var block := p.chachaBlock(p.hchacha(key, nonce[..16]), b % 0x1_0000_0000, [0, 0, 0, 0] + nonce[16..]);
            Stream(p, message, nonce, key)[64 * b + j] == Xor(message[64 * b + j], block[j])
  {
    hide Xor;
    assert (64 * b + j) / 64 == b && (64 * b + j) % 64 == j;
    assert Zeros(4) == [0, 0, 0, 0];
  }
}
