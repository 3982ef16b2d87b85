/** PASETO v4.local tokens around abstract block functions: PAE, BLAKE2b, XChaCha20, encryption and decryption. */
module Paseto {
  import opened ByteSeqs
  import opened Results
  import opened Base64Url

  const LOCAL_HEADER: string := "v4.local."

  type Word = x: int | 0 <= x < 0x1_0000_0000_0000_0000
  type Words8 = s: seq<Word> | |s| == 8 witness [0, 0, 0, 0, 0, 0, 0, 0]
  type Bytes12 = s: seq<Byte> | |s| == 12 witness Zeros(12)
  type Bytes16 = s: seq<Byte> | |s| == 16 witness Zeros(16)
  type Bytes32 = s: seq<Byte> | |s| == 32 witness Zeros(32)
  type Bytes64 = s: seq<Byte> | |s| == 64 witness Zeros(64)
  type Bytes128 = s: seq<Byte> | |s| == 128 witness Zeros(128)

  /** The block functions, of known input and output lengths, and the initial words of BLAKE2b. */
  datatype Primitives = Primitives(
    compress: (Words8, Bytes128, nat, bool) -> Words8,
    chachaBlock: (Bytes32, nat, Bytes12) -> Bytes64,
    hchacha: (Bytes32, Bytes16) -> Bytes32,
    iv: Words8)

  /** What is thrown: an authorization error, or a plain error for a bad argument. */
  datatype Failure = InvalidKey | InvalidToken | BadArgument

  function Zeros(n: nat): (s: seq<Byte>)
    ensures |s| == n
  {
    seq(n, _ => 0)
  }

  // ----- pre-authentication encoding ------------------------------------------------------

  function LittleEndian(v: nat, n: nat): (s: seq<Byte>)
    ensures |s| == n
  {
    if n == 0 then [] else [v % 256] + LittleEndian(v / 256, n - 1)
  }

  function Le64(v: nat): (s: seq<Byte>)
    ensures |s| == 8
  {
    LittleEndian(v, 8)
  }

  function PaePieces(pieces: seq<seq<Byte>>): seq<Byte> {
    if pieces == [] then [] else Le64(|pieces[0]|) + pieces[0] + PaePieces(pieces[1..])
  }

  function PaeOf(pieces: seq<seq<Byte>>): seq<Byte> { Le64(|pieces|) + PaePieces(pieces) }

  method Pae(pieces: seq<seq<Byte>>) returns (encoded: array<Byte>)
    ensures fresh(encoded) && encoded[..] == PaeOf(pieces)
  {
    hide Le64, Concat;
    var parts: seq<seq<Byte>> := [Le64(|pieces|)];
    OnePart(Le64(|pieces|));
    assert pieces[0..] == pieces;
    var i := 0;
    while i < |pieces|
      invariant 0 <= i <= |pieces|
      invariant Concat(parts) + PaePieces(pieces[i..]) == PaeOf(pieces)
    {
      var p := pieces[i];
      assert pieces[i..][1..] == pieces[i + 1..];
      ConcatSnoc(parts, Le64(|p|));
      ConcatSnoc(parts + [Le64(|p|)], p);
      assert parts + [Le64(|p|), p] == parts + [Le64(|p|)] + [p];
      parts := parts + [Le64(|p|), p];
      i := i + 1;
    }
    assert Concat(parts) + [] == Concat(parts);
    encoded := Flatten(parts, |Concat(parts)|);
  }

  lemma OnePart(s: seq<Byte>)
    ensures Concat([s]) == s
  {
    assert s + Concat<Byte>([]) == s;
  }

  // ----- comparison -----------------------------------------------------------------------

  /** Equality without an early exit: the differences are collected bit by bit. */
  method ConstEq(a: seq<Byte>, b: seq<Byte>) returns (same: bool)
    ensures same <==> a == b
  {
    if |a| != |b| { return false; }
    var d := 0;
    var i := 0;
    while i < |a|
      invariant 0 <= i <= |a| && 0 <= d < 256
      invariant d == 0 <==> a[..i] == b[..i]
    {
      XorZero(a[i], b[i]);
      OrZero(d, Xor(a[i], b[i]));
      assert a[..i + 1] == a[..i] + [a[i]] && b[..i + 1] == b[..i] + [b[i]];
      d := Or(d, Xor(a[i], b[i]));
      i := i + 1;
    }
    assert a[..i] == a && b[..i] == b;
    return d == 0;
  }

  // ----- BLAKE2b --------------------------------------------------------------------------

  /** `s` filled up with zeros. */
  function Padded(s: seq<Byte>): Bytes128
    requires |s| <= 128
  {
    s + Zeros(128 - |s|)
  }

  /** A chunk as a block: filled up when it is short. */
  function Filled(chunk: seq<Byte>): Bytes128
    requires |chunk| <= 128
  {
    if |chunk| < 128 then chunk + Zeros(128 - |chunk|) else chunk
  }

  /** Blocks of a body; the empty body has one block. */
  function BlockCount(len: nat): nat { if len == 0 then 1 else (len + 127) / 128 }

  function Min(a: nat, b: nat): nat { if a < b then a else b }

  /** Block `i` of the body, the last one padded with zeros. */
  function BlockOf(body: seq<Byte>, i: nat): Bytes128
    requires i < BlockCount(|body|)
  {
    Padded(body[128 * i..Min(128 * (i + 1), |body|)])
  }

  /** The chaining value after `i` blocks (section 3.3 of RFC 7693): each block is compressed with the number of
      bytes up to its end, and the last one with the final flag. */
  function Chained(p: Primitives, h: Words8, body: seq<Byte>, i: nat): Words8
    requires i <= BlockCount(|body|)
  {
    if i == 0 then h
    else p.compress(Chained(p, h, body, i - 1), BlockOf(body, i - 1), Min(128 * i, |body|), i == BlockCount(|body|))
  }

  /** The initial chaining value: the parameter block of digest and key length over the initial words. */
  function Initial(p: Primitives, keyLength: nat, outlen: nat): Words8
    requires keyLength <= 128 && outlen <= 64
  {
    SixtyFourBits();
    XorBitsBound(p.iv[0], outlen + 256 * keyLength + 65536 + 16777216, 64);
    p.iv[0 := XorBits(p.iv[0], outlen + 256 * keyLength + 65536 + 16777216, 64)]
  }

  lemma SixtyFourBits()
    ensures PowerOfTwo(64) == 0x1_0000_0000_0000_0000
  {
    EightBits();
    PowerOfTwoSum(8, 8);
    assert PowerOfTwo(16) == 65536;
    PowerOfTwoSum(16, 16);
    assert PowerOfTwo(32) == 0x1_0000_0000;
    PowerOfTwoSum(32, 32);
    hide PowerOfTwo;
  }

  function WordBytes(h: seq<Word>): (s: seq<Byte>)
    ensures |s| == 8 * |h|
  {
    if h == [] then [] else Le64(h[0]) + WordBytes(h[1..])
  }

  /** What is hashed: a key takes a block of its own in front. */
  function Body(message: seq<Byte>, key: seq<Byte>): seq<Byte>
    requires |key| <= 128
  {
    if key == [] then message else Padded(key) + message
  }

  function Digest(p: Primitives, message: seq<Byte>, key: seq<Byte>, outlen: nat): (d: seq<Byte>)
    requires |key| <= 128 && 1 <= outlen <= 64
    ensures |d| == outlen
  {
    var body := Body(message, key);
    WordBytes(Chained(p, Initial(p, |key|, outlen), body, BlockCount(|body|)))[..outlen]
  }

  method Blake2b(p: Primitives, message: seq<Byte>, key: seq<Byte>, outlen: int)
    returns (r: Result<seq<Byte>, Failure>)
    ensures r == if 1 <= outlen <= 64 && |key| <= 128 then Ok(Digest(p, message, key, outlen)) else Err(BadArgument)
  {
    if outlen < 1 || outlen > 64 { return Err(BadArgument); }
    if |key| > 128 { return Err(BadArgument); }
    hide Chained, Initial, Padded, Filled, BlockCount, WordBytes, Min;
    var h := Initial(p, |key|, outlen);
    ghost var h0 := h;
    var body := if |key| > 0 then key + Zeros(128 - |key|) + message else message;
    BodyIs(message, key);
    if |body| == 0 {
      EmptyBody(p, h0, body);
      h := p.compress(h, Zeros(128), 0, true);
    } else {
      var t, off := 0, 0;
      ghost var i := 0;
      NoBlock(p, h0, body);
      while off < |body|
        invariant t == off == Min(128 * i, |body|) && off <= |body|
        invariant i <= BlockCount(|body|) && h == Chained(p, h0, body, i)
      {
        OneBlock(p, h0, body, i, off);
        var chunk := body[off..Min(off + 128, |body|)];
        off := off + |chunk|;
        t := t + |chunk|;
        h := p.compress(h, Filled(chunk), t, off >= |body|);
        i := i + 1;
      }
      AllBlocks(|body|, i);
    }
    return Ok(WordBytes(h)[..outlen]);
  }

  lemma BodyIs(message: seq<Byte>, key: seq<Byte>)
    requires |key| <= 128
    ensures Body(message, key) == if |key| > 0 then key + Zeros(128 - |key|) + message else message
    ensures Body(message, key) == [] ==> BlockCount(|Body(message, key)|) == 1
  {
  }

  lemma AllBlocks(len: nat, i: nat)
    requires len > 0 && i <= BlockCount(len) && Min(128 * i, len) == len
    ensures i == BlockCount(len)
  {
  }

  lemma NoBlock(p: Primitives, h: Words8, body: seq<Byte>)
    ensures Chained(p, h, body, 0) == h && Min(0, |body|) == 0
  {
  }

  lemma EmptyBody(p: Primitives, h: Words8, body: seq<Byte>)
    requires body == []
    ensures Chained(p, h, body, 1) == p.compress(h, Zeros(128), 0, true)
  {
    assert BlockOf(body, 0) == Zeros(128);
  }

  lemma OneBlock(p: Primitives, h: Words8, body: seq<Byte>, i: nat, off: nat)
    requires off == Min(128 * i, |body|) < |body|
    ensures i < BlockCount(|body|) && Min(off + 128, |body|) == Min(128 * (i + 1), |body|)
    ensures off < Min(off + 128, |body|) <= |body| && Min(off + 128, |body|) - off <= 128
    ensures var to := Min(off + 128, |body|);
            var chunk := body[off..to];
            Chained(p, h, body, i + 1)
            == p.compress(Chained(p, h, body, i), Filled(chunk), to, to >= |body|)
  {
    var chunk := body[128 * i..Min(128 * (i + 1), |body|)];
    assert |chunk| == 128 ==> chunk + Zeros(0) == chunk;
  }

  // ----- XChaCha20 ------------------------------------------------------------------------

  /** Byte `i` of the key stream; the block counter has 32 bits. */
  function KeyStream(p: Primitives, subkey: Bytes32, nonce: Bytes12, i: nat): Byte {
    p.chachaBlock(subkey, i / 64 % 0x1_0000_0000, nonce)[i % 64]
  }

  function Stream(p: Primitives, message: seq<Byte>, nonce: seq<Byte>, key: Bytes32): (s: seq<Byte>)
    requires |nonce| == 24
    ensures |s| == |message|
  {
    var subkey := p.hchacha(key, nonce[..16]);
    seq(|message|, i requires 0 <= i < |message| => Xor(message[i], KeyStream(p, subkey, Zeros(4) + nonce[16..], i)))
  }

  method XChaCha20(p: Primitives, message: seq<Byte>, nonce: seq<Byte>, key: seq<Byte>)
    returns (r: Result<seq<Byte>, Failure>)
    ensures r == if |nonce| == 24 && |key| == 32 then Ok(Stream(p, message, nonce, key)) else Err(BadArgument)
  {
    if |nonce| != 24 { return Err(BadArgument); }
    if |key| != 32 { return Err(BadArgument); }
    hide Xor, KeyStream, Stream;
    var subkey := p.hchacha(key, nonce[..16]);
    var nonce12 := Zeros(4) + nonce[16..24];
    var out := new Byte[|message|];
    var counter := 0;
    var off := 0;
    while off < |message|
      invariant off % 64 == 0 && counter == off / 64 % 0x1_0000_0000
      invariant forall k | 0 <= k < off && k < |message| :: out[k] == Xor(message[k], KeyStream(p, subkey, nonce12, k))
    {
      var ks := p.chachaBlock(subkey, counter, nonce12);
      NextBlock(p, subkey, nonce12, off, counter);
      counter := (counter + 1) % 0x1_0000_0000;
      var chunk := message[off..Min(off + 64, |message|)];
      var i := 0;
      while i < |chunk|
        invariant 0 <= i <= |chunk|
        invariant forall k | 0 <= k < off + i :: out[k] == Xor(message[k], KeyStream(p, subkey, nonce12, k))
      {
        out[off + i] := Xor(chunk[i], ks[i]);
        i := i + 1;
      }
      off := off + 64;
    }
    StreamBytes(p, message, nonce, key, out[..]);
    return Ok(out[..]);
  }

  lemma NextBlock(p: Primitives, subkey: Bytes32, nonce: Bytes12, off: nat, counter: nat)
    requires off % 64 == 0 && counter == off / 64 % 0x1_0000_0000
    ensures forall i | 0 <= i < 64 :: KeyStream(p, subkey, nonce, off + i) == p.chachaBlock(subkey, counter, nonce)[i]
    ensures (off + 64) % 64 == 0 && (counter + 1) % 0x1_0000_0000 == (off + 64) / 64 % 0x1_0000_0000
  {
    var q := off / 64;
    assert off == 64 * q;
    forall i | 0 <= i < 64
      ensures KeyStream(p, subkey, nonce, off + i) == p.chachaBlock(subkey, counter, nonce)[i]
    {
      assert (64 * q + i) / 64 == q && (64 * q + i) % 64 == i;
    }
  }

  lemma StreamBytes(p: Primitives, message: seq<Byte>, nonce: seq<Byte>, key: Bytes32, out: seq<Byte>)
    requires |nonce| == 24 && |out| == |message|
    requires forall k | 0 <= k < |message| ::
               out[k] == Xor(message[k], KeyStream(p, p.hchacha(key, nonce[..16]), Zeros(4) + nonce[16..24], k))
    ensures out == Stream(p, message, nonce, key)
  {
    hide Xor, KeyStream;
    assert nonce[16..24] == nonce[16..];
  }

  // ----- tokens ---------------------------------------------------------------------------

  /** The encryption key, the cipher nonce and the authentication key that a key and a token nonce give. */
  function CipherKey(p: Primitives, key: Bytes32, n: Bytes32): Bytes32 {
    Digest(p, Ascii("paseto-encryption-key") + n, key, 56)[..32]
  }
  function CipherNonce(p: Primitives, key: Bytes32, n: Bytes32): (r: seq<Byte>)
    ensures |r| == 24
  {
    Digest(p, Ascii("paseto-encryption-key") + n, key, 56)[32..56]
  }
  function AuthKey(p: Primitives, key: Bytes32, n: Bytes32): Bytes32 {
    Digest(p, Ascii("paseto-auth-key-for-aead") + n, key, 32)
  }

  function Cipher(p: Primitives, key: Bytes32, n: Bytes32, data: seq<Byte>): (c: seq<Byte>)
    ensures |c| == |data|
  {
    Stream(p, data, CipherNonce(p, key, n), CipherKey(p, key, n))
  }

  function Tag(p: Primitives, key: Bytes32, n: Bytes32, c: seq<Byte>, footer: seq<Byte>,
               assertion: seq<Byte>): Bytes32 {
    Digest(p, PaeOf([Ascii(LOCAL_HEADER), n, c, footer, assertion]), AuthKey(p, key, n), 32)
  }

  /** The token that carries ciphertext `c`. */
  function TokenOf(n: Bytes32, c: seq<Byte>, t: Bytes32, footer: seq<Byte>): string {
    LOCAL_HEADER + EncodedText(n + c + t) + (if footer == [] then "" else "." + EncodedText(footer))
  }

  function Sealed(p: Primitives, key: Bytes32, message: seq<Byte>, footer: seq<Byte>, assertion: seq<Byte>, n: Bytes32)
    : string
  {
    var c := Cipher(p, key, n, message);
    TokenOf(n, c, Tag(p, key, n, c, footer, assertion), footer)
  }

  method Encrypt(p: Primitives, key: seq<Byte>, message: seq<Byte>, footer: seq<Byte>, assertion: seq<Byte>,
                 nonce: seq<Byte>)
    returns (r: Result<string, Failure>)
    ensures r == if |key| != 32 then Err(InvalidKey)
                 else if |nonce| != 32 then Err(BadArgument)
                 else Ok(Sealed(p, key, message, footer, assertion, nonce))
  {
    hide Digest, Stream, EncodedText, PaeOf;
    if |key| != 32 { return Err(InvalidKey); }
    if |nonce| != 32 { return Err(BadArgument); }
    var h := Ascii(LOCAL_HEADER);
    var tmp := Blake2b(p, Ascii("paseto-encryption-key") + nonce, key, 56);
    var ek, n2 := tmp.value[..32], tmp.value[32..56];
    var ak := Blake2b(p, Ascii("paseto-auth-key-for-aead") + nonce, key, 32);
    var c := XChaCha20(p, message, n2, ek);
    var preAuth := Pae([h, nonce, c.value, footer, assertion]);
    var t := Blake2b(p, preAuth[..], ak.value, 32);
    var body := BytesToBase64Url(nonce + c.value + t.value);
    if |footer| == 0 {
      assert (LOCAL_HEADER + body) + "" == LOCAL_HEADER + body;
      return Ok(LOCAL_HEADER + body);
    }
    var tail := BytesToBase64Url(footer);
    assert (LOCAL_HEADER + body) + ("." + tail) == LOCAL_HEADER + body + "." + tail;
    return Ok(LOCAL_HEADER + body + "." + tail);
  }

  /** Nonce, ciphertext and tag of a token. */
  datatype TokenParts = TokenParts(n: Bytes32, c: seq<Byte>, t: Bytes32)

  function PartsOf(raw: seq<Byte>): TokenParts
    requires |raw| >= 64
  {
    TokenParts(raw[..32], raw[32..|raw| - 32], raw[|raw| - 32..])
  }

  /** The nonce, ciphertext and tag of a token with the expected footer, or a refusal. */
  function SplitToken(token: string, footer: seq<Byte>): Result<TokenParts, Failure> {
    if !(LOCAL_HEADER <= token) then Err(InvalidToken)
    else
      var rest := token[|LOCAL_HEADER|..];
      var dot := IndexOf(".", rest);
      if dot >= 0 && Decoded(rest[dot + 1..]) != Some(footer) then Err(InvalidToken)
      else if dot < 0 && footer != [] then Err(InvalidToken)
      else
        var raw := Decoded(if dot >= 0 then rest[..dot] else rest);
        if raw == None || |raw.value| < 64 then Err(InvalidToken) else Ok(PartsOf(raw.value))
  }

  method SplitLocalToken(token: string, expectedFooter: seq<Byte>) returns (r: Result<TokenParts, Failure>)
    ensures r == SplitToken(token, expectedFooter)
  {
    hide Decoded, IndexOf;
    if !(LOCAL_HEADER <= token) { return Err(InvalidToken); }
    var rest := token[|LOCAL_HEADER|..];
    var dot := IndexOf(".", rest);
    var payloadB64 := rest;
    if dot != -1 {
      var footer := Base64UrlToBytes(rest[dot + 1..]);
      if footer == None { return Err(InvalidToken); }
      var same := ConstEq(footer.value, expectedFooter);
      if !same { return Err(InvalidToken); }
      payloadB64 := rest[..dot];
    } else if |expectedFooter| > 0 {
      return Err(InvalidToken);
    }
    var raw := Base64UrlToBytes(payloadB64);
    if raw == None { return Err(InvalidToken); }
    if |raw.value| < 64 { return Err(InvalidToken); }
    return Ok(PartsOf(raw.value));
  }

  /** What a token decrypts to. */
  function Opened(p: Primitives, key: Bytes32, token: string, footer: seq<Byte>, assertion: seq<Byte>)
    : Result<seq<Byte>, Failure>
  {
    match SplitToken(token, footer)
    case Err(e) => Err(e)
    case Ok(parts) =>
      if parts.t != Tag(p, key, parts.n, parts.c, footer, assertion) then Err(InvalidToken)
      else Ok(Cipher(p, key, parts.n, parts.c))
  }

  method Decrypt(p: Primitives, key: seq<Byte>, token: string, footer: seq<Byte>, assertion: seq<Byte>)
    returns (r: Result<seq<Byte>, Failure>)
    ensures r == if |key| != 32 then Err(InvalidKey) else Opened(p, key, token, footer, assertion)
  {
    hide Digest, Stream, SplitToken, PaeOf;
    if |key| != 32 { return Err(InvalidKey); }
    var split := SplitLocalToken(token, footer);
    if split.Err? { return Err(split.error); }
    var TokenParts(n, c, t) := split.value;
    var h := Ascii(LOCAL_HEADER);
    var tmp := Blake2b(p, Ascii("paseto-encryption-key") + n, key, 56);
    var ek, n2 := tmp.value[..32], tmp.value[32..56];
    var ak := Blake2b(p, Ascii("paseto-auth-key-for-aead") + n, key, 32);
    var preAuth := Pae([h, n, c, footer, assertion]);
    var t2 := Blake2b(p, preAuth[..], ak.value, 32);
    var same := ConstEq(t, t2.value);
    if !same { return Err(InvalidToken); }
    r := XChaCha20(p, c, n2, ek);
  }
}
