/** Laws of v4.local: PAE is injective, the cipher is its own inverse, and encryption and decryption match exactly. */
module PasetoLaws {
  import opened ByteSeqs
  import opened Results
  import opened Base64Url
  import opened Paseto

  // ----- PAE ------------------------------------------------------------------------------

  /** Lengths that fit their eight bytes. */
  predicate Fits(s: seq<Byte>) { |s| < Power256(8) }

  lemma {:induction false} LittleEndianInjective(a: nat, b: nat, n: nat)
    requires a < Power256(n) && b < Power256(n) && LittleEndian(a, n) == LittleEndian(b, n)
    ensures a == b
  {
    if n > 0 {
      assert LittleEndian(a, n)[1..] == LittleEndian(b, n)[1..];
      assert LittleEndian(a, n)[0] == LittleEndian(b, n)[0];
      LittleEndianInjective(a / 256, b / 256, n - 1);
    }
  }

  /** A length in front of a piece tells where the piece ends. */
  lemma FramedInjective(a: seq<Byte>, moreA: seq<Byte>, b: seq<Byte>, moreB: seq<Byte>)
    requires Fits(a) && Fits(b) && Le64(|a|) + a + moreA == Le64(|b|) + b + moreB
    ensures a == b && moreA == moreB
  {
    hide LittleEndian;
    var s := Le64(|a|) + a + moreA;
    assert s[..8] == Le64(|a|) && s[..8] == Le64(|b|);
    LittleEndianInjective(|a|, |b|, 8);
    assert s[8..8 + |a|] == a && s[8..8 + |b|] == b;
    assert s[8 + |a|..] == moreA && s[8 + |b|..] == moreB;
  }

  lemma {:induction false} PiecesInjective(a: seq<seq<Byte>>, b: seq<seq<Byte>>)
    requires |a| == |b| && PaePieces(a) == PaePieces(b)
    requires forall i | 0 <= i < |a| :: Fits(a[i]) && Fits(b[i])
    ensures a == b
  {
    if a != [] {
      FramedInjective(a[0], PaePieces(a[1..]), b[0], PaePieces(b[1..]));
      PiecesInjective(a[1..], b[1..]);
    }
  }

  /** Different lists of pieces never have the same encoding: no byte can move from one piece to another. */
  lemma PaeInjective(a: seq<seq<Byte>>, b: seq<seq<Byte>>)
    requires |a| < Power256(8) && |b| < Power256(8)
    requires forall i | 0 <= i < |a| :: Fits(a[i])
    requires forall i | 0 <= i < |b| :: Fits(b[i])
    ensures PaeOf(a) == PaeOf(b) <==> a == b
  {
    if PaeOf(a) == PaeOf(b) {
      assert PaeOf(a)[..8] == Le64(|a|) && PaeOf(b)[..8] == Le64(|b|);
      LittleEndianInjective(|a|, |b|, 8);
      assert PaeOf(a)[8..] == PaePieces(a) && PaeOf(b)[8..] == PaePieces(b);
      PiecesInjective(a, b);
    }
  }

  // ----- cipher ---------------------------------------------------------------------------

  /** The stream cipher is its own inverse, at any length. */
  lemma StreamTwice(p: Primitives, message: seq<Byte>, nonce: seq<Byte>, key: Bytes32)
    requires |nonce| == 24
    ensures Stream(p, Stream(p, message, nonce, key), nonce, key) == message
  {
    var subkey := p.hchacha(key, nonce[..16]);
    var once := Stream(p, message, nonce, key);
    var twice := Stream(p, once, nonce, key);
    forall i | 0 <= i < |message| ensures twice[i] == message[i] {
      XorTwice(message[i], KeyStream(p, subkey, Zeros(4) + nonce[16..], i));
    }
  }

  // ----- splitting ------------------------------------------------------------------------

  /** A token carries parts and footer: as printed, or with a bare dot behind when the footer is empty. */
  predicate Carries(token: string, parts: TokenParts, footer: seq<Byte>) {
    var plain := TokenOf(parts.n, parts.c, parts.t, footer);
    token == plain || (footer == [] && token == plain + ".")
  }

  lemma FirstDot(s: string, tail: string)
    requires '.' !in s
    ensures IndexOf(".", s) == -1 && IndexOf(".", s + "." + tail) == |s|
  {
    forall i: nat ensures !Occurs(".", s, i) {
      if i < |s| { assert s[i..i + 1][0] == s[i]; }
    }
    FirstIsUnique(".", s, -1);
    var t := s + "." + tail;
    assert t[|s|..|s| + 1] == ".";
    forall i: nat | i < |s| ensures !Occurs(".", t, i) {
      assert t[i..i + 1][0] == s[i];
    }
    FirstIsUnique(".", t, |s|);
  }

  lemma PartsBack(parts: TokenParts)
    ensures PartsOf(parts.n + parts.c + parts.t) == parts
  {
    var raw := parts.n + parts.c + parts.t;
    assert raw[..32] == parts.n && raw[32..|raw| - 32] == parts.c && raw[|raw| - 32..] == parts.t;
  }

  lemma AcceptsCarried(token: string, parts: TokenParts, footer: seq<Byte>)
    requires Carries(token, parts, footer)
    ensures SplitToken(token, footer) == Ok(parts)
  {
    hide IndexOf, EncodedText, Decoded;
    var raw := parts.n + parts.c + parts.t;
    var body := EncodedText(raw);
    var rest := token[|LOCAL_HEADER|..];
    EncodedLetters(raw);
    DecodeEncode(raw);
    PartsBack(parts);
    DecodeEncode(footer);
    NoText();
    if token == TokenOf(parts.n, parts.c, parts.t, []) && footer == [] {
      assert rest == body;
      FirstDot(body, "");
    } else {
      var tail := if footer == [] then "" else EncodedText(footer);
      assert rest == body + "." + tail;
      FirstDot(body, tail);
      assert rest[|body| + 1..] == tail && rest[..|body|] == body;
    }
  }

  lemma NoText()
    ensures EncodedText([]) == "" && Decoded("") == Some([])
  {
    DecodeEncode([]);
  }

  lemma CarriesAccepted(token: string, footer: seq<Byte>)
    requires SplitToken(token, footer).Ok?
    ensures Carries(token, SplitToken(token, footer).value, footer)
  {
    hide IndexOf, EncodedText, Decoded, PartsOf, TokenOf;
    var rest := token[|LOCAL_HEADER|..];
    assert token == LOCAL_HEADER + rest;
    var dot := IndexOf(".", rest);
    var payload := if dot >= 0 then rest[..dot] else rest;
    EncodeDecode(payload);
    var raw := Decoded(payload).value;
    var parts := PartsOf(raw);
    Printed(raw, footer);
    if dot < 0 {
      assert LOCAL_HEADER + payload + "" == LOCAL_HEADER + payload;
    } else {
      var tail := rest[dot + 1..];
      IndexOfIsFirst(".", rest);
      assert rest[dot..dot + 1] == ".";
      assert rest == payload + "." + tail;
      EncodeDecode(tail);
      NoText();
      assert token == (LOCAL_HEADER + payload) + ("." + tail);
      assert LOCAL_HEADER + payload + "" == LOCAL_HEADER + payload;
    }
  }

  /** The token printed for the parts of `raw`. */
  lemma Printed(raw: seq<Byte>, footer: seq<Byte>)
    requires |raw| >= 64
    ensures var parts := PartsOf(raw);
            TokenOf(parts.n, parts.c, parts.t, footer)
            == LOCAL_HEADER + EncodedText(raw) + (if footer == [] then "" else "." + EncodedText(footer))
  {
    hide EncodedText;
    assert raw == raw[..32] + raw[32..|raw| - 32] + raw[|raw| - 32..];
  }

  /** A token is accepted with some parts exactly when it carries them; in particular the parts are unique. */
  lemma SplitExactly(token: string, parts: TokenParts, footer: seq<Byte>)
    ensures SplitToken(token, footer) == Ok(parts) <==> Carries(token, parts, footer)
  {
    if SplitToken(token, footer) == Ok(parts) { CarriesAccepted(token, footer); }
    if Carries(token, parts, footer) { AcceptsCarried(token, parts, footer); }
  }

  // ----- tokens ---------------------------------------------------------------------------

  lemma CipherTwice(p: Primitives, key: Bytes32, n: Bytes32, data: seq<Byte>)
    ensures Cipher(p, key, n, Cipher(p, key, n, data)) == data
  {
    hide CipherKey, CipherNonce;
    StreamTwice(p, data, CipherNonce(p, key, n), CipherKey(p, key, n));
  }

  /** Decrypting an encryption gives the message back. */
  lemma DecryptEncrypt(p: Primitives, key: Bytes32, message: seq<Byte>, footer: seq<Byte>, assertion: seq<Byte>,
                       n: Bytes32)
    ensures Opened(p, key, Sealed(p, key, message, footer, assertion, n), footer, assertion) == Ok(message)
  {
    hide SplitToken, TokenOf, Cipher, Tag;
    CipherTwice(p, key, n, message);
    var c := Cipher(p, key, n, message);
    var t := Tag(p, key, n, c, footer, assertion);
    AcceptsCarried(TokenOf(n, c, t, footer), TokenParts(n, c, t), footer);
  }

  /** The token is what encryption prints for the message under nonce `n`, up to one bare dot behind it when the
      footer is empty. */
  ghost predicate Prints(p: Primitives, key: Bytes32, message: seq<Byte>, footer: seq<Byte>, assertion: seq<Byte>,
                         n: Bytes32, token: string)
  {
    var plain := Sealed(p, key, message, footer, assertion, n);
    token == plain || (footer == [] && token == plain + ".")
  }

  /** Decryption accepts exactly the tokens that encryption prints, up to that dot. */
  lemma DecryptExactly(p: Primitives, key: Bytes32, message: seq<Byte>, footer: seq<Byte>, assertion: seq<Byte>,
                       token: string)
    ensures Opened(p, key, token, footer, assertion) == Ok(message)
            <==> exists n: Bytes32 :: Prints(p, key, message, footer, assertion, n, token)
  {
    hide SplitToken, TokenOf, Cipher, Tag;
    if Opened(p, key, token, footer, assertion) == Ok(message) {
      CarriesAccepted(token, footer);
      var parts := SplitToken(token, footer).value;
      CipherTwice(p, key, parts.n, parts.c);
      assert Prints(p, key, message, footer, assertion, parts.n, token);
    }
    if exists n: Bytes32 :: Prints(p, key, message, footer, assertion, n, token) {
      var n: Bytes32 :| Prints(p, key, message, footer, assertion, n, token);
      CipherTwice(p, key, n, message);
      var c := Cipher(p, key, n, message);
      var t := Tag(p, key, n, c, footer, assertion);
      AcceptsCarried(token, TokenParts(n, c, t), footer);
    }
  }
}
