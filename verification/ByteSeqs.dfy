/** Bytes, byte sequences and the searches over them that several components share. */
module ByteSeqs {

  type Byte = x: int | 0 <= x < 256

  /** The bytes of a list of chunks, in order. */
  function Concat<T>(parts: seq<seq<T>>): seq<T> {
    if parts == [] then [] else parts[0] + Concat(parts[1..])
  }

  lemma {:induction false} ConcatSnoc<T>(parts: seq<seq<T>>, last: seq<T>)
    ensures Concat(parts + [last]) == Concat(parts) + last
  {
    if parts == [] {
      assert parts + [last] == [last];
      assert Concat([last]) == last + Concat<T>([]);
    } else {
      assert (parts + [last])[1..] == parts[1..] + [last];
      ConcatSnoc(parts[1..], last);
    }
  }

  lemma {:induction false} ConcatAppend<T>(a: seq<seq<T>>, b: seq<seq<T>>)
    ensures Concat(a + b) == Concat(a) + Concat(b)
  {
    if a == [] {
      assert a + b == b;
    } else {
      assert (a + b)[1..] == a[1..] + b;
      ConcatAppend(a[1..], b);
    }
  }

  /** `needle` stands in `hay` at index `i`. */
  predicate Occurs<T(==)>(needle: seq<T>, hay: seq<T>, i: nat) {
    i + |needle| <= |hay| && hay[i..i + |needle|] == needle
  }

  /** `r` is the first index at which `needle` stands in `hay`, or -1. */
  ghost predicate IsFirst<T>(needle: seq<T>, hay: seq<T>, r: int) {
    if r < 0 then r == -1 && forall i: nat :: !Occurs(needle, hay, i)
    else Occurs(needle, hay, r) && forall i: nat | i < r :: !Occurs(needle, hay, i)
  }

  /** First index of `needle` in `hay`, or -1. */
  function IndexOf<T(==)>(needle: seq<T>, hay: seq<T>): (r: int)
    ensures -1 <= r && (r >= 0 ==> r + |needle| <= |hay|)
  {
    IndexFrom(needle, hay, 0)
  }

  function IndexFrom<T(==)>(needle: seq<T>, hay: seq<T>, from: nat): (r: int)
    ensures -1 <= r && (r >= 0 ==> r + |needle| <= |hay|)
    decreases |hay| - from
  {
    if from + |needle| > |hay| then -1
    else if Occurs(needle, hay, from) then from
    else IndexFrom(needle, hay, from + 1)
  }

  lemma IndexOfIsFirst<T>(needle: seq<T>, hay: seq<T>)
    ensures IsFirst(needle, hay, IndexOf(needle, hay))
  {
    IndexFromIsFirst(needle, hay, 0);
  }

  lemma {:induction false} IndexFromIsFirst<T>(needle: seq<T>, hay: seq<T>, from: nat)
    requires forall i: nat | i < from :: !Occurs(needle, hay, i)
    ensures IsFirst(needle, hay, IndexFrom(needle, hay, from))
    decreases |hay| - from
  {
    if from + |needle| > |hay| || Occurs(needle, hay, from) {
    } else {
      IndexFromIsFirst(needle, hay, from + 1);
    }
  }

  lemma FirstIsUnique<T>(needle: seq<T>, hay: seq<T>, r: int)
    requires IsFirst(needle, hay, r)
    ensures r == IndexOf(needle, hay)
  {
    IndexOfIsFirst(needle, hay);
    var q := IndexOf(needle, hay);
    if q >= 0 { assert Occurs(needle, hay, q); }
    if r >= 0 { assert Occurs(needle, hay, r); }
  }

  /** What occurs in a prefix occurs in the whole, and early occurrences in the whole lie in the prefix. */
  lemma OccursInPrefix<T>(needle: seq<T>, pre: seq<T>, more: seq<T>, i: nat)
    requires i + |needle| <= |pre|
    ensures Occurs(needle, pre, i) <==> Occurs(needle, pre + more, i)
  {
    assert (pre + more)[i..i + |needle|] == pre[i..i + |needle|];
  }

  /** The first occurrence in a prefix is the first occurrence in the whole. */
  lemma FirstInPrefix<T>(needle: seq<T>, pre: seq<T>, more: seq<T>)
    requires IndexOf(needle, pre) >= 0
    ensures IndexOf(needle, pre + more) == IndexOf(needle, pre)
  {
    IndexOfIsFirst(needle, pre);
    var r := IndexOf(needle, pre);
    forall i: nat | i <= r ensures Occurs(needle, pre + more, i) <==> Occurs(needle, pre, i) {
      OccursInPrefix(needle, pre, more, i);
    }
    FirstIsUnique(needle, pre + more, r);
  }

  /** With no occurrence in a prefix, every occurrence in the whole reaches past the prefix. */
  lemma NoneInPrefix<T>(needle: seq<T>, pre: seq<T>, more: seq<T>, i: nat)
    requires IndexOf(needle, pre) == -1
    requires i + |needle| <= |pre|
    ensures !Occurs(needle, pre + more, i)
  {
    IndexOfIsFirst(needle, pre);
    OccursInPrefix(needle, pre, more, i);
  }

  lemma OccursShift<T>(needle: seq<T>, s: seq<T>, d: nat, i: nat)
    requires d <= |s|
    ensures Occurs(needle, s[d..], i) <==> Occurs(needle, s, d + i)
  {
    if i + |needle| <= |s| - d {
      assert s[d..][i..i + |needle|] == s[d + i..d + i + |needle|];
    }
  }

  /** Dropping bytes at which nothing starts moves the first occurrence by as much. */
  lemma FirstAfterDrop<T>(needle: seq<T>, s: seq<T>, d: nat)
    requires d <= |s|
    requires forall i: nat | i < d :: !Occurs(needle, s, i)
    ensures var r := IndexOf(needle, s);
            IndexOf(needle, s[d..]) == if r < 0 then -1 else r - d
  {
    IndexOfIsFirst(needle, s);
    var r := IndexOf(needle, s);
    forall i: nat ensures Occurs(needle, s[d..], i) <==> Occurs(needle, s, d + i) {
      OccursShift(needle, s, d, i);
    }
    if r < 0 {
      FirstIsUnique(needle, s[d..], -1);
    } else {
      assert Occurs(needle, s, d + (r - d));
      FirstIsUnique(needle, s[d..], r - d);
    }
  }

  /** `FirstAfterDrop` for a drop known to end before the first occurrence. */
  lemma FirstAfterShortDrop<T>(needle: seq<T>, s: seq<T>, d: nat)
    requires d <= |s|
    requires IndexOf(needle, s) < 0 || d <= IndexOf(needle, s)
    ensures var r := IndexOf(needle, s);
            IndexOf(needle, s[d..]) == if r < 0 then -1 else r - d
  {
    IndexOfIsFirst(needle, s);
    FirstAfterDrop(needle, s, d);
  }

  lemma DropInPrefix<T>(pre: seq<T>, more: seq<T>, n: nat)
    requires n <= |pre|
    ensures (pre + more)[n..] == pre[n..] + more
  {
  }

  lemma DropDrop<T>(s: seq<T>, n: nat, m: nat)
    requires n <= m <= |s|
    ensures s[n..][m - n..] == s[m..]
  {
  }

  /** Copy `chunks` one after the other into a buffer. */
  method Flatten(chunks: seq<seq<Byte>>, total: nat) returns (flat: array<Byte>)
    requires total == |Concat(chunks)|
    ensures fresh(flat) && flat[..] == Concat(chunks)
  {
    flat := new Byte[total];
    var off := 0;
    var i := 0;
    while i < |chunks|
      invariant 0 <= i <= |chunks| && 0 <= off <= total
      invariant off + |Concat(chunks[i..])| == total
      invariant flat[..off] + Concat(chunks[i..]) == Concat(chunks)
    {
      var ch := chunks[i];
      assert chunks[i..][1..] == chunks[i + 1..];
      CopyInto(flat, off, ch);
      off := off + |ch|;
      i := i + 1;
    }
    assert flat[..off] == flat[..];
  }

  method CopyInto(flat: array<Byte>, off: nat, ch: seq<Byte>)
    requires off + |ch| <= flat.Length
    modifies flat
    ensures flat[..off + |ch|] == old(flat[..off]) + ch
  {
    forall k | 0 <= k < |ch| { flat[off + k] := ch[k]; }
  }

  // ----- text ----------------------------------------------------------------------------

  predicate IsAscii(s: string) { forall i | 0 <= i < |s| :: s[i] as int < 128 }

  /** The bytes of an ASCII text. */
  function Ascii(s: string): (b: seq<Byte>)
    requires IsAscii(s)
    ensures |b| == |s|
  {
    seq(|s|, i requires 0 <= i < |s| => s[i] as int)
  }

  // ----- bits -----------------------------------------------------------------------------

  /** Bitwise exclusive or of the lowest `bits` bits. */
  function XorBits(a: nat, b: nat, bits: nat): nat {
    if bits == 0 then 0 else (a % 2 + b % 2) % 2 + 2 * XorBits(a / 2, b / 2, bits - 1)
  }

  function PowerOfTwo(bits: nat): (p: nat)
    ensures p > 0
  {
    if bits == 0 then 1 else 2 * PowerOfTwo(bits - 1)
  }

  lemma {:induction false} XorBitsBound(a: nat, b: nat, bits: nat)
    ensures XorBits(a, b, bits) < PowerOfTwo(bits)
  {
    if bits > 0 { XorBitsBound(a / 2, b / 2, bits - 1); }
  }

  /** Exclusive or with the same number twice gives the number back. */
  lemma {:induction false} XorBitsTwice(a: nat, b: nat, bits: nat)
    requires a < PowerOfTwo(bits)
    ensures XorBits(XorBits(a, b, bits), b, bits) == a
  {
    if bits > 0 {
      HalfBound(a, bits);
      hide *;
      var rest := XorBits(a / 2, b / 2, bits - 1);
      var x := XorBits(a, b, bits);
      XorBitsTwice(a / 2, b / 2, bits - 1);
      XorBitsStep(a, b, bits);
      XorBitsStep(x, b, bits);
      BitTwice(a, b, rest);
    }
  }

  lemma HalfBound(a: nat, bits: nat)
    requires a < PowerOfTwo(bits) && bits > 0
    ensures a / 2 < PowerOfTwo(bits - 1)
  {
  }

  lemma BitTwice(a: nat, b: nat, rest: nat)
    ensures var x := BitXor(a, b) + 2 * rest;
            BitXor(x, b) == a % 2 && x / 2 == rest && a == a % 2 + 2 * (a / 2)
  {
  }

  /** Exclusive or of the lowest bits. */
  function BitXor(a: nat, b: nat): nat { (a % 2 + b % 2) % 2 }

  lemma XorBitsStep(a: nat, b: nat, bits: nat)
    requires bits > 0
    ensures XorBits(a, b, bits) == BitXor(a, b) + 2 * XorBits(a / 2, b / 2, bits - 1)
  {
  }

  lemma {:induction false} XorBitsZero(a: nat, b: nat, bits: nat)
    requires a < PowerOfTwo(bits) && b < PowerOfTwo(bits)
    ensures XorBits(a, b, bits) == 0 <==> a == b
  {
    if bits > 0 { XorBitsZero(a / 2, b / 2, bits - 1); }
  }

  function Xor(a: Byte, b: Byte): Byte {
    XorBitsBound(a, b, 8);
    EightBits();
    XorBits(a, b, 8)
  }

  /** Every bit of the exclusive or is set exactly when it is set in one of the two. */
  lemma XorBitwise(a: Byte, b: Byte)
    ensures Xor(a, b) as int
            == BitXor(a, b) + 2 * BitXor(a / 2, b / 2) + 4 * BitXor(a / 4, b / 4) + 8 * BitXor(a / 8, b / 8)
               + 16 * BitXor(a / 16, b / 16) + 32 * BitXor(a / 32, b / 32) + 64 * BitXor(a / 64, b / 64)
               + 128 * BitXor(a / 128, b / 128)
  {
    XorBitsFour(a, b, 4);
    XorBitsFour(a / 16, b / 16, 0);
    QuarterTwice(a);
    QuarterTwice(b);
    hide XorBits, BitXor;
    assert XorBits(a / 16 / 16, b / 16 / 16, 0) == 0 by { XorBitsNone(a / 16 / 16, b / 16 / 16); }
  }

  lemma XorBitsNone(a: nat, b: nat)
    ensures XorBits(a, b, 0) == 0
  {
  }

  lemma QuarterTwice(a: nat)
    ensures a / 16 / 2 == a / 32 && a / 16 / 4 == a / 64 && a / 16 / 8 == a / 128
  {
  }

  lemma XorBitsFour(a: nat, b: nat, more: nat)
    ensures XorBits(a, b, more + 4)
            == BitXor(a, b) + 2 * BitXor(a / 2, b / 2) + 4 * BitXor(a / 4, b / 4) + 8 * BitXor(a / 8, b / 8)
               + 16 * XorBits(a / 16, b / 16, more)
  {
    hide *;
    XorBitsStep(a, b, more + 4);
    XorBitsStep(a / 2, b / 2, more + 3);
    XorBitsStep(a / 4, b / 4, more + 2);
    XorBitsStep(a / 8, b / 8, more + 1);
    HalfTwice(a);
    HalfTwice(b);
  }

  lemma HalfTwice(a: nat)
    ensures a / 2 / 2 == a / 4 && a / 4 / 2 == a / 8 && a / 8 / 2 == a / 16
  {
  }

  lemma EightBits()
    ensures PowerOfTwo(8) == 256
  {
    assert PowerOfTwo(4) == 16;
  }

  lemma XorTwice(a: Byte, b: Byte)
    ensures Xor(Xor(a, b), b) == a
  {
    EightBits();
    XorBitsTwice(a, b, 8);
  }

  lemma XorZero(a: Byte, b: Byte)
    ensures Xor(a, b) == 0 <==> a == b
  {
    EightBits();
    XorBitsZero(a, b, 8);
  }

  lemma {:induction false} PowerOfTwoSum(a: nat, b: nat)
    ensures PowerOfTwo(a + b) == PowerOfTwo(a) * PowerOfTwo(b)
  {
    if a > 0 { PowerOfTwoSum(a - 1, b); }
  }

  /** Bitwise or of the lowest `bits` bits. */
  function OrBits(a: nat, b: nat, bits: nat): nat {
    if bits == 0 then 0
    else (if a % 2 == 1 || b % 2 == 1 then 1 else 0) + 2 * OrBits(a / 2, b / 2, bits - 1)
  }

  lemma {:induction false} OrBitsBound(a: nat, b: nat, bits: nat)
    ensures OrBits(a, b, bits) < PowerOfTwo(bits)
  {
    if bits > 0 { OrBitsBound(a / 2, b / 2, bits - 1); }
  }

  lemma {:induction false} OrBitsZero(a: nat, b: nat, bits: nat)
    requires a < PowerOfTwo(bits) && b < PowerOfTwo(bits)
    ensures OrBits(a, b, bits) == 0 <==> a == 0 && b == 0
  {
    if bits > 0 { OrBitsZero(a / 2, b / 2, bits - 1); }
  }

  function Or(a: Byte, b: Byte): Byte {
    OrBitsBound(a, b, 8);
    EightBits();
    OrBits(a, b, 8)
  }

  lemma OrZero(a: Byte, b: Byte)
    ensures Or(a, b) == 0 <==> a == 0 && b == 0
  {
    EightBits();
    OrBitsZero(a, b, 8);
  }

  function Power256(n: nat): (p: nat)
    ensures p > 0
  {
    if n == 0 then 1 else Power256(n - 1) * 256
  }
}
