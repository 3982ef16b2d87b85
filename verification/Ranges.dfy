/** The `Range` header: parsing of a list of byte ranges and what each of them selects. */
module Ranges {
  import opened Text

  const MAX_SAFE_INTEGER := 9007199254740991

  // ----- text -----------------------------------------------------------------------------

  /** The white space of `trim` and of `\s`. */
  predicate IsSpace(c: char) {
    || '\t' <= c <= '\r' || c == ' ' || c == '\U{00A0}' || c == '\U{1680}'
    || '\U{2000}' <= c <= '\U{200A}' || c == '\U{2028}' || c == '\U{2029}' || c == '\U{202F}'
    || c == '\U{205F}' || c == '\U{3000}' || c == '\U{FEFF}'
  }

  function TrimStart(s: string): (r: string)
    ensures |r| <= |s|
  {
    if s != "" && IsSpace(s[0]) then TrimStart(s[1..]) else s
  }

  function TrimEnd(s: string): (r: string)
    ensures |r| <= |s|
  {
    if s != "" && IsSpace(s[|s| - 1]) then TrimEnd(s[..|s| - 1]) else s
  }

  function Trim(s: string): string { TrimEnd(TrimStart(s)) }

  function Lower(c: char): char {
    if 'A' <= c <= 'Z' then ((c as int) + 32) as char else c
  }

  predicate HasBytesPrefix(s: string) {
    |s| >= 6 && forall i | 0 <= i < 6 :: Lower(s[i]) == "bytes="[i]
  }

  lemma PrefixLength(s: string)
    requires HasBytesPrefix(s)
    ensures |s| >= 6
  {
  }

  function DigitsPrefix(s: string): (n: nat)
    ensures n <= |s| && forall i | 0 <= i < n :: IsDigit(s[i])
  {
    if s != "" && IsDigit(s[0]) then 1 + DigitsPrefix(s[1..]) else 0
  }

  // ----- one range ------------------------------------------------------------------------

  /** What one range of the list asks for. */
  datatype RangeSpec = Malformed | Suffix(count: nat) | From(first: nat) | Between(first: nat, last: nat)

  /** Digits, white space, a dash, white space, digits; then the numbers must be safe integers. */
  function ParseSpec(raw: string): (r: RangeSpec)
    ensures r.Suffix? ==> r.count > 0
    ensures r.Between? ==> r.first <= r.last
  {
    var part := Trim(raw);
    var n := DigitsPrefix(part);
    var middle := TrimStart(part[n..]);
    if middle == "" || middle[0] != '-' then Malformed
    else
      var tail := TrimStart(middle[1..]);
      if DigitsPrefix(tail) != |tail| then Malformed
      else if n == 0 && tail == "" then Malformed
      else if n == 0 then
        if Value(tail) == 0 || Value(tail) > MAX_SAFE_INTEGER then Malformed else Suffix(Value(tail))
      else if Value(part[..n]) > MAX_SAFE_INTEGER then Malformed
      else if tail == "" then From(Value(part[..n]))
      else if Value(tail) > MAX_SAFE_INTEGER || Value(tail) < Value(part[..n]) then Malformed
      else Between(Value(part[..n]), Value(tail))
  }

  /** Byte `p` of a representation of `size` bytes is asked for. */
  predicate Selects(spec: RangeSpec, size: nat, p: int) {
    0 <= p < size &&
    match spec
    case Malformed => false
    case Suffix(count) => size - count <= p
    case From(first) => first <= p
    case Between(first, last) => first <= p <= last
  }

  /** The range starts behind the last byte. */
  predicate StartsBeyond(spec: RangeSpec, size: nat) {
    (spec.From? || spec.Between?) && spec.first >= size
  }

  datatype ByteRange = ByteRange(start: int, end: int)

  // ----- the list -------------------------------------------------------------------------

  datatype RangeList = Invalid | Unsatisfiable | TooMany | Satisfiable(ranges: seq<ByteRange>)

  datatype Size = Unknown | Known(bytes: nat)

  /** `header` is a `bytes` range header whose list has only well-formed members. */
  predicate WellFormed(header: string) {
    && HasBytesPrefix(Trim(header))
    && forall i | 0 <= i < |Specs(header)| :: Specs(header)[i] != Malformed
  }

  function Specs(header: string): (specs: seq<RangeSpec>)
    ensures specs != []
  {
    var trimmed := Trim(header);
    var parts := Split(if |trimmed| >= 6 then trimmed[6..] else "", ',');
    seq(|parts|, i requires 0 <= i < |parts| => ParseSpec(parts[i]))
  }

  /** A range that covers exactly the bytes that `spec` selects. */
  ghost predicate Covers(r: ByteRange, spec: RangeSpec, size: nat) {
    forall p {:trigger Selects(spec, size, p)} :: Selects(spec, size, p) <==> r.start <= p <= r.end
  }

  /** What the header means for a representation of known size, for every case of the result. */
  ghost predicate Means(r: RangeList, header: string, size: nat, maxRanges: nat) {
    var specs := Specs(header);
    if !WellFormed(header) then r == Invalid
    else if exists i | 0 <= i < |specs| :: StartsBeyond(specs[i], size) then r == Unsatisfiable
    else if |specs| > maxRanges then r == TooMany
    else
      && r.Satisfiable? && |r.ranges| == |specs|
      && forall i | 0 <= i < |specs| :: Covers(r.ranges[i], specs[i], size)
  }

  /** Parse a `Range` header into all its ranges. */
  method ParseRangeList(header: string, size: Size, maxRanges: nat) returns (r: RangeList)
    ensures size.Unknown? ==> r == Invalid
    ensures size.Known? ==> Means(r, header, size.bytes, maxRanges)
    ensures r.Satisfiable? && size.bytes > 0 ==>
              forall i | 0 <= i < |r.ranges| :: 0 <= r.ranges[i].start <= r.ranges[i].end < size.bytes
    ensures r.Satisfiable? && size.bytes == 0 ==>
              forall i | 0 <= i < |r.ranges| :: r.ranges[i] == ByteRange(0, -1)
  {
    hide ParseSpec, Trim, HasBytesPrefix;
    var trimmed := Trim(header);
    if !HasBytesPrefix(trimmed) { return Invalid; }
    PrefixLength(trimmed);
    if size.Unknown? { return Invalid; }
    var n := size.bytes;
    var parts := Split(trimmed[6..], ',');
    var out: seq<ByteRange> := [];
    var sawUnsatisfiable := false;
    ghost var specs := Specs(header);
    var i := 0;
    while i < |parts|
      invariant 0 <= i <= |parts|
      invariant forall k | 0 <= k < i :: specs[k] != Malformed
      invariant sawUnsatisfiable <==> exists k | 0 <= k < i :: StartsBeyond(specs[k], n)
      invariant !sawUnsatisfiable ==> |out| == i && forall k | 0 <= k < i :: Covers(out[k], specs[k], n)
      invariant forall k | 0 <= k < |out| ::
                  if n > 0 then 0 <= out[k].start <= out[k].end < n else out[k] == ByteRange(0, -1)
    {
      var spec := ParseSpec(parts[i]);
      assert spec == specs[i];
      match spec {
        case Malformed => return Invalid;
        case Suffix(count) =>
          if count >= n { out := out + [ByteRange(0, n - 1)]; } else { out := out + [ByteRange(n - count, n - 1)]; }
        case From(first) =>
          if first >= n { sawUnsatisfiable := true; } else { out := out + [ByteRange(first, n - 1)]; }
        case Between(first, last) =>
          if first >= n {
            sawUnsatisfiable := true;
          } else {
            out := out + [ByteRange(first, if last < n - 1 then last else n - 1)];
          }
      }
      i := i + 1;
    }
    if sawUnsatisfiable { return Unsatisfiable; }
    if |out| == 0 { return Invalid; }
    if |out| > maxRanges { return TooMany; }
    return Satisfiable(out);
  }

  /** The last five bytes of an empty file are served as the range from 0 to -1. */
  method SuffixOfEmptyFile(maxRanges: nat) returns (r: RangeList)
    requires maxRanges >= 1
    ensures r == Satisfiable([ByteRange(0, -1)])
  {
    hide ParseSpec, Trim, HasBytesPrefix;
    SuffixHeader();
    assert Specs("bytes=-5")[0] == Suffix(5);
    r := ParseRangeList("bytes=-5", Known(0), maxRanges);
  }

  lemma SuffixHeader()
    ensures WellFormed("bytes=-5") && Specs("bytes=-5") == [Suffix(5)]
  {
    assert HasBytesPrefix("bytes=-5");
    hide ParseSpec, Trim, HasBytesPrefix, TrimStart, TrimEnd, Split;
    TrimmedAlready("bytes=-5");
    assert "bytes=-5"[6..] == "-5";
    SplitPlain("-5", ',');
    FiveFromTheEnd();
  }

  lemma TrimmedAlready(s: string)
    requires s != "" && !IsSpace(s[0]) && !IsSpace(s[|s| - 1])
    ensures Trim(s) == s
  {
  }

  lemma FiveFromTheEnd()
    ensures ParseSpec("-5") == Suffix(5)
  {
    TrimmedAlready("-5");
    assert "-5"[0..] == "-5" && "-5"[1..] == "5" && "5"[1..] == "" && "5"[..0] == "";
    assert DigitsPrefix("-5") == 0 && TrimStart("-5") == "-5" && TrimStart("5") == "5";
    assert DigitsPrefix("") == 0 && DigitsPrefix("5") == 1;
    assert Value("") == 0 && Value("5") == 5;
  }

  // ----- a single range -------------------------------------------------------------------

  datatype OneRange = NoRange | Multipart | OutOfRange | One(range: ByteRange)

  /** Parse a `Range` header that asks for one range. */
  method ParseRange(header: string, size: Size) returns (r: OneRange)
    ensures var spec := OnlySpec(header);
            if !HasBytesPrefix(Trim(header)) then r == NoRange
            else if ',' in Trim(header)[6..] then r == Multipart
            else if spec == Malformed || size.Unknown? then r == NoRange
            else if StartsBeyond(spec, size.bytes) then r == OutOfRange
            else r.One? && Covers(r.range, spec, size.bytes)
    ensures r.One? ==> size.Known? && if size.bytes > 0 then 0 <= r.range.start <= r.range.end < size.bytes
                                      else r.range == ByteRange(0, -1)
  {
    hide ParseSpec, Trim, HasBytesPrefix;
    var trimmed := Trim(header);
    if !HasBytesPrefix(trimmed) { return NoRange; }
    PrefixLength(trimmed);
    if ',' in trimmed[6..] { return Multipart; }
    var spec := ParseSpec(trimmed[6..]);
    if spec.Malformed? { return NoRange; }
    if size.Unknown? { return NoRange; }
    var n := size.bytes;
    match spec {
      case Suffix(count) =>
        if count >= n { return One(ByteRange(0, n - 1)); }
        return One(ByteRange(n - count, n - 1));
      case From(first) =>
        if first >= n { return OutOfRange; }
        return One(ByteRange(first, n - 1));
      case Between(first, last) =>
        if first >= n { return OutOfRange; }
        return One(ByteRange(first, if last < n - 1 then last else n - 1));
    }
  }

  /** What a header without a comma asks for. */
  function OnlySpec(header: string): RangeSpec {
    if |Trim(header)| >= 6 then ParseSpec(Trim(header)[6..]) else Malformed
  }

  lemma SameRange(a: ByteRange, b: ByteRange, spec: RangeSpec, size: nat)
    requires Covers(a, spec, size) && Covers(b, spec, size)
    requires 0 <= a.start <= a.end < size && 0 <= b.start <= b.end < size
    ensures a == b
  {
    assert Selects(spec, size, a.start) && Selects(spec, size, a.end);
    assert Selects(spec, size, b.start) && Selects(spec, size, b.end);
  }

  /** For a header without a comma both parsers agree: on refusal, on ranges beyond the end, and on the range. */
  method ParsersAgree(header: string, size: nat, maxRanges: nat) returns (one: OneRange, list: RangeList)
    requires ',' !in Trim(header) && maxRanges >= 1
    ensures one != Multipart && list != TooMany
    ensures one == NoRange <==> list == Invalid
    ensures one == OutOfRange <==> list == Unsatisfiable
    ensures one.One? ==> list == Satisfiable([one.range])
  {
    hide ParseSpec, Trim;
    one := ParseRange(header, Known(size));
    list := ParseRangeList(header, Known(size), maxRanges);
    var trimmed := Trim(header);
    if HasBytesPrefix(trimmed) {
      SplitPlain(trimmed[6..], ',');
      assert Specs(header) == [OnlySpec(header)];
      assert Specs(header)[0] == OnlySpec(header);
      if one.One? && size > 0 { SameRange(one.range, list.ranges[0], OnlySpec(header), size); }
    }
  }
}
