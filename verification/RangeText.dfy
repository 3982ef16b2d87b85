/** The text of a `Range` header, and what the parser reads back from it. */
module RangeText {
  import opened Text
  import opened Ranges

  // ----- white space and digits -----------------------------------------------------------

  ghost predicate Blank(s: string) { forall i | 0 <= i < |s| :: IsSpace(s[i]) }

  lemma {:induction false} TrimStartBlank(w: string, s: string)
    requires Blank(w) && (s == "" || !IsSpace(s[0]))
    ensures TrimStart(w + s) == s
  {
    if w == "" {
      assert w + s == s;
    } else {
      assert (w + s)[1..] == w[1..] + s;
      TrimStartBlank(w[1..], s);
    }
  }

  lemma {:induction false} TrimEndBlank(s: string, w: string)
    requires Blank(w) && (s == "" || !IsSpace(s[|s| - 1]))
    ensures TrimEnd(s + w) == s
  {
    if w == "" {
      assert s + w == s;
    } else {
      assert (s + w)[..|s + w| - 1] == s + w[..|w| - 1];
      TrimEndBlank(s, w[..|w| - 1]);
    }
  }

  lemma TrimBlank(before: string, s: string, behind: string)
    requires Blank(before) && Blank(behind) && s != "" && !IsSpace(s[0]) && !IsSpace(s[|s| - 1])
    ensures Trim(before + s + behind) == s
  {
    assert before + s + behind == before + (s + behind);
    TrimStartBlank(before, s + behind);
    TrimEndBlank(s, behind);
  }

  /** Digits up to something else. */
  lemma {:induction false} DigitsUpTo(d: string, rest: string)
    requires (forall i | 0 <= i < |d| :: IsDigit(d[i])) && (rest == "" || !IsDigit(rest[0]))
    ensures DigitsPrefix(d + rest) == |d|
  {
    if d == "" {
      assert d + rest == rest;
    } else {
      assert (d + rest)[1..] == d[1..] + rest;
      DigitsUpTo(d[1..], rest);
    }
  }

  predicate Digits(s: string) { forall i | 0 <= i < |s| :: IsDigit(s[i]) }

  lemma NeitherSpaceNorDigit()
    ensures !IsSpace('-') && !IsDigit('-')
    ensures forall c :: !(IsSpace(c) && IsDigit(c))
  {
  }

  // ----- one range ------------------------------------------------------------------------

  /** Digits, or none, around a dash, with white space inside. */
  lemma SpecFromDigits(raw: string, d: string, x: string, y: string, e: string)
    requires Digits(d) && Digits(e) && Blank(x) && Blank(y) && Trim(raw) == d + x + "-" + y + e
    ensures ParseSpec(raw) ==
            if d == "" then
              if e != "" && 0 < Value(e) <= 9007199254740991 then Suffix(Value(e)) else Malformed
            else if Value(d) > 9007199254740991 || Value(e) > 9007199254740991 then Malformed
            else if e == "" then From(Value(d))
            else if Value(e) < Value(d) then Malformed
            else Between(Value(d), Value(e))
  {
    hide Trim, TrimStart, DigitsPrefix, Value, IsSpace, ParseSpec;
    LeadingDigits(d, x, "-" + y + e);
    assert d + (x + ("-" + y + e)) == d + x + "-" + y + e;
    assert ("-" + y + e)[1..] == y + e;
    TrailingDigits(y, e);
    ParseIs(raw, d, "-" + y + e, e);
    EmptyValue();
  }

  lemma EmptyValue()
    ensures Value("") == 0
  {
  }

  /** The digits before white space and a dash. */
  lemma LeadingDigits(d: string, x: string, behind: string)
    requires Digits(d) && Blank(x) && behind != "" && behind[0] == '-'
    ensures var part := d + (x + behind);
            DigitsPrefix(part) == |d| && part[..|d|] == d && TrimStart(part[|d|..]) == behind
  {
    NeitherSpaceNorDigit();
    hide TrimStart, DigitsPrefix, IsSpace, IsDigit;
    var middle := x + behind;
    assert middle[0] == if x == "" then '-' else x[0];
    DigitsUpTo(d, middle);
    assert (d + middle)[|d|..] == middle && (d + middle)[..|d|] == d;
    TrimStartBlank(x, behind);
  }

  lemma TrailingDigits(y: string, e: string)
    requires Blank(y) && Digits(e)
    ensures TrimStart(y + e) == e && DigitsPrefix(e) == |e|
  {
    NeitherSpaceNorDigit();
    hide TrimStart, DigitsPrefix, IsSpace, IsDigit;
    TrimStartBlank(y, e);
    DigitsUpTo(e, "");
    assert e + "" == e;
  }

  lemma ParseIs(raw: string, d: string, middle: string, e: string)
    requires Digits(d) && Digits(e)
    requires var part := Trim(raw);
             DigitsPrefix(part) == |d| && part[..|d|] == d && TrimStart(part[|d|..]) == middle
    requires middle != "" && middle[0] == '-' && TrimStart(middle[1..]) == e && DigitsPrefix(e) == |e|
    ensures ParseSpec(raw) ==
            if d == "" then
              if e != "" && 0 < Value(e) <= 9007199254740991 then Suffix(Value(e)) else Malformed
            else if Value(d) > 9007199254740991 then Malformed
            else if e == "" then From(Value(d))
            else if Value(e) > 9007199254740991 || Value(e) < Value(d) then Malformed
            else Between(Value(d), Value(e))
  {
    hide Trim, TrimStart, DigitsPrefix, Value, IsSpace;
  }

  /** A number, or nothing for a negative one. */
  function Number(n: int): (s: string)
    ensures Digits(s)
    ensures s == "" <==> n < 0
    ensures n >= 0 ==> Value(s) == n
  {
    if n < 0 then "" else
      DecimalValue(n);
      Decimal(n)
  }

  /** Trimmed outside: the white space around a number that is missing goes too. */
  lemma SpecIsTrimmed(a: int, b: int, w: string, x: string, y: string, z: string)
    requires Blank(w) && Blank(x) && Blank(y) && Blank(z)
    ensures Trim(w + Number(a) + x + "-" + y + Number(b) + z) ==
            Number(a) + (if a < 0 then "" else x) + "-" + (if b < 0 then "" else y) + Number(b)
  {
    NeitherSpaceNorDigit();
    hide IsSpace, IsDigit, Number, Trim;
    var d, e := Number(a), Number(b);
    var core := d + (if a < 0 then "" else x) + "-" + (if b < 0 then "" else y) + e;
    var before, behind := if a < 0 then w + x else w, if b < 0 then y + z else z;
    assert core[0] == if d == "" then '-' else d[0];
    assert core[|core| - 1] == if e == "" then '-' else e[|e| - 1];
    TrimBlank(before, core, behind);
    Regrouped(d, x, y, e, w, z);
  }

  lemma Regrouped(d: string, x: string, y: string, e: string, w: string, z: string)
    ensures var core := d + (if d == "" then "" else x) + "-" + (if e == "" then "" else y) + e;
            w + d + x + "-" + y + e + z ==
            (if d == "" then w + x else w) + core + (if e == "" then y + z else z)
  {
  }

  /** Two numbers that may be missing, with any white space around them and the dash, and what they ask for. */
  lemma SpecReadBack(a: int, b: int, w: string, x: string, y: string, z: string)
    requires Blank(w) && Blank(x) && Blank(y) && Blank(z)
    ensures ParseSpec(w + Number(a) + x + "-" + y + Number(b) + z) ==
            if a < 0 then if 0 < b <= 9007199254740991 then Suffix(b) else Malformed
            else if a > 9007199254740991 || b > 9007199254740991 then Malformed
            else if b < 0 then From(a)
            else if b < a then Malformed
            else Between(a, b)
  {
    hide Trim, ParseSpec, Number, IsSpace, IsDigit;
    SpecIsTrimmed(a, b, w, x, y, z);
    NothingIsBlank();
    SpecFromDigits(w + Number(a) + x + "-" + y + Number(b) + z, Number(a), if a < 0 then "" else x,
                   if b < 0 then "" else y, Number(b));
  }

  lemma NothingIsBlank()
    ensures Blank("")
  {
  }

  // ----- a header -------------------------------------------------------------------------

  /** The specs that a header can ask for. */
  predicate Legal(spec: RangeSpec) {
    match spec
    case Malformed => false
    case Suffix(count) => 0 < count <= 9007199254740991
    case From(first) => first <= 9007199254740991
    case Between(first, last) => first <= last <= 9007199254740991
  }

  function SpecText(spec: RangeSpec): string {
    match spec
    case Malformed => ""
    case Suffix(count) => "-" + Decimal(count)
    case From(first) => Decimal(first) + "-"
    case Between(first, last) => Decimal(first) + "-" + Decimal(last)
  }

  lemma SpecTextReadBack(spec: RangeSpec)
    requires Legal(spec)
    ensures ParseSpec(SpecText(spec)) == spec
    ensures var s := SpecText(spec); s != "" && !IsSpace(s[|s| - 1]) && ',' !in s
  {
    hide ParseSpec, IsSpace, IsDigit, Number, Value, Decimal;
    NeitherSpaceNorDigit();
    NothingIsBlank();
    var a := if spec.Suffix? then -1 else spec.first;
    var b := if spec.Suffix? then spec.count else if spec.From? then -1 else spec.last;
    NumbersAre(a, b);
    SpecReadBack(a, b, "", "", "", "");
    var s := SpecText(spec);
    assert s == Number(a) + "-" + Number(b) == "" + Number(a) + "" + "-" + "" + Number(b) + "";
  }

  lemma NumbersAre(a: int, b: int)
    ensures a >= 0 ==> Number(a) == Decimal(a)
    ensures b >= 0 ==> Number(b) == Decimal(b)
    ensures !IsDigit(',')
  {
  }

  function SpecTexts(specs: seq<RangeSpec>): (parts: seq<string>)
    ensures |parts| == |specs| && forall i | 0 <= i < |parts| :: parts[i] == SpecText(specs[i])
  {
    seq(|specs|, i requires 0 <= i < |specs| => SpecText(specs[i]))
  }

  lemma {:induction false} JoinedLast(parts: seq<string>, sep: char)
    requires parts != [] && parts[|parts| - 1] != ""
    ensures var s, last := Join(parts, sep), parts[|parts| - 1]; s != "" && s[|s| - 1] == last[|last| - 1]
  {
    if |parts| > 1 { JoinedLast(parts[1..], sep); }
  }

  /** The six letters in any case. */
  predicate IsUnit(u: string) {
    |u| == 6 && forall i | 0 <= i < 6 :: u[i] == "bytes="[i] || u[i] == "BYTES="[i]
  }

  lemma UnitIsPrefix(u: string, s: string)
    requires IsUnit(u)
    ensures HasBytesPrefix(u + s) && !IsSpace(u[0])
  {
    forall i | 0 <= i < 6 ensures Lower((u + s)[i]) == "bytes="[i] { assert (u + s)[i] == u[i]; }
  }

  /** The header of any list of ranges is read back as that list, whatever the case of its unit. */
  lemma HeaderReadBack(u: string, specs: seq<RangeSpec>, before: string, behind: string)
    requires IsUnit(u) && Blank(before) && Blank(behind)
    requires specs != [] && forall i | 0 <= i < |specs| :: Legal(specs[i])
    ensures var header := before + (u + Join(SpecTexts(specs), ',')) + behind;
            WellFormed(header) && Specs(header) == specs
  {
    hide Trim, ParseSpec, SpecText, Split, Join, IsSpace, HasBytesPrefix, Legal, SpecTexts;
    var parts := SpecTexts(specs);
    var list := Join(parts, ',');
    var header := before + (u + list) + behind;
    UnitIsPrefix(u, list);
    forall i | 0 <= i < |specs|
      ensures ParseSpec(parts[i]) == specs[i] && parts[i] != "" && !IsSpace(parts[i][|parts[i]| - 1])
              && ',' !in parts[i]
    {
      SpecTextReadBack(specs[i]);
    }
    JoinedLast(parts, ',');
    SplitJoin(parts, ',');
    TrimBlank(before, u + list, behind);
    assert (u + list)[6..] == list;
    assert Specs(header) == specs;
    forall i | 0 <= i < |specs| ensures specs[i] != Malformed { LegalIsFormed(specs[i]); }
  }

  lemma LegalIsFormed(spec: RangeSpec)
    requires Legal(spec)
    ensures spec != Malformed
  {
  }

  // ----- what such headers give -----------------------------------------------------------

  /** A header in lower case without white space. */
  function HeaderText(specs: seq<RangeSpec>): string { "bytes=" + Join(SpecTexts(specs), ',') }

  lemma HeaderTextReadBack(specs: seq<RangeSpec>)
    requires specs != [] && forall i | 0 <= i < |specs| :: Legal(specs[i])
    ensures WellFormed(HeaderText(specs)) && Specs(HeaderText(specs)) == specs
  {
    hide *;
    NothingIsBlank();
    LowerUnit();
    HeaderTextIs(specs);
    HeaderReadBack("bytes=", specs, "", "");
  }

  lemma LowerUnit()
    ensures IsUnit("bytes=")
  {
  }

  lemma HeaderTextIs(specs: seq<RangeSpec>)
    ensures HeaderText(specs) == "" + ("bytes=" + Join(SpecTexts(specs), ',')) + ""
  {
    hide Join;
  }

  lemma OnlyRange(r: ByteRange, spec: RangeSpec, size: nat, start: nat, end: nat)
    requires Covers(r, spec, size) && start <= end < size && 0 <= r.start <= r.end < size
    requires forall p {:trigger Selects(spec, size, p)} :: Selects(spec, size, p) <==> start <= p <= end
    ensures r == ByteRange(start, end)
  {
    SameRange(r, ByteRange(start, end), spec, size);
  }

  /** Of ten bytes: the first two, the sixth and seventh, the last five, from the ninth on, and from there to beyond the
      end. */
  method RangesOfTen() returns (r: RangeList)
    ensures r == Satisfiable([ByteRange(0, 1), ByteRange(5, 6), ByteRange(5, 9), ByteRange(8, 9), ByteRange(8, 9)])
  {
    var specs := [Between(0, 1), Between(5, 6), Suffix(5), From(8), Between(8, 99)];
    HeaderTextReadBack(specs);
    hide ParseSpec, Trim, HeaderText;
    r := ParseRangeList(HeaderText(specs), Known(10), 8);
    hide Means;
    assert Means(r, HeaderText(specs), 10, 8);
    MeansRanges(r, HeaderText(specs), specs);
  }

  lemma MeansRanges(r: RangeList, header: string, specs: seq<RangeSpec>)
    requires WellFormed(header) && Specs(header) == specs && Means(r, header, 10, 8)
    requires specs == [Between(0, 1), Between(5, 6), Suffix(5), From(8), Between(8, 99)]
    requires r.Satisfiable? ==> forall i | 0 <= i < |r.ranges| :: 0 <= r.ranges[i].start <= r.ranges[i].end < 10
    ensures r == Satisfiable([ByteRange(0, 1), ByteRange(5, 6), ByteRange(5, 9), ByteRange(8, 9), ByteRange(8, 9)])
  {
    hide WellFormed, Specs, Covers;
    assert forall i | 0 <= i < |specs| :: !StartsBeyond(specs[i], 10);
    OnlyRange(r.ranges[0], specs[0], 10, 0, 1);
    OnlyRange(r.ranges[1], specs[1], 10, 5, 6);
    OnlyRange(r.ranges[2], specs[2], 10, 5, 9);
    OnlyRange(r.ranges[3], specs[3], 10, 8, 9);
    OnlyRange(r.ranges[4], specs[4], 10, 8, 9);
  }

  /** One range beyond the end refuses all, also when there are too many; a malformed one comes before that. */
  method RefusalsInOrder() returns (beyond: RangeList, both: RangeList, many: RangeList, malformed: RangeList)
    ensures beyond == Unsatisfiable && both == Unsatisfiable && many == TooMany && malformed == Invalid
  {
    hide *;
    var ok, late := Between(0, 1), Between(50, 60);
    beyond := ParseRangeList(HeaderText([ok, late]), Known(10), 8);
    both := ParseRangeList(HeaderText([ok, late]), Known(10), 1);
    many := ParseRangeList(HeaderText([ok, ok]), Known(10), 1);
    malformed := ParseRangeList("bytes=50-60,x", Known(10), 1);
    LateSecond(beyond, 8);
    LateSecond(both, 1);
    TwoAreMany(many);
    BadSecond();
    MalformedFirst(malformed, "bytes=50-60,x");
  }

  lemma LateSecond(r: RangeList, maxRanges: nat)
    requires Means(r, HeaderText([Between(0, 1), Between(50, 60)]), 10, maxRanges)
    ensures r == Unsatisfiable
  {
    hide HeaderText, Specs, WellFormed;
    var specs := [Between(0, 1), Between(50, 60)];
    HeaderTextReadBack(specs);
    assert StartsBeyond(specs[1], 10);
  }

  lemma TwoAreMany(r: RangeList)
    requires Means(r, HeaderText([Between(0, 1), Between(0, 1)]), 10, 1)
    ensures r == TooMany
  {
    hide HeaderText, Specs, WellFormed;
    HeaderTextReadBack([Between(0, 1), Between(0, 1)]);
  }

  lemma MalformedFirst(r: RangeList, header: string)
    requires Means(r, header, 10, 1) && !WellFormed(header)
    ensures r == Invalid
  {
    hide Specs, WellFormed;
  }

  lemma BadSecond()
    ensures !WellFormed("bytes=50-60,x")
  {
    var header := "bytes=50-60,x";
    var parts := ["50-60", "x"];
    XIsMalformed();
    hide ParseSpec, Trim, TrimStart, TrimEnd, HasBytesPrefix;
    assert parts[1..] == ["x"];
    assert Join(parts, ',') == "50-60" + [','] + "x" == "50-60,x";
    hide Join;
    SplitJoin(parts, ',');
    TrimmedAlready(header);
    assert header[6..] == "50-60,x";
    assert Specs(header)[1] == ParseSpec("x");
  }

  lemma XIsMalformed()
    ensures ParseSpec("x") == Malformed
  {
    TrimmedAlready("x");
    assert DigitsPrefix("x") == 0 && "x"[0..] == "x" && TrimStart("x") == "x";
  }
}
