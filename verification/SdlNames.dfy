/** Names of GraphQL types: cleaning a raw name, and claiming one that is not taken. */
module SdlNames {
  import opened Text

  predicate IsNameChar(c: char) { c == '_' || IsDigit(c) || 'A' <= c <= 'Z' || 'a' <= c <= 'z' }

  /** A name of GraphQL. */
  predicate IsName(s: string) { s != "" && !IsDigit(s[0]) && forall i | 0 <= i < |s| :: IsNameChar(s[i]) }

  function Replaced(raw: string): (r: string)
    ensures |r| == |raw| && forall i | 0 <= i < |r| :: IsNameChar(r[i])
    ensures (forall i | 0 <= i < |raw| :: IsNameChar(raw[i])) ==> r == raw
  {
    seq(|raw|, i requires 0 <= i < |raw| => if IsNameChar(raw[i]) then raw[i] else '_')
  }

  /** A raw name as a name of GraphQL; a legal name other than `_` stays as it is. */
  function SanitizeName(raw: string, fallback: string): (r: string)
    ensures IsName(fallback) ==> IsName(r)
    ensures IsName(raw) && raw != "_" ==> r == raw
  {
    var out := Replaced(raw);
    var safe := if out == "" || IsDigit(out[0]) then "_" + out else out;
    if safe == "_" then fallback else safe
  }

  /** Other characters become underscores, a leading digit gets one before it, and the fallback stands in
      for a name of which nothing is left. */
  lemma SanitizeExamples(fallback: string)
    ensures SanitizeName("a b-c", fallback) == "a_b_c" && SanitizeName("1a", fallback) == "_1a"
    ensures SanitizeName("", fallback) == fallback && SanitizeName("!", fallback) == fallback
  {
    assert Replaced("a b-c") == "a_b_c" && Replaced("1a") == "1a" && Replaced("") == "" && Replaced("!") == "_";
    hide Replaced;
  }

  lemma CandidateExamples()
    ensures Candidate("A", 1) == "A" && Candidate("A", 2) == "A2" && Candidate("A", 10) == "A10"
  {
    assert Decimal(2) == "2" && Decimal(1) == "1" && Decimal(10) == "1" + "0";
  }

  /** The name with index `k`; the first one has none. */
  function Candidate(clean: string, k: nat): string { if k < 2 then clean else clean + Decimal(k) }

  lemma CandidatesDiffer(clean: string, i: nat, j: nat)
    requires 1 <= i < j
    ensures Candidate(clean, i) != Candidate(clean, j)
  {
    DecimalValue(i);
    DecimalValue(j);
    if i >= 2 {
      assert Candidate(clean, i)[|clean|..] == Decimal(i) && Candidate(clean, j)[|clean|..] == Decimal(j);
    }
  }

  lemma {:induction false} SubsetSize(a: set<string>, b: set<string>)
    requires a <= b
    ensures |a| <= |b|
    decreases |a|
  {
    if x :| x in a {
      SubsetSize(a - {x}, b - {x});
    }
  }

  class Names {
    var names: set<string>

    constructor ()
      ensures names == {}
    {
      names := {};
    }

    /** Claim the first of the names `clean`, `clean2`, `clean3` and so on that is not taken. */
    method ClaimName(base: string, fallback: string) returns (candidate: string)
      modifies this
      ensures candidate !in old(names) && names == old(names) + {candidate}
      ensures var clean := SanitizeName(base, fallback);
              exists k: nat :: k >= 1 && candidate == Candidate(clean, k)
                && forall j | 1 <= j < k :: Candidate(clean, j) in old(names)
      ensures IsName(fallback) ==> IsName(candidate)
    {
      hide SanitizeName, Candidate, IsName, Tried;
      var clean := SanitizeName(base, fallback);
      candidate := clean;
      var index := 2;
      ghost var tried: set<string> := {};
      NothingTried(clean);
      while candidate in names
        invariant names == old(names) && index >= 2 && candidate == Candidate(clean, index - 1)
        invariant tried <= names && Tried(clean, tried, index)
        decreases |names| - |tried|
      {
        OneTried(clean, tried, index);
        tried := tried + {candidate};
        SubsetSize(tried, names);
        candidate := clean + Decimal(index);
        index := index + 1;
      }
      AllTried(clean, tried, index);
      CandidateIsName(clean, index - 1);
      names := names + {candidate};
    }
  }

  /** The candidates before `index - 1`. */
  ghost predicate Tried(clean: string, tried: set<string>, index: nat) {
    forall s :: s in tried <==> exists j | 1 <= j < index - 1 :: s == Candidate(clean, j)
  }

  lemma NothingTried(clean: string)
    ensures Tried(clean, {}, 2) && Candidate(clean, 1) == clean
  {
  }

  lemma OneTried(clean: string, tried: set<string>, index: nat)
    requires index >= 2 && Tried(clean, tried, index)
    ensures var c := Candidate(clean, index - 1); c !in tried && Tried(clean, tried + {c}, index + 1)
    ensures Candidate(clean, index) == clean + Decimal(index)
  {
    var c := Candidate(clean, index - 1);
    forall j | 1 <= j < index - 1 ensures Candidate(clean, j) != c { CandidatesDiffer(clean, j, index - 1); }
  }

  lemma AllTried(clean: string, tried: set<string>, index: nat)
    requires Tried(clean, tried, index)
    ensures forall j | 1 <= j < index - 1 :: Candidate(clean, j) in tried
  {
  }

  lemma CandidateIsName(clean: string, k: nat)
    ensures IsName(clean) ==> IsName(Candidate(clean, k))
  {
  }
}
