/** Normalization of the paths of static files: no result leaves the root. */
module StaticPath {
  import opened Results
  import opened Text

  predicate IsName(part: string) { part != "" && part != "." && part != ".." }

  /** Following the parts from a position below the root, given by the names that lead to it; none when a part
      leads above the root. */
  function Followed(stack: seq<string>, parts: seq<string>): Option<seq<string>>
    decreases |parts|
  {
    if parts == [] then Some(stack)
    else if parts[0] == "" || parts[0] == "." then Followed(stack, parts[1..])
    else if parts[0] == ".." then if stack == [] then None else Followed(stack[..|stack| - 1], parts[1..])
    else Followed(stack + [parts[0]], parts[1..])
  }

  function PathOf(stack: seq<string>): string { "/" + Join(stack, '/') }

  function Normalized(sub: string): Option<string> {
    match Followed([], Split(sub, '/'))
    case None => None
    case Some(stack) => Some(PathOf(stack))
  }

  method NormalizeStaticPath(sub: string) returns (r: Option<string>)
    ensures r == Normalized(sub)
  {
    var parts := Split(sub, '/');
    var stack: seq<string> := [];
    var i := 0;
    assert parts[0..] == parts;
    while i < |parts|
      invariant 0 <= i <= |parts|
      invariant Followed([], parts) == Followed(stack, parts[i..])
    {
      var part := parts[i];
      assert parts[i..][1..] == parts[i + 1..];
      i := i + 1;
      if part == "" || part == "." { continue; }
      if part == ".." {
        if |stack| == 0 { return None; }
        stack := stack[..|stack| - 1];
        continue;
      }
      stack := stack + [part];
    }
    return Some(PathOf(stack));
  }

  // ----- laws -----------------------------------------------------------------------------

  /** Levels that the parts lead down, counted up for names and down for `..`. */
  function Descent(parts: seq<string>): int {
    if parts == [] then 0
    else Descent(parts[..|parts| - 1])
         + (if parts[|parts| - 1] == ".." then -1 else if IsName(parts[|parts| - 1]) then 1 else 0)
  }

  lemma {:induction false} DescentFromFront(parts: seq<string>)
    requires parts != []
    ensures Descent(parts) == (if parts[0] == ".." then -1 else if IsName(parts[0]) then 1 else 0) + Descent(parts[1..])
    decreases |parts|
  {
    if |parts| > 1 {
      var init := parts[..|parts| - 1];
      DescentFromFront(init);
      assert init[1..] == parts[1..][..|parts| - 2];
    } else {
      assert parts[..0] == [] && parts[1..] == [];
    }
  }

  /** From a position `depth` levels down, the parts lead above the root somewhere. */
  ghost predicate Climbs(depth: nat, parts: seq<string>) {
    exists k | 0 <= k <= |parts| :: depth + Descent(parts[..k]) < 0
  }

  lemma {:induction false} RefusedBelow(stack: seq<string>, parts: seq<string>)
    ensures Followed(stack, parts) == None <==> Climbs(|stack|, parts)
    decreases |parts|
  {
    if parts == [] {
      assert forall k | 0 <= k <= |parts| :: parts[..k] == [];
    } else {
      var change := if parts[0] == ".." then -1 else if IsName(parts[0]) then 1 else 0;
      forall k | 0 < k <= |parts| ensures Descent(parts[..k]) == change + Descent(parts[1..][..k - 1]) {
        DescentFromFront(parts[..k]);
        assert parts[..k][1..] == parts[1..][..k - 1];
      }
      assert parts[..0] == [];
      if parts[0] == ".." && stack == [] {
        assert parts[1..][..0] == [];
        assert |stack| + Descent(parts[..1]) < 0;
      } else {
        var next := if parts[0] == ".." then stack[..|stack| - 1] else if IsName(parts[0]) then stack + [parts[0]]
          else stack;
        RefusedBelow(next, parts[1..]);
        if k :| 0 <= k <= |parts[1..]| && |next| + Descent(parts[1..][..k]) < 0 {
          assert |stack| + Descent(parts[..k + 1]) < 0;
        }
        if k :| 0 <= k <= |parts| && |stack| + Descent(parts[..k]) < 0 && k > 0 {
          assert |next| + Descent(parts[1..][..k - 1]) < 0;
        }
      }
    }
  }

  /** A path is refused exactly when some beginning of it leads above the root. */
  lemma RefusedExactly(sub: string)
    ensures Normalized(sub) == None <==> Climbs(0, Split(sub, '/'))
  {
    RefusedBelow([], Split(sub, '/'));
  }

  /** Names without a slash. */
  ghost predicate Plain(stack: seq<string>) { forall s | s in stack :: IsName(s) && '/' !in s }

  lemma {:induction false} FollowedIsPlain(stack: seq<string>, parts: seq<string>)
    requires Plain(stack) && forall p | p in parts :: '/' !in p
    ensures Followed(stack, parts).Some? ==> Plain(Followed(stack, parts).value)
    decreases |parts|
  {
    if parts != [] {
      assert parts[0] in parts;
      forall p | p in parts[1..] ensures '/' !in p { assert p in parts; }
      if parts[0] == "" || parts[0] == "." {
        FollowedIsPlain(stack, parts[1..]);
      } else if parts[0] == ".." {
        if stack != [] { FollowedIsPlain(stack[..|stack| - 1], parts[1..]); }
      } else {
        FollowedIsPlain(stack + [parts[0]], parts[1..]);
      }
    }
  }

  lemma {:induction false} SplitIsFree(s: string, sep: char)
    ensures forall p | p in Split(s, sep) :: sep !in p
  {
    if s != "" {
      SplitIsFree(s[1..], sep);
      var rest := Split(s[1..], sep);
      assert rest[0] in rest;
      forall p | p in Split(s, sep) ensures sep !in p {
        if p != "" && p !in rest { assert p == [s[0]] + rest[0]; }
      }
    }
  }

  lemma {:induction false} PlainIsFollowed(stack: seq<string>, names: seq<string>)
    requires Plain(names)
    ensures Followed(stack, names) == Some(stack + names)
    decreases |names|
  {
    if names == [] {
      assert stack + [] == stack;
    } else {
      assert names[0] in names;
      forall s | s in names[1..] ensures IsName(s) && '/' !in s { assert s in names; }
      PlainIsFollowed(stack + [names[0]], names[1..]);
      assert stack + [names[0]] + names[1..] == stack + names;
    }
  }

  /** The segments of a normalized path are names, so it stays below the root; and it is normal already. */
  lemma NormalizedIsNormal(sub: string) returns (stack: seq<string>)
    requires Normalized(sub).Some?
    ensures Plain(stack) && Normalized(sub).value == PathOf(stack)
    ensures Normalized(PathOf(stack)) == Normalized(sub)
  {
    SplitIsFree(sub, '/');
    FollowedIsPlain([], Split(sub, '/'));
    stack := Followed([], Split(sub, '/')).value;
    var s := Join(stack, '/');
    assert ("/" + s)[1..] == s;
    var parts := Split("/" + s, '/');
    assert parts == [""] + Split(s, '/') && parts[1..] == Split(s, '/');
    if stack == [] {
      assert Followed([], [""]) == Followed([], []) by { assert [""][1..] == []; }
      assert Split("", '/')[1..] == [];
    } else {
      SplitJoin(stack, '/');
      PlainIsFollowed([], stack);
      assert [] + stack == stack;
    }
  }

  // ----- what a path means ----------------------------------------------------------------

  lemma {:induction false} FollowedInTwo(stack: seq<string>, first: seq<string>, second: seq<string>)
    ensures Followed(stack, first + second) ==
            match Followed(stack, first)
            case None => None
            case Some(there) => Followed(there, second)
    decreases |first|
  {
    if first == [] {
      assert first + second == second;
    } else {
      assert (first + second)[1..] == first[1..] + second;
      var next := if first[0] == ".." then if stack == [] then [] else stack[..|stack| - 1]
        else if IsName(first[0]) then stack + [first[0]]
        else stack;
      FollowedInTwo(next, first[1..], second);
    }
  }

  /** A `..` takes back the name before it, at any place of a path. */
  lemma DotDotCancels(before: string, name: string, after: string)
    requires IsName(name) && '/' !in name
    ensures Normalized(before + "/" + name + "/../" + after) == Normalized(before + "/" + after)
    ensures Normalized(name + "/../" + after) == Normalized(after)
  {
    hide Split, IsName;
    var a, b := Split(before, '/'), Split(after, '/');
    SplitAppend(before, '/', after);
    SplitBack(name, after);
    SplitAppend(before, '/', name + "/../" + after);
    assert before + "/" + (name + "/../" + after) == before + "/" + name + "/../" + after;
    FollowedInTwo([], a, [name, ".."] + b);
    FollowedInTwo([], a, b);
    NameAndBack([], name, b);
    if Followed([], a).Some? { NameAndBack(Followed([], a).value, name, b); }
    hide Followed;
  }

  lemma SplitBack(name: string, after: string)
    requires '/' !in name
    ensures Split(name + "/../" + after, '/') == [name, ".."] + Split(after, '/')
  {
    hide Split;
    SplitPlain(name, '/');
    SplitPlain("..", '/');
    SplitAppend("..", '/', after);
    SplitAppend(name, '/', ".." + "/" + after);
    assert name + "/" + (".." + "/" + after) == name + "/../" + after;
    assert [name] + ([".."] + Split(after, '/')) == [name, ".."] + Split(after, '/');
  }

  lemma NameAndBack(stack: seq<string>, name: string, rest: seq<string>)
    requires IsName(name)
    ensures Followed(stack, [name, ".."] + rest) == Followed(stack, rest)
  {
    var down := stack + [name];
    assert ([name, ".."] + rest)[1..] == [".."] + rest && ([".."] + rest)[1..] == rest;
    assert Followed(down, [".."] + rest) == Followed(down[..|down| - 1], rest);
    assert down[..|down| - 1] == stack;
  }

  /** Empty segments and single dots stand for nothing. */
  lemma DotIsNothing(before: string, after: string)
    ensures Normalized(before + "/./" + after) == Normalized(before + "/" + after)
    ensures Normalized(before + "//" + after) == Normalized(before + "/" + after)
  {
    hide Split;
    SkippedPart(before, ".", after);
    SkippedPart(before, "", after);
    assert before + "/" + "." + "/" + after == before + "/./" + after;
    assert before + "/" + "" + "/" + after == before + "//" + after;
  }

  lemma SkippedPart(before: string, part: string, after: string)
    requires part == "." || part == ""
    ensures Normalized(before + "/" + part + "/" + after) == Normalized(before + "/" + after)
  {
    hide Split;
    var a, b := Split(before, '/'), Split(after, '/');
    SplitPlain(part, '/');
    SplitAppend(before, '/', after);
    SplitAppend(part, '/', after);
    SplitAppend(before, '/', part + "/" + after);
    assert before + "/" + (part + "/" + after) == before + "/" + part + "/" + after;
    FollowedInTwo([], a, [part] + b);
    FollowedInTwo([], a, b);
    assert ([part] + b)[1..] == b;
  }

  /** A path of names stands for itself, with or without a slash in front. */
  lemma NamesStay(names: seq<string>)
    requires Plain(names) && names != []
    ensures Normalized(Join(names, '/')) == Normalized("/" + Join(names, '/')) == Some("/" + Join(names, '/'))
  {
    SplitJoin(names, '/');
    SplitAppend("", '/', Join(names, '/'));
    assert "" + "/" + Join(names, '/') == "/" + Join(names, '/');
    hide Join;
    PlainIsFollowed([], names);
    assert [] + names == names;
    assert ([""] + names)[1..] == names;
  }
}
