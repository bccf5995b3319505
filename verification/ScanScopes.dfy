/** Relative paths and the exclusions that protect private state from being scanned. */
module ScanScopes {

  type Name = string

  // ----- text and components -----

  /** A name as a directory entry or a path component can carry it. */
  predicate IsName(n: Name) {
    n != "" && n != "." && n != ".." && '/' !in n
  }

  predicate AreNames(p: seq<Name>) {
    forall n <- p :: IsName(n)
  }

  /** `"/".join(parts)`. */
  function Join(parts: seq<Name>): string {
    if parts == [] then ""
    else if |parts| == 1 then parts[0]
    else parts[0] + "/" + Join(parts[1..])
  }

  /** `text.split("/")`. */
  function Split(text: string): (parts: seq<string>)
    ensures parts != []
  {
    if text == "" then [""]
    else if text[0] == '/' then [""] + Split(text[1..])
    else
      var rest := Split(text[1..]);
      [[text[0]] + rest[0]] + rest[1..]
  }

  lemma JoinOfNameAndRest(name: string, rest: seq<Name>)
    requires rest != []
    ensures Join([name] + rest) == name + "/" + Join(rest)
  {
    assert ([name] + rest)[1..] == rest;
  }

  lemma JoinUnfolds(parts: seq<Name>)
    requires parts != []
    ensures Join(parts) == if |parts| == 1 then parts[0] else parts[0] + "/" + Join(parts[1..])
  {
  }

  lemma Prepended(c: char, a: string, b: string, rest: string)
    ensures ([c] + a) + b + rest == [c] + (a + b + rest)
  {
  }

  lemma JoinOfLongerName(c: char, parts: seq<Name>)
    requires parts != []
    ensures Join([[c] + parts[0]] + parts[1..]) == [c] + Join(parts)
  {
    hide Join;
    var longer := [[c] + parts[0]] + parts[1..];
    assert longer[1..] == parts[1..];
    JoinUnfolds(longer);
    JoinUnfolds(parts);
    Prepended(c, parts[0], "/", Join(parts[1..]));
  }

  lemma {:induction false} JoinOfSplit(text: string)
    ensures Join(Split(text)) == text
    ensures forall part <- Split(text) :: '/' !in part
  {
    if text == "" {
      assert Join([""]) == "";
    } else {
      hide Join;
      JoinOfSplit(text[1..]);
      var rest := Split(text[1..]);
      assert text == [text[0]] + text[1..];
      if text[0] == '/' {
        JoinOfNameAndRest("", rest);
        assert "" + "/" + text[1..] == text;
      } else {
        JoinOfLongerName(text[0], rest);
        assert rest[0] in rest && forall part <- rest[1..] :: part in rest;
      }
    }
  }

  lemma {:induction false} SplitOfName(n: string)
    requires '/' !in n
    ensures Split(n) == [n]
  {
    if n != "" {
      SplitOfName(n[1..]);
      assert n == [n[0]] + n[1..];
    }
  }

  lemma {:induction false} SplitOfNameAndRest(n: string, text: string)
    requires '/' !in n
    ensures Split(n + "/" + text) == [n] + Split(text)
  {
    if n == "" {
      assert n + "/" + text == ['/'] + text;
    } else {
      SplitOfNameAndRest(n[1..], text);
      assert n == [n[0]] + n[1..];
      assert (n + "/" + text)[1..] == n[1..] + "/" + text;
    }
  }

  lemma {:induction false} SplitOfJoin(parts: seq<Name>)
    requires parts != [] && AreNames(parts)
    ensures Split(Join(parts)) == parts
  {
    hide Split;
    assert IsName(parts[0]);
    if |parts| == 1 {
      SplitOfName(parts[0]);
    } else {
      assert forall part <- parts[1..] :: part in parts;
      SplitOfJoin(parts[1..]);
      assert [parts[0]] + parts[1..] == parts;
      assert Join(parts) == parts[0] + "/" + Join(parts[1..]);
      SplitOfNameAndRest(parts[0], Join(parts[1..]));
    }
  }

  lemma {:induction false} JoinOfConcat(a: seq<Name>, b: seq<Name>)
    requires a != [] && b != []
    ensures Join(a + b) == Join(a) + "/" + Join(b)
  {
    if |a| == 1 {
      assert (a + b)[1..] == b;
    } else {
      JoinOfConcat(a[1..], b);
      assert (a + b)[1..] == a[1..] + b;
    }
  }

  // ----- the scanner's view of a relative path -----

  /** The path itself when it is acceptable, and the empty string otherwise. */
  function NormalizeRelativePath(value: string): string {
    if value == "" || '\0' in value || |value| > 1024 || '\\' in value then ""
    else
      var parts := Split(value);
      if (exists part <- parts :: part == "" || part == "." || part == "..") || ':' in parts[0] then ""
      else Join(parts)
  }

  /** Exactly the paths that consist of proper names and carry no forbidden character are accepted,
      unchanged; normalizing again changes nothing. */
  lemma NormalizedIsItself(value: string)
    ensures NormalizeRelativePath(value) in {"", value}
    ensures NormalizeRelativePath(value) != "" <==>
              0 < |value| <= 1024 && '\0' !in value && '\\' !in value
              && AreNames(Split(value)) && ':' !in Split(value)[0]
    ensures NormalizeRelativePath(NormalizeRelativePath(value)) == NormalizeRelativePath(value)
  {
    JoinOfSplit(value);
  }

  // ----- exclusions -----

  /** What `PurePosixPath` makes of a text: empty and single-dot components disappear. */
  function PathParts(parts: seq<string>): seq<string> {
    if parts == [] then []
    else (if parts[0] == "" || parts[0] == "." then [] else [parts[0]]) + PathParts(parts[1..])
  }

  datatype Exclusion = Invalid | Valid(parts: seq<Name>)

  /** One entry of the configured exclusions. */
  function NormalizeExclusion(value: string): Exclusion {
    if !(1 <= |value| <= 1024) || value[0] == '/' then Invalid
    else
      var parts := PathParts(Split(value));
      if ".." in parts then Invalid else Valid(parts)
  }

  lemma {:induction false} PathPartsAreProper(parts: seq<string>)
    ensures forall part <- PathParts(parts) :: part != "" && part != "." && part in parts
  {
    if parts != [] {
      PathPartsAreProper(parts[1..]);
    }
  }

  lemma {:induction false} PathPartsKeepNames(parts: seq<string>, part: string)
    ensures part in PathParts(parts) <==> part in parts && part != "" && part != "."
  {
    if parts != [] {
      PathPartsKeepNames(parts[1..], part);
      assert parts == [parts[0]] + parts[1..];
    }
  }

  /** An exclusion is accepted exactly if it has 1 to 1024 characters, does not start with a slash, and does
      not go up. */
  lemma AcceptedExclusionIff(value: string)
    ensures NormalizeExclusion(value).Valid? <==>
              0 < |value| < 1025 && value[0] != '/' && ".." !in Split(value)
  {
    PathPartsKeepNames(Split(value), "..");
  }

  lemma AcceptedExclusionHasNames(value: string)
    ensures NormalizeExclusion(value).Valid? ==> AreNames(NormalizeExclusion(value).parts)
  {
    JoinOfSplit(value);
    PathPartsAreProper(Split(value));
  }

  /** `PurePosixPath.as_posix`: the path without components is written as a dot. */
  function AsPosix(parts: seq<Name>): string {
    if parts == [] then "." else Join(parts)
  }

  /** The scanner's test: the text is the exclusion or continues it after a slash. */
  predicate IsExcludedText(path: string, exclusions: seq<string>) {
    exists e <- exclusions :: path == e || e + "/" <= path
  }

  /** The walk's test: the exclusion is the path or one of its ancestors. */
  predicate IsExcludedPath(path: seq<Name>, exclusions: seq<seq<Name>>) {
    exists e <- exclusions :: e <= path
  }

  function Texts(exclusions: seq<seq<Name>>): seq<string> {
    seq(|exclusions|, i requires 0 <= i < |exclusions| => AsPosix(exclusions[i]))
  }

  lemma {:induction false} PrefixByText(e: seq<Name>, p: seq<Name>)
    requires e != [] && p != [] && AreNames(e) && AreNames(p)
    ensures (Join(p) == Join(e) || Join(e) + "/" <= Join(p)) <==> e <= p
  {
    if e <= p {
      JoinOfPrefix(e, p);
    }
    if Join(p) == Join(e) {
      SplitOfJoin(e);
      SplitOfJoin(p);
    } else if Join(e) + "/" <= Join(p) {
      var rest := Join(p)[|Join(e)| + 1..];
      assert Join(p) == Join(e) + "/" + rest;
      SplitOfJoinAndRest(e, rest);
      SplitOfJoin(p);
    }
  }

  lemma {:induction false} JoinOfPrefix(e: seq<Name>, p: seq<Name>)
    requires e != [] && e <= p
    ensures Join(p) == Join(e) || Join(e) + "/" <= Join(p)
  {
    if |e| == 1 {
      if |p| > 1 {
        assert p[0] + "/" <= Join(p);
      } else {
        assert p == e;
      }
    } else {
      JoinOfPrefix(e[1..], p[1..]);
      assert Join(e) == e[0] + "/" + Join(e[1..]);
      assert Join(p) == e[0] + "/" + Join(p[1..]);
    }
  }

  lemma {:induction false} SplitOfJoinAndRest(parts: seq<Name>, text: string)
    requires parts != [] && AreNames(parts)
    ensures Split(Join(parts) + "/" + text) == parts + Split(text)
  {
    hide Split, Join, IsName;
    assert IsName(parts[0]);
    NameHasNoSlash(parts[0]);
    if |parts| == 1 {
      assert [parts[0]] == parts;
      JoinOfOne(parts);
      SplitOfNameAndRest(parts[0], text);
    } else {
      assert forall part <- parts[1..] :: part in parts;
      SplitOfJoinAndRest(parts[1..], text);
      var tail := Join(parts[1..]) + "/" + text;
      RegroupJoin(parts, text);
      SplitOfNameAndRest(parts[0], tail);
      assert [parts[0]] + parts[1..] == parts;
    }
  }

  lemma NameHasNoSlash(n: Name)
    requires IsName(n)
    ensures '/' !in n
  {
  }

  lemma JoinOfOne(parts: seq<Name>)
    requires |parts| == 1
    ensures Join(parts) == parts[0]
  {
  }

  lemma RegroupJoin(parts: seq<Name>, text: string)
    requires |parts| > 1
    ensures Join(parts) + "/" + text == parts[0] + "/" + (Join(parts[1..]) + "/" + text)
  {
    var rest := Join(parts[1..]);
    assert Join(parts) == parts[0] + "/" + rest;
    assert (parts[0] + "/" + rest) + "/" + text == parts[0] + "/" + (rest + "/" + text);
  }

  lemma DotIsNoPrefix(p: seq<Name>)
    requires p != [] && AreNames(p)
    ensures Join(p) != "." && !("./" <= Join(p))
  {
    var first := p[0];
    assert IsName(first) && first <= Join(p);
    if |first| == 1 {
      assert first == [Join(p)[0]];
    } else {
      assert first[1] in first && Join(p)[1] == first[1];
    }
  }

  /** The two tests agree on a path below the root unless the root itself was excluded (the
      configured text `.`): then the walk skips everything, while the scanner protects only what
      the other exclusions cover. */
  lemma ExclusionTestsAgreeIff(path: seq<Name>, exclusions: seq<seq<Name>>)
    requires path != [] && AreNames(path) && forall e <- exclusions :: AreNames(e)
    ensures (IsExcludedText(Join(path), Texts(exclusions)) <==> IsExcludedPath(path, exclusions))
              <==> ([] in exclusions ==> IsExcludedPath(path, Proper(exclusions)))
    ensures IsExcludedText(Join(path), Texts(exclusions)) ==> IsExcludedPath(path, exclusions)
  {
    TextTestIgnoresRoot(path, exclusions);
    ProperKeepsTheRest(exclusions);
    if IsExcludedPath(path, exclusions) && !IsExcludedPath(path, Proper(exclusions)) {
      var e :| e in exclusions && e <= path;
      assert e == [];
    }
    if [] in exclusions {
      assert [] <= path;
    }
    if IsExcludedPath(path, Proper(exclusions)) {
      var e :| e in Proper(exclusions) && e <= path;
      assert e in exclusions;
    }
  }

  /** The exclusions other than the root. */
  function Proper(exclusions: seq<seq<Name>>): seq<seq<Name>> {
    if exclusions == [] then []
    else (if exclusions[0] == [] then [] else [exclusions[0]]) + Proper(exclusions[1..])
  }

  lemma {:induction false} ProperKeepsTheRest(exclusions: seq<seq<Name>>)
    ensures forall e :: e in Proper(exclusions) <==> e in exclusions && e != []
  {
    if exclusions != [] {
      ProperKeepsTheRest(exclusions[1..]);
      assert exclusions == [exclusions[0]] + exclusions[1..];
    }
  }

  lemma TextTestIgnoresRoot(path: seq<Name>, exclusions: seq<seq<Name>>)
    requires path != [] && AreNames(path) && forall e <- exclusions :: AreNames(e)
    ensures IsExcludedText(Join(path), Texts(exclusions)) <==> IsExcludedPath(path, Proper(exclusions))
  {
    hide Join, IsName, Proper;
    ProperKeepsTheRest(exclusions);
    DotIsNoPrefix(path);
    forall i | 0 <= i < |exclusions| && exclusions[i] != []
      ensures Texts(exclusions)[i] == Join(exclusions[i])
      ensures (Join(path) == Join(exclusions[i]) || Join(exclusions[i]) + "/" <= Join(path))
                <==> exclusions[i] <= path
    {
      assert exclusions[i] in exclusions;
      PrefixByText(exclusions[i], path);
    }
    if IsExcludedText(Join(path), Texts(exclusions)) {
      var text :| text in Texts(exclusions) && (Join(path) == text || text + "/" <= Join(path));
      var i :| 0 <= i < |exclusions| && Texts(exclusions)[i] == text;
      assert "." + "/" == "./";
      assert exclusions[i] in Proper(exclusions);
    }
    if IsExcludedPath(path, Proper(exclusions)) {
      var e :| e in Proper(exclusions) && e <= path;
      var i :| 0 <= i < |exclusions| && exclusions[i] == e;
      assert Texts(exclusions)[i] in Texts(exclusions);
    }
  }

  /** Excluding `.` hides every file from the walk, while the scanner would still scan each one. */
  lemma ExcludingTheRootHidesEverything(path: seq<Name>)
    requires path != [] && AreNames(path)
    ensures NormalizeExclusion(".") == Valid([])
    ensures IsExcludedPath(path, [[]]) && !IsExcludedText(Join(path), Texts([[]]))
  {
    SplitOfName(".");
    assert PathParts(["."]) == [] + PathParts([]);
    var root: seq<Name> := [];
    assert root in [root] && root <= path;
    ProperKeepsTheRest([root]);
    TextTestIgnoresRoot(path, [root]);
  }
}
