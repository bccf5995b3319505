/** Conflict-free target naming for moves, renames and the trash. */
module TargetNames {
  import opened Wrappers
  import opened FileTree

  datatype ConflictPolicy = Fail | Rename

  datatype NamingError = DestinationExists | DuplicateDestinationName | UniqueNameUnavailable

  const MAX_ORDINAL := 1000

  // ----- stems and suffixes -----

  /** Index of the last dot, or -1. */
  function LastDot(name: Name): (i: int)
    ensures -1 <= i < |name|
    ensures i >= 0 ==> name[i] == '.'
    ensures forall j :: i < j < |name| ==> name[j] != '.'
  {
    if name == "" then -1
    else if name[|name| - 1] == '.' then |name| - 1
    else LastDot(name[..|name| - 1])
  }

  /** A leading or a trailing dot does not start a suffix. */
  function SuffixStart(name: Name): (i: nat)
    ensures i <= |name|
  {
    var i := LastDot(name);
    if 0 < i < |name| - 1 then i else |name|
  }

  function Stem(name: Name): Name {
    name[..SuffixStart(name)]
  }

  function Suffix(name: Name): Name {
    name[SuffixStart(name)..]
  }

  function Decimal(n: nat): (s: string)
    ensures s != "" && forall c :: c in s ==> '0' <= c <= '9'
  {
    var digit := ['0' + (n % 10) as char];
    if n < 10 then digit else Decimal(n / 10) + digit
  }

  /** What a string of digits stands for. */
  function Value(digits: string): nat
    requires forall c <- digits :: '0' <= c <= '9'
  {
    if digits == "" then 0
    else
      var rest, last := digits[..|digits| - 1], digits[|digits| - 1];
      assert last in digits && forall c <- rest :: c in digits;
      10 * Value(rest) + (last - '0') as nat
  }

  /** The numeral of a number reads as that number and has no leading zero. */
  lemma {:induction false} DecimalReads(n: nat)
    ensures Value(Decimal(n)) == n
    ensures |Decimal(n)| > 1 ==> Decimal(n)[0] != '0'
    ensures n > 0 ==> Decimal(n)[0] != '0'
  {
    if n >= 10 {
      DecimalReads(n / 10);
      var s := Decimal(n);
      assert s[..|s| - 1] == Decimal(n / 10);
    }
  }

  function Numbered(name: Name, ordinal: nat): (n: Name)
    ensures |n| > |name|
  {
    Stem(name) + " (" + Decimal(ordinal) + ")" + Suffix(name)
  }

  function BaseName(p: Path): Name
    requires p != []
  {
    p[|p| - 1]
  }

  function NumberedPath(p: Path, ordinal: nat): (q: Path)
    requires p != []
    ensures q != [] && Parent(q) == Parent(p)
    ensures |BaseName(q)| > |BaseName(p)|
  {
    Parent(p) + [Numbered(BaseName(p), ordinal)]
  }

  /** A name is its stem and its suffix. There is a suffix exactly if the last dot is neither the first
      nor the last character, and then the suffix is what starts there. */
  lemma SuffixIff(name: Name)
    ensures Stem(name) + Suffix(name) == name
    ensures forall i :: 0 < i < |name| - 1 && name[i] == '.' && (forall j :: i < j < |name| ==> name[j] != '.') ==>
              Suffix(name) == name[i..]
    ensures Suffix(name) != "" ==>
              Stem(name) != "" && |Suffix(name)| > 1 && Suffix(name)[0] == '.'
              && forall j :: 0 < j < |Suffix(name)| ==> Suffix(name)[j] != '.'
  {
    forall i | 0 < i < |name| - 1 && name[i] == '.' && (forall j :: i < j < |name| ==> name[j] != '.')
      ensures Suffix(name) == name[i..]
    {
      LastDotIs(name, i);
    }
  }

  /** A number in parentheses comes between stem and suffix. */
  lemma NumberedSpells(name: Name, ordinal: nat)
    ensures exists digits: string ::
              && (forall c <- digits :: '0' <= c <= '9') && Value(digits) == ordinal
              && digits != "" && (ordinal > 0 ==> digits[0] != '0')
              && Numbered(name, ordinal) == Stem(name) + " (" + digits + ")" + Suffix(name)
  {
    DecimalReads(ordinal);
    var digits := Decimal(ordinal);
    assert (forall c <- digits :: '0' <= c <= '9') && Value(digits) == ordinal;
  }

  /** Different ordinals give different names. */
  lemma NumberedDiffer(p: Path, j: nat, k: nat)
    requires p != []
    ensures NumberedPath(p, j) == NumberedPath(p, k) <==> j == k
  {
    if NumberedPath(p, j) == NumberedPath(p, k) {
      var name := BaseName(p);
      assert BaseName(NumberedPath(p, j)) == Numbered(name, j);
      assert BaseName(NumberedPath(p, k)) == Numbered(name, k);
      var before, after := Stem(name) + " (", ")" + Suffix(name);
      assert Numbered(name, j) == before + Decimal(j) + after;
      assert Numbered(name, k) == before + Decimal(k) + after;
      SameInside(before, Decimal(j), Decimal(k), after);
      DecimalReads(j);
      DecimalReads(k);
    }
  }

  lemma SameInside(before: string, a: string, b: string, after: string)
    requires before + a + after == before + b + after
    ensures a == b
  {
    assert |a| == |b|;
    assert (before + a + after)[|before|..|before| + |a|] == a;
    assert (before + b + after)[|before|..|before| + |b|] == b;
  }

  /** Numbering keeps a file's suffix, except for a name that ends in a dot. */
  lemma NumberingKeepsSuffixIff(name: Name, ordinal: nat)
    ensures Suffix(Numbered(name, ordinal)) == Suffix(name) <==>
            !(|name| >= 2 && name[|name| - 1] == '.')
  {
    var digits := Decimal(ordinal);
    var insert := " (" + digits + ")";
    var numbered := Numbered(name, ordinal);
    var s := SuffixStart(name);
    var i := LastDot(name);
    assert numbered == name[..s] + insert + name[s..];
    forall j | 0 <= j < |insert| ensures insert[j] != '.' {
      if 2 <= j < |insert| - 1 {
        assert insert[j] == digits[j - 2] && digits[j - 2] in digits;
      }
    }
    if s < |name| {
      LastDotIs(numbered, s + |insert|);
    } else {
      assert numbered == name + insert;
      assert forall j :: |name| <= j < |numbered| ==> numbered[j] == insert[j - |name|];
      LastDotIs(numbered, i);
    }
  }

  lemma LastDotIs(name: Name, i: int)
    requires -1 <= i < |name|
    requires i >= 0 ==> name[i] == '.'
    requires forall j :: i < j < |name| ==> name[j] != '.'
    ensures LastDot(name) == i
  {
  }

  // ----- one target -----

  /** What a search for a free name around `path` may answer, and when. */
  ghost predicate IsFirstFree(t: Tree, path: Path, policy: ConflictPolicy, r: Result<Path, NamingError>)
    requires path != []
  {
    if path !in t then r == Success(path)
    else if policy.Fail? then r == Failure(DestinationExists)
    else if forall k :: 1 <= k <= MAX_ORDINAL ==> NumberedPath(path, k) in t then
      r == Failure(UniqueNameUnavailable)
    else
      exists k :: 1 <= k <= MAX_ORDINAL && r == Success(NumberedPath(path, k))
        && NumberedPath(path, k) !in t
        && forall j :: 1 <= j < k ==> NumberedPath(path, j) in t
  }

  /** Neither the path nor any numbered form of it is free. */
  ghost predicate Exhausted(t: Tree, path: Path)
    requires path != []
  {
    path in t && forall k :: 1 <= k <= MAX_ORDINAL ==> NumberedPath(path, k) in t
  }

  /** Some name in the directory is exhausted. */
  ghost predicate SomeNameExhausted(t: Tree, directory: Path) {
    exists q :: q != [] && Parent(q) == directory && Exhausted(t, q)
  }

  /** What lies directly in a directory. */
  function EntriesIn(t: Tree, directory: Path): set<Path> {
    set p | p in t && p != [] && Parent(p) == directory
  }

  /** The path and its first `k` numbered forms. */
  function Forms(path: Path, k: nat): (forms: set<Path>)
    requires path != []
    ensures path in forms && forall p <- forms :: p == path || exists j :: 1 <= j <= k && p == NumberedPath(path, j)
  {
    if k == 0 then {path} else Forms(path, k - 1) + {NumberedPath(path, k)}
  }

  lemma {:induction false} FormsDiffer(path: Path, k: nat)
    requires path != []
    ensures |Forms(path, k)| == k + 1
  {
    hide NumberedPath;
    if k > 0 {
      FormsDiffer(path, k - 1);
      if NumberedPath(path, k) in Forms(path, k - 1) {
        var j :| 1 <= j <= k - 1 && NumberedPath(path, k) == NumberedPath(path, j);
        NumberedDiffer(path, j, k);
        assert false;
      }
    }
  }

  /** A name and all its numbered forms are taken only in a directory with more than a thousand entries. */
  lemma ExhaustedIsCrowded(t: Tree, path: Path)
    requires path != [] && Exhausted(t, path)
    ensures |EntriesIn(t, Parent(path))| > MAX_ORDINAL
  {
    hide NumberedPath, Forms;
    FormsDiffer(path, MAX_ORDINAL);
    forall p <- Forms(path, MAX_ORDINAL) ensures p in EntriesIn(t, Parent(path)) {
      assert forall j :: NumberedPath(path, j) != [] && Parent(NumberedPath(path, j)) == Parent(path);
    }
    SubsetIsSmaller(Forms(path, MAX_ORDINAL), EntriesIn(t, Parent(path)));
  }

  lemma SubsetIsSmaller(a: set<Path>, b: set<Path>)
    requires a <= b
    ensures |a| <= |b|
  {
    assert b == a + (b - a);
  }

  method AvailableTarget(t: Tree, path: Path, policy: ConflictPolicy)
    returns (r: Result<Path, NamingError>)
    requires path != []
    ensures IsFirstFree(t, path, policy, r)
    ensures policy.Rename? && |EntriesIn(t, Parent(path))| <= MAX_ORDINAL ==> r.Success?
  {
    if Exhausted(t, path) { ExhaustedIsCrowded(t, path); }
    if path !in t {
      return Success(path);
    }
    if policy.Fail? {
      return Failure(DestinationExists);
    }
    for ordinal := 1 to MAX_ORDINAL + 1
      invariant forall j :: 1 <= j < ordinal ==> NumberedPath(path, j) in t
    {
      var candidate := NumberedPath(path, ordinal);
      if candidate !in t {
        return Success(candidate);
      }
    }
    return Failure(UniqueNameUnavailable);
  }

  /** A search has only one answer. */
  lemma FirstFreeIsUnique(t: Tree, path: Path, policy: ConflictPolicy,
                          r: Result<Path, NamingError>, s: Result<Path, NamingError>)
    requires path != [] && IsFirstFree(t, path, policy, r) && IsFirstFree(t, path, policy, s)
    ensures r == s
  {
    hide NumberedPath;
  }

  lemma FirstFreeIsBeside(t: Tree, path: Path, policy: ConflictPolicy, r: Result<Path, NamingError>)
    requires path != [] && IsFirstFree(t, path, policy, r)
    ensures r.Success? ==>
              && r.value != [] && Parent(r.value) == Parent(path) && r.value !in t
              && |BaseName(r.value)| >= |BaseName(path)| && (r.value == path <==> path !in t)
    ensures policy.Rename? && r.Failure? ==>
              r.error == UniqueNameUnavailable && SomeNameExhausted(t, Parent(path))
  {
    if policy.Rename? && r.Failure? {
      assert Exhausted(t, path);
    }
  }

  // ----- a target that no earlier item has claimed -----

  /** Names tried one after the other: the first free form of each was claimed, and the next one is
      that form with a number. */
  ghost predicate Tries(t: Tree, reserved: set<Path>, tried: seq<Path>) {
    && tried != [] && HaveNames(tried)
    && forall i :: 0 < i < |tried| ==> NextTry(t, reserved, tried[i - 1], tried[i])
  }

  ghost predicate NextTry(t: Tree, reserved: set<Path>, name: Path, next: Path)
    requires name != []
  {
    exists p <- reserved ::
      p != [] && IsFirstFree(t, name, Rename, Success(p)) && next == NumberedPath(p, 1)
  }

  /** What naming one item answers when earlier items have claimed `reserved`. */
  ghost predicate IsUnreserved(t: Tree, candidate: Path, policy: ConflictPolicy, reserved: set<Path>,
                               r: Result<Path, NamingError>)
    requires candidate != []
  {
    match policy
    case Fail =>
      r == if candidate in t then Failure(DestinationExists)
           else if candidate in reserved then Failure(DuplicateDestinationName)
           else Success(candidate)
    case Rename =>
      exists tried: seq<Path> ::
        && Tries(t, reserved, tried) && tried[0] == candidate
        && IsFirstFree(t, tried[|tried| - 1], Rename, r) && (r.Success? ==> r.value !in reserved)
  }

  lemma NextTryIsUnique(t: Tree, reserved: set<Path>, name: Path, a: Path, b: Path)
    requires name != [] && NextTry(t, reserved, name, a) && NextTry(t, reserved, name, b)
    ensures a == b
  {
    hide IsFirstFree, NumberedPath;
    var p :| p in reserved && p != [] && IsFirstFree(t, name, Rename, Success(p)) && a == NumberedPath(p, 1);
    var q :| q in reserved && q != [] && IsFirstFree(t, name, Rename, Success(q)) && b == NumberedPath(q, 1);
    FirstFreeIsUnique(t, name, Rename, Success(p), Success(q));
  }

  lemma {:induction false} TriesAgree(t: Tree, reserved: set<Path>, a: seq<Path>, b: seq<Path>, i: nat)
    requires Tries(t, reserved, a) && Tries(t, reserved, b) && a[0] == b[0] && i < |a| && i < |b|
    ensures a[i] == b[i]
  {
    hide NextTry;
    if i > 0 {
      TriesAgree(t, reserved, a, b, i - 1);
      NextTryIsUnique(t, reserved, a[i - 1], a[i], b[i]);
    }
  }

  lemma NoTryAfterTheAnswer(t: Tree, reserved: set<Path>, a: seq<Path>, b: seq<Path>, r: Result<Path, NamingError>)
    requires Tries(t, reserved, a) && Tries(t, reserved, b) && a[0] == b[0]
    requires IsFirstFree(t, a[|a| - 1], Rename, r) && (r.Success? ==> r.value !in reserved)
    ensures |b| <= |a|
  {
    hide IsFirstFree;
    if |a| < |b| {
      TriesAgree(t, reserved, a, b, |a| - 1);
      assert NextTry(t, reserved, b[|a| - 1], b[|a|]);
      var p :| p in reserved && p != [] && IsFirstFree(t, b[|a| - 1], Rename, Success(p));
      FirstFreeIsUnique(t, a[|a| - 1], Rename, r, Success(p));
    }
  }

  /** Naming an item has only one answer. */
  lemma UnreservedIsUnique(t: Tree, candidate: Path, policy: ConflictPolicy, reserved: set<Path>,
                           r: Result<Path, NamingError>, s: Result<Path, NamingError>)
    requires candidate != []
    requires IsUnreserved(t, candidate, policy, reserved, r) && IsUnreserved(t, candidate, policy, reserved, s)
    ensures r == s
  {
    hide IsFirstFree, NextTry;
    if policy.Rename? {
      var a: seq<Path> :| Tries(t, reserved, a) && a[0] == candidate
        && IsFirstFree(t, a[|a| - 1], Rename, r) && (r.Success? ==> r.value !in reserved);
      var b: seq<Path> :| Tries(t, reserved, b) && b[0] == candidate
        && IsFirstFree(t, b[|b| - 1], Rename, s) && (s.Success? ==> s.value !in reserved);
      NoTryAfterTheAnswer(t, reserved, a, b, r);
      NoTryAfterTheAnswer(t, reserved, b, a, s);
      TriesAgree(t, reserved, a, b, |a| - 1);
      FirstFreeIsUnique(t, a[|a| - 1], Rename, r, s);
    }
  }

  lemma {:induction false} TriesStayBeside(t: Tree, reserved: set<Path>, tried: seq<Path>, i: nat)
    requires Tries(t, reserved, tried) && i < |tried|
    ensures Parent(tried[i]) == Parent(tried[0]) && |BaseName(tried[i])| >= |BaseName(tried[0])| + i
    ensures i > 0 && tried[0] !in t ==> tried[0] in reserved
  {
    hide IsFirstFree;
    if i > 0 {
      TriesStayBeside(t, reserved, tried, i - 1);
      assert NextTry(t, reserved, tried[i - 1], tried[i]);
      var p :| p in reserved && p != [] && IsFirstFree(t, tried[i - 1], Rename, Success(p))
               && tried[i] == NumberedPath(p, 1);
      FirstFreeIsBeside(t, tried[i - 1], Rename, Success(p));
    }
  }

  /** The target of an item is free and unclaimed, lies where it was meant to, and has another name
      exactly when its own is taken or claimed. Under `Rename` naming fails only in a directory where
      some name and all its numbered forms are taken. */
  lemma UnreservedIsGood(t: Tree, candidate: Path, policy: ConflictPolicy, reserved: set<Path>,
                         r: Result<Path, NamingError>)
    requires candidate != [] && IsUnreserved(t, candidate, policy, reserved, r)
    ensures r.Success? ==>
              && r.value != [] && Parent(r.value) == Parent(candidate)
              && r.value !in t && r.value !in reserved
              && (r.value == candidate <==> candidate !in t && candidate !in reserved)
    ensures policy.Rename? && r.Failure? ==>
              r.error == UniqueNameUnavailable && SomeNameExhausted(t, Parent(candidate))
  {
    hide IsFirstFree;
    if policy.Rename? {
      var tried: seq<Path> :| Tries(t, reserved, tried) && tried[0] == candidate
        && IsFirstFree(t, tried[|tried| - 1], Rename, r) && (r.Success? ==> r.value !in reserved);
      var last := |tried| - 1;
      TriesStayBeside(t, reserved, tried, last);
      FirstFreeIsBeside(t, tried[last], Rename, r);
    }
  }

  // ----- all targets of a selection -----

  function Candidate(source: Path, container: Path): (c: Path)
    requires source != []
    ensures c != [] && Parent(c) == container
  {
    container + [BaseName(source)]
  }

  ghost predicate HaveNames(sources: seq<Path>) {
    forall i :: 0 <= i < |sources| ==> sources[i] != []
  }

  /** The candidate of item `i` is free on disk and not claimed by an earlier item. */
  ghost predicate Unclaimed(t: Tree, sources: seq<Path>, container: Path, i: nat)
    requires i < |sources| && HaveNames(sources)
  {
    && Candidate(sources[i], container) !in t
    && forall j :: 0 <= j < i ==>
         Candidate(sources[j], container) != Candidate(sources[i], container)
  }

  ghost predicate GoodTargets(t: Tree, container: Path, targets: seq<Path>) {
    && (forall i :: 0 <= i < |targets| ==>
          targets[i] != [] && Parent(targets[i]) == container && targets[i] !in t)
    && (forall i, j :: 0 <= i < j < |targets| ==> targets[i] != targets[j])
  }

  ghost predicate AllUnclaimed(t: Tree, sources: seq<Path>, container: Path)
    requires HaveNames(sources)
  {
    forall i :: 0 <= i < |sources| ==> Unclaimed(t, sources, container, i)
  }

  /** Two of the items have the same name. */
  ghost predicate ShareName(sources: seq<Path>)
    requires HaveNames(sources)
  {
    exists i, j :: 0 <= i < j < |sources| && BaseName(sources[i]) == BaseName(sources[j])
  }

  ghost predicate NothingIn(t: Tree, container: Path) {
    forall q {:trigger Parent(q)} :: q in t && q != [] ==> Parent(q) != container
  }

  /** Where nothing is in the container only items of the same name are in each other's way. */
  lemma UnclaimedWhereNothingIs(t: Tree, sources: seq<Path>, container: Path)
    requires HaveNames(sources) && NothingIn(t, container)
    ensures AllUnclaimed(t, sources, container) <==> !ShareName(sources)
    ensures !SomeNameExhausted(t, container)
  {
    forall i | 0 <= i < |sources| ensures Candidate(sources[i], container) !in t {
      assert Parent(Candidate(sources[i], container)) == container;
    }
    forall i, j | 0 <= i < |sources| && 0 <= j < |sources|
      ensures Candidate(sources[i], container) == Candidate(sources[j], container) <==>
                BaseName(sources[i]) == BaseName(sources[j])
    {
      assert BaseName(Candidate(sources[i], container)) == BaseName(sources[i]);
      assert BaseName(Candidate(sources[j], container)) == BaseName(sources[j]);
    }
    if !AllUnclaimed(t, sources, container) {
      var i :| 0 <= i < |sources| && !Unclaimed(t, sources, container, i);
      var j :| 0 <= j < i && Candidate(sources[j], container) == Candidate(sources[i], container);
      assert BaseName(sources[j]) == BaseName(sources[i]);
    }
    if ShareName(sources) {
      var i, j :| 0 <= i < j < |sources| && BaseName(sources[i]) == BaseName(sources[j]);
      assert !Unclaimed(t, sources, container, j);
    }
  }

  function Claimed(targets: seq<Path>): set<Path> {
    set q | q in targets
  }

  /** The first items have these targets. */
  ghost predicate Named(t: Tree, sources: seq<Path>, container: Path, policy: ConflictPolicy, targets: seq<Path>)
    requires HaveNames(sources) && |targets| <= |sources|
  {
    forall i :: 0 <= i < |targets| ==>
      IsUnreserved(t, Candidate(sources[i], container), policy, Claimed(targets[..i]), Success(targets[i]))
  }

  ghost predicate NamingFailsAfter(t: Tree, sources: seq<Path>, container: Path, policy: ConflictPolicy,
                                   targets: seq<Path>, error: NamingError)
    requires HaveNames(sources)
  {
    && |targets| < |sources| && Named(t, sources, container, policy, targets)
    && IsUnreserved(t, Candidate(sources[|targets|], container), policy, Claimed(targets), Failure(error))
  }

  /** Some item gets no target. */
  ghost predicate NamingFails(t: Tree, sources: seq<Path>, container: Path, policy: ConflictPolicy)
    requires HaveNames(sources)
  {
    exists targets, error :: NamingFailsAfter(t, sources, container, policy, targets, error)
  }

  lemma OneMoreNamed(t: Tree, sources: seq<Path>, container: Path, policy: ConflictPolicy,
                     targets: seq<Path>, target: Path)
    requires HaveNames(sources) && |targets| < |sources| && Named(t, sources, container, policy, targets)
    requires IsUnreserved(t, Candidate(sources[|targets|], container), policy, Claimed(targets), Success(target))
    ensures Named(t, sources, container, policy, targets + [target])
  {
    hide IsUnreserved, Candidate;
    var more := targets + [target];
    assert forall j :: 0 <= j <= |targets| ==> more[..j] == targets[..j];
    assert targets[..|targets|] == targets;
  }

  /** The targets of the first items are determined. */
  lemma {:induction false} NamedIsUnique(t: Tree, sources: seq<Path>, container: Path, policy: ConflictPolicy,
                                         a: seq<Path>, b: seq<Path>, k: nat)
    requires HaveNames(sources) && k <= |a| <= |sources| && k <= |b| <= |sources|
    requires Named(t, sources, container, policy, a) && Named(t, sources, container, policy, b)
    ensures a[..k] == b[..k]
  {
    hide IsUnreserved, Candidate;
    if k > 0 {
      NamedIsUnique(t, sources, container, policy, a, b, k - 1);
      UnreservedIsUnique(t, Candidate(sources[k - 1], container), policy, Claimed(a[..k - 1]),
                         Success(a[k - 1]), Success(b[k - 1]));
      assert a[..k] == a[..k - 1] + [a[k - 1]] && b[..k] == b[..k - 1] + [b[k - 1]];
    }
  }

  /** Either every item gets its target, or naming fails. */
  lemma NamedOrFails(t: Tree, sources: seq<Path>, container: Path, policy: ConflictPolicy, targets: seq<Path>)
    requires HaveNames(sources) && |targets| == |sources| && Named(t, sources, container, policy, targets)
    ensures !NamingFails(t, sources, container, policy)
  {
    hide IsUnreserved, Candidate, Named;
    if NamingFails(t, sources, container, policy) {
      var first, error :| NamingFailsAfter(t, sources, container, policy, first, error);
      NamedIsUnique(t, sources, container, policy, first, targets, |first|);
      assert first[..|first|] == first;
      NamedAt(t, sources, container, policy, targets, |first|);
      UnreservedIsUnique(t, Candidate(sources[|first|], container), policy, Claimed(first),
                         Success(targets[|first|]), Failure(error));
    }
  }

  lemma NamedAt(t: Tree, sources: seq<Path>, container: Path, policy: ConflictPolicy, targets: seq<Path>, i: nat)
    requires HaveNames(sources) && i < |targets| <= |sources| && Named(t, sources, container, policy, targets)
    ensures IsUnreserved(t, Candidate(sources[i], container), policy, Claimed(targets[..i]), Success(targets[i]))
  {
  }

  /** The targets are free, distinct and directly in the container, and an item is renamed exactly when
      its name is taken on disk or by an earlier item. */
  lemma NamedAreGood(t: Tree, sources: seq<Path>, container: Path, policy: ConflictPolicy, targets: seq<Path>)
    requires HaveNames(sources) && |targets| <= |sources| && Named(t, sources, container, policy, targets)
    ensures GoodTargets(t, container, targets)
    ensures forall i :: 0 <= i < |targets| ==>
              (targets[i] == Candidate(sources[i], container) <==>
               Candidate(sources[i], container) !in t && Candidate(sources[i], container) !in targets[..i])
  {
    hide IsUnreserved, Candidate;
    forall i | 0 <= i < |targets|
      ensures targets[i] != [] && Parent(targets[i]) == container && targets[i] !in t && targets[i] !in targets[..i]
      ensures targets[i] == Candidate(sources[i], container) <==>
               Candidate(sources[i], container) !in t && Candidate(sources[i], container) !in targets[..i]
    {
      UnreservedIsGood(t, Candidate(sources[i], container), policy, Claimed(targets[..i]), Success(targets[i]));
    }
    forall i, j | 0 <= i < j < |targets| ensures targets[i] != targets[j] {
      assert targets[..j][i] == targets[i];
    }
  }

  /** Under `Fail` naming fails exactly when some name is taken or shared. */
  lemma NamingFailsIff(t: Tree, sources: seq<Path>, container: Path)
    requires HaveNames(sources)
    ensures NamingFails(t, sources, container, Fail) <==> !AllUnclaimed(t, sources, container)
  {
    hide Unclaimed, Candidate;
    if NamingFails(t, sources, container, Fail) {
      var targets, error :| NamingFailsAfter(t, sources, container, Fail, targets, error);
      KeptNames(t, sources, container, targets);
    } else {
      CanKeepNames(t, sources, container, |sources|);
    }
  }

  function Candidates(sources: seq<Path>, container: Path): seq<Path>
    requires HaveNames(sources)
  {
    seq(|sources|, i requires 0 <= i < |sources| => Candidate(sources[i], container))
  }

  lemma KeptNames(t: Tree, sources: seq<Path>, container: Path, targets: seq<Path>)
    requires HaveNames(sources) && |targets| < |sources| && Named(t, sources, container, Fail, targets)
    ensures var candidate := Candidate(sources[|targets|], container);
            Unclaimed(t, sources, container, |targets|) <==> candidate !in t && candidate !in Claimed(targets)
    ensures targets == Candidates(sources, container)[..|targets|]
  {
    hide Candidate;
  }

  lemma {:induction false} CanKeepNames(t: Tree, sources: seq<Path>, container: Path, k: nat)
    requires HaveNames(sources) && k <= |sources| && !NamingFails(t, sources, container, Fail)
    ensures forall i :: 0 <= i < k ==> Unclaimed(t, sources, container, i)
    ensures Named(t, sources, container, Fail, Candidates(sources, container)[..k])
  {
    hide Candidate;
    if k > 0 {
      CanKeepNames(t, sources, container, k - 1);
      var targets := Candidates(sources, container)[..k - 1];
      var candidate := Candidate(sources[k - 1], container);
      KeptNames(t, sources, container, targets);
      if candidate in t {
        assert NamingFailsAfter(t, sources, container, Fail, targets, DestinationExists);
      } else if candidate in Claimed(targets) {
        assert NamingFailsAfter(t, sources, container, Fail, targets, DuplicateDestinationName);
      } else {
        OneMoreNamed(t, sources, container, Fail, targets, candidate);
        assert targets + [candidate] == Candidates(sources, container)[..k];
      }
    }
  }

  /** Under `Rename` naming can fail only where some name is exhausted. */
  lemma NamingFailsWhereExhausted(t: Tree, sources: seq<Path>, container: Path)
    requires HaveNames(sources) && NamingFails(t, sources, container, Rename)
    ensures SomeNameExhausted(t, container)
  {
    hide IsUnreserved, SomeNameExhausted;
    var targets, error :| NamingFailsAfter(t, sources, container, Rename, targets, error);
    UnreservedIsGood(t, Candidate(sources[|targets|], container), Rename, Claimed(targets), Failure(error));
  }

  /** Where nothing is in the container naming fails exactly under `Fail` with two items of one name. */
  lemma NamingInEmptyDirectory(t: Tree, sources: seq<Path>, container: Path, policy: ConflictPolicy)
    requires HaveNames(sources) && NothingIn(t, container)
    ensures NamingFails(t, sources, container, policy) <==> policy.Fail? && ShareName(sources)
  {
    hide *;
    UnclaimedWhereNothingIs(t, sources, container);
    NamingFailsIff(t, sources, container);
    if NamingFails(t, sources, container, Rename) {
      NamingFailsWhereExhausted(t, sources, container);
    }
  }

  // ----- naming looks at the container only -----

  ghost predicate SameNamesIn(s: Tree, t: Tree, container: Path) {
    forall q {:trigger Parent(q)} :: q != [] && Parent(q) == container ==> (q in s <==> q in t)
  }

  lemma FirstFreeAgrees(s: Tree, t: Tree, path: Path, policy: ConflictPolicy, r: Result<Path, NamingError>)
    requires path != [] && SameNamesIn(s, t, Parent(path)) && IsFirstFree(s, path, policy, r)
    ensures IsFirstFree(t, path, policy, r)
  {
    hide NumberedPath;
    assert forall k :: 1 <= k <= MAX_ORDINAL ==> (NumberedPath(path, k) in s <==> NumberedPath(path, k) in t);
  }

  lemma NextTryAgrees(s: Tree, t: Tree, reserved: set<Path>, name: Path, next: Path)
    requires name != [] && SameNamesIn(s, t, Parent(name)) && NextTry(s, reserved, name, next)
    ensures NextTry(t, reserved, name, next)
  {
    hide IsFirstFree, SameNamesIn, NumberedPath;
    var p :| p in reserved && p != [] && IsFirstFree(s, name, Rename, Success(p)) && next == NumberedPath(p, 1);
    FirstFreeAgrees(s, t, name, Rename, Success(p));
  }

  lemma TriesAgreeAcross(s: Tree, t: Tree, reserved: set<Path>, tried: seq<Path>)
    requires Tries(s, reserved, tried) && SameNamesIn(s, t, Parent(tried[0]))
    ensures Tries(t, reserved, tried)
  {
    hide NextTry, SameNamesIn;
    forall i | 0 < i < |tried| ensures NextTry(t, reserved, tried[i - 1], tried[i]) {
      TriesStayBeside(s, reserved, tried, i - 1);
      assert NextTry(s, reserved, tried[i - 1], tried[i]);
      NextTryAgrees(s, t, reserved, tried[i - 1], tried[i]);
    }
  }

  lemma UnreservedAgrees(s: Tree, t: Tree, candidate: Path, policy: ConflictPolicy, reserved: set<Path>,
                         r: Result<Path, NamingError>)
    requires candidate != [] && SameNamesIn(s, t, Parent(candidate))
    requires IsUnreserved(s, candidate, policy, reserved, r)
    ensures IsUnreserved(t, candidate, policy, reserved, r)
  {
    hide IsFirstFree, SameNamesIn, NextTry;
    if policy.Fail? {
      SameNameHere(s, t, candidate);
    } else {
      var tried: seq<Path> :| Tries(s, reserved, tried) && tried[0] == candidate
        && IsFirstFree(s, tried[|tried| - 1], Rename, r) && (r.Success? ==> r.value !in reserved);
      TriesAgreeAcross(s, t, reserved, tried);
      TriesStayBeside(s, reserved, tried, |tried| - 1);
      FirstFreeAgrees(s, t, tried[|tried| - 1], Rename, r);
    }
  }

  lemma SameNameHere(s: Tree, t: Tree, p: Path)
    requires p != [] && SameNamesIn(s, t, Parent(p))
    ensures p in s <==> p in t
  {
  }

  lemma NamedAgrees(s: Tree, t: Tree, sources: seq<Path>, container: Path, policy: ConflictPolicy, targets: seq<Path>)
    requires HaveNames(sources) && |targets| <= |sources| && SameNamesIn(s, t, container)
    requires Named(s, sources, container, policy, targets)
    ensures Named(t, sources, container, policy, targets)
  {
    hide IsUnreserved, Candidate, SameNamesIn;
    forall i | 0 <= i < |targets|
      ensures IsUnreserved(t, Candidate(sources[i], container), policy, Claimed(targets[..i]), Success(targets[i]))
    {
      UnreservedAgrees(s, t, Candidate(sources[i], container), policy, Claimed(targets[..i]), Success(targets[i]));
    }
  }

  lemma NamingFailsAgrees(s: Tree, t: Tree, sources: seq<Path>, container: Path, policy: ConflictPolicy)
    requires HaveNames(sources) && SameNamesIn(s, t, container) && NamingFails(s, sources, container, policy)
    ensures NamingFails(t, sources, container, policy)
  {
    hide IsUnreserved, Candidate, SameNamesIn, Named;
    var targets, error :| NamingFailsAfter(s, sources, container, policy, targets, error);
    NamedAgrees(s, t, sources, container, policy, targets);
    UnreservedAgrees(s, t, Candidate(sources[|targets|], container), policy, Claimed(targets), Failure(error));
    assert NamingFailsAfter(t, sources, container, policy, targets, error);
  }

  /** Under `Rename` naming never fails in a directory with at most a thousand entries. */
  lemma RenamingFindsNames(t: Tree, sources: seq<Path>, container: Path)
    requires HaveNames(sources) && |EntriesIn(t, container)| <= MAX_ORDINAL
    ensures !NamingFails(t, sources, container, Rename)
  {
    hide NamingFails, Exhausted;
    if NamingFails(t, sources, container, Rename) {
      NamingFailsWhereExhausted(t, sources, container);
      var q :| q != [] && Parent(q) == container && Exhausted(t, q);
      ExhaustedIsCrowded(t, q);
    }
  }

  /** How a policy names the targets of a plan. */
  ghost predicate NamedBy(t: Tree, container: Path, policy: ConflictPolicy, ms: seq<Move>) {
    && HaveNames(Origins(ms))
    && Named(t, Origins(ms), container, policy, Targets(ms))
  }

  function Origins(ms: seq<Move>): seq<Path> {
    seq(|ms|, i requires 0 <= i < |ms| => ms[i].src)
  }

  function Targets(ms: seq<Move>): seq<Path> {
    seq(|ms|, i requires 0 <= i < |ms| => ms[i].dst)
  }

  /** A free target that no earlier item has claimed. Every retry makes the name longer, so the
      finite set of claimed targets is left behind at last. */
  method UnreservedTarget(t: Tree, candidate: Path, policy: ConflictPolicy, reserved: set<Path>)
    returns (r: Result<Path, NamingError>)
    requires candidate != []
    ensures IsUnreserved(t, candidate, policy, reserved, r)
    ensures r.Success? ==> Parent(r.value) == Parent(candidate) && r.value !in t && r.value !in reserved
  {
    hide IsFirstFree;
    r := AvailableTarget(t, candidate, policy);
    FirstFreeIsBeside(t, candidate, policy, r);
    ghost var tried := [candidate];
    while r.Success? && r.value in reserved
      invariant Tries(t, reserved, tried) && tried[0] == candidate
      invariant IsFirstFree(t, tried[|tried| - 1], policy, r) && (policy.Fail? ==> tried == [candidate])
      invariant r.Success? ==> r.value != [] && Parent(r.value) == Parent(candidate) && r.value !in t
      decreases if r.Success? then
                  set q | q in reserved && q != [] && |BaseName(q)| >= |BaseName(r.value)|
                else {}
    {
      if policy.Fail? {
        FailedAvailable(t, candidate, r);
        return Failure(DuplicateDestinationName);
      }
      ghost var longEnough := set q | q in reserved && q != [] && |BaseName(q)| >= |BaseName(r.value)|;
      assert r.value in longEnough;
      var next := NumberedPath(r.value, 1);
      assert NextTry(t, reserved, tried[|tried| - 1], next);
      tried := tried + [next];
      r := AvailableTarget(t, next, Rename);
      FirstFreeIsBeside(t, next, Rename, r);
    }
    if policy.Fail? {
      FailedAvailable(t, candidate, r);
    }
  }

  lemma FailedAvailable(t: Tree, candidate: Path, r: Result<Path, NamingError>)
    requires candidate != [] && IsFirstFree(t, candidate, Fail, r)
    ensures r == if candidate in t then Failure(DestinationExists) else Success(candidate)
  {
  }

  /** Plan one target per source, in order. */
  method TargetsForSources(t: Tree, sources: seq<Path>, container: Path, policy: ConflictPolicy)
    returns (r: Result<seq<Path>, NamingError>)
    requires HaveNames(sources)
    ensures r.Success? <==> !NamingFails(t, sources, container, policy)
    ensures r.Success? ==> |r.value| == |sources| && Named(t, sources, container, policy, r.value)
    ensures r.Success? ==> GoodTargets(t, container, r.value)
    ensures r.Failure? ==> exists targets :: NamingFailsAfter(t, sources, container, policy, targets, r.error)
  {
    hide Candidate, IsUnreserved, Named, GoodTargets;
    var reserved: set<Path> := {};
    var targets: seq<Path> := [];
    NothingNamed(t, sources, container, policy);
    for i := 0 to |sources|
      invariant |targets| == i && reserved == Claimed(targets)
      invariant Named(t, sources, container, policy, targets)
    {
      var candidate := Candidate(sources[i], container);
      var found := UnreservedTarget(t, candidate, policy, reserved);
      if found.Failure? {
        assert NamingFailsAfter(t, sources, container, policy, targets, found.error);
        return Failure(found.error);
      }
      var target := found.value;
      OneMoreNamed(t, sources, container, policy, targets, target);
      reserved := reserved + {target};
      targets := targets + [target];
    }
    NamedOrFails(t, sources, container, policy, targets);
    NamedAreGood(t, sources, container, policy, targets);
    return Success(targets);
  }

  lemma NothingNamed(t: Tree, sources: seq<Path>, container: Path, policy: ConflictPolicy)
    requires HaveNames(sources)
    ensures Named(t, sources, container, policy, [])
  {
  }
}
