/** Reading the progress of a change that the package daemon reports. */
module SnapdProgress {
  import opened Wrappers
  import opened SoftwareTasks
  import opened SoftwareProgress

  /** One entry of the list of tasks; a counter is there only when both of its numbers are integers. */
  datatype Item = Malformed | Item(status: string, kind: string, counter: Option<(int, int)>) {
    predicate Counts() {
      Item? && counter.Some? && 0 <= counter.value.0 <= counter.value.1 && counter.value.1 > 0
    }
  }

  datatype Change = Change(status: string, ready: bool, items: seq<Item>)

  const MAX_ITEMS: nat := 256

  function Considered(change: Change): seq<Item> {
    if |change.items| <= MAX_ITEMS then change.items else change.items[..MAX_ITEMS]
  }

  // ----- what the loop computes -----

  /** The sums over all usable counters. */
  function Done(items: seq<Item>): nat {
    if items == [] then 0
    else
      var last := items[|items| - 1];
      Done(items[..|items| - 1]) + if last.Counts() then last.counter.value.0 else 0
  }

  function Total(items: seq<Item>): nat {
    if items == [] then 0
    else
      var last := items[|items| - 1];
      Total(items[..|items| - 1]) + if last.Counts() then last.counter.value.1 else 0
  }

  /** The counter of the last task that is being done and has a usable one. */
  function ActiveCounter(items: seq<Item>): Option<(int, int)> {
    if items == [] then None
    else
      var last := items[|items| - 1];
      if last.Counts() && last.status == "doing" then last.counter else ActiveCounter(items[..|items| - 1])
  }

  /** The kind of the last task that is being done; a waiting task counts while no kind is known. */
  function ActiveKind(items: seq<Item>): string {
    if items == [] then ""
    else
      var last, before := items[|items| - 1], ActiveKind(items[..|items| - 1]);
      if last.Item? && (last.status == "doing" || (last.status == "wait" && before == ""))
      then last.kind else before
  }

  predicate ContainsAt(text: string, word: string, i: nat) {
    i + |word| <= |text| && text[i..i + |word|] == word
  }

  predicate Contains(text: string, word: string) {
    exists i | 0 <= i <= |text| :: ContainsAt(text, word, i)
  }

  predicate Mentions(kind: string, words: seq<string>) {
    exists word <- words :: Contains(kind, word)
  }

  const DOWNLOAD_WORDS := ["download", "fetch"]
  const REMOVE_WORDS := ["remove", "unlink", "discard"]
  const INSTALL_WORDS := ["install", "setup", "mount", "connect"]

  function Percentage(done: int, total: int): int
    requires total > 0
  {
    Max(0, Min(100, RoundHalfEven(done * 100, total)))
  }

  function Min(a: int, b: int): int {
    if a <= b then a else b
  }

  /** The percentage of the active counter if there is one, else of all counters together. */
  function RawPercent(items: seq<Item>): Option<int>
  {
    match ActiveCounter(items)
    case Some((done, total)) => if total > 0 then Some(Percentage(done, total)) else None
    case None => if Total(items) > 0 then Some(Percentage(Done(items), Total(items))) else None
  }

  /** 100 is reserved for a change that is ready. */
  function ShownPercent(change: Change): Option<int> {
    var raw := RawPercent(Considered(change));
    if !change.ready && raw == Some(100) then Some(99) else raw
  }

  /** The text has the word somewhere in it. */
  ghost predicate HasWord(text: string, word: string) {
    exists before, after :: text == before + word + after
  }

  lemma ContainsIff(text: string, word: string)
    ensures Contains(text, word) <==> HasWord(text, word)
  {
    if Contains(text, word) {
      var i :| 0 <= i <= |text| && ContainsAt(text, word, i);
      assert text == text[..i] + word + text[i + |word|..];
    }
    if HasWord(text, word) {
      var before, after :| text == before + word + after;
      assert text[|before|..|before| + |word|] == word;
      assert ContainsAt(text, word, |before|);
    }
  }

  /** A kind of entry in which something is downloaded, removed or installed. */
  lemma KindsOfWork(kind: string)
    ensures Mentions(kind, DOWNLOAD_WORDS) <==> HasWord(kind, "download") || HasWord(kind, "fetch")
    ensures Mentions(kind, REMOVE_WORDS) <==>
              HasWord(kind, "remove") || HasWord(kind, "unlink") || HasWord(kind, "discard")
    ensures Mentions(kind, INSTALL_WORDS) <==>
              HasWord(kind, "install") || HasWord(kind, "setup") || HasWord(kind, "mount") || HasWord(kind, "connect")
  {
    hide HasWord, Contains;
    forall word ensures Contains(kind, word) <==> HasWord(kind, word) {
      ContainsIff(kind, word);
    }
    MentionsAmong(kind, DOWNLOAD_WORDS);
    MentionsAmong(kind, REMOVE_WORDS);
    MentionsAmong(kind, INSTALL_WORDS);
  }

  lemma MentionsAmong(kind: string, words: seq<string>)
    ensures Mentions(kind, words) <==> exists i :: 0 <= i < |words| && Contains(kind, words[i])
  {
    hide Contains;
    if Mentions(kind, words) {
      var word :| word in words && Contains(kind, word);
      var i :| 0 <= i < |words| && words[i] == word;
    }
  }

  /** The active counter is that of the last entry that is being done with a usable counter. */
  lemma {:induction false} ActiveCounterIsLast(items: seq<Item>)
    ensures match ActiveCounter(items)
            case None => forall i :: 0 <= i < |items| ==> !IsActive(items[i])
            case Some(counter) =>
              exists i :: 0 <= i < |items| && IsActive(items[i]) && items[i].counter == Some(counter)
                          && forall j :: i < j < |items| ==> !IsActive(items[j])
  {
    if items != [] {
      var rest, last := items[..|items| - 1], |items| - 1;
      ActiveCounterIsLast(rest);
      assert forall i :: 0 <= i < last ==> rest[i] == items[i];
      if !IsActive(items[last]) && ActiveCounter(rest).Some? {
        var i :| 0 <= i < |rest| && IsActive(rest[i]) && rest[i].counter == ActiveCounter(rest)
                 && forall j :: i < j < |rest| ==> !IsActive(rest[j]);
        assert IsActive(items[i]) && items[i].counter == ActiveCounter(items);
      }
    }
  }

  /** Being done, with two numbers of which the first is not beyond the second, and that is positive. */
  predicate IsActive(item: Item) {
    && item.Item? && item.status == "doing" && item.counter.Some?
    && 0 <= item.counter.value.0 <= item.counter.value.1 && item.counter.value.1 > 0
  }

  predicate IsDoing(item: Item) {
    item.Item? && item.status == "doing"
  }

  predicate IsWaiting(item: Item) {
    item.Item? && item.status == "wait" && item.kind != ""
  }

  /** Entry `d` is the last one being done; -1 if there is none. */
  ghost predicate LastDoing(items: seq<Item>, d: int) {
    -1 <= d < |items| && (d >= 0 ==> IsDoing(items[d])) && forall j :: d < j < |items| ==> !IsDoing(items[j])
  }

  /** The first waiting entry after entry `d` that has a kind. */
  ghost predicate FirstWaiting(items: seq<Item>, d: int, w: nat) {
    d < w < |items| && IsWaiting(items[w]) && NoneWaiting(items, d, w)
  }

  ghost predicate NoneWaiting(items: seq<Item>, d: int, w: nat) {
    w <= |items| && forall j :: 0 <= j && d < j < w ==> !IsWaiting(items[j])
  }

  /** The kind in force: that of the last entry being done; if there is none, or it has no kind, that of
      the first waiting entry after it that has one; and else none. */
  ghost predicate KindFrom(items: seq<Item>, d: int, kind: string)
    requires d < |items|
  {
    if d >= 0 && items[d].Item? && items[d].kind != "" then kind == items[d].kind
    else if kind == "" then NoneWaiting(items, d, |items|)
    else exists w: nat :: FirstWaiting(items, d, w) && kind == items[w].kind
  }

  lemma {:induction false} ActiveKindIsInForce(items: seq<Item>) returns (d: int)
    ensures LastDoing(items, d) && KindFrom(items, d, ActiveKind(items))
  {
    if items == [] {
      return -1;
    }
    var rest, last := items[..|items| - 1], items[|items| - 1];
    assert items == rest + [last];
    d := ActiveKindIsInForce(rest);
    if IsDoing(last) {
      return |rest|;
    }
    OneMoreNotDone(rest, last, d);
    if ActiveKind(rest) != "" {
      KindStays(rest, last, d, ActiveKind(rest));
    } else if IsWaiting(last) {
      assert FirstWaiting(items, d, |rest|);
    }
  }

  lemma OneMoreNotDone(items: seq<Item>, item: Item, d: int)
    requires LastDoing(items, d) && !IsDoing(item)
    ensures LastDoing(items + [item], d)
  {
  }

  lemma KindStays(items: seq<Item>, item: Item, d: int, kind: string)
    requires LastDoing(items, d) && KindFrom(items, d, kind) && kind != ""
    ensures KindFrom(items + [item], d, kind)
  {
    var more := items + [item];
    if !(d >= 0 && items[d].Item? && items[d].kind != "") {
      var w: nat :| FirstWaiting(items, d, w) && kind == items[w].kind;
      assert FirstWaiting(more, d, w) && kind == more[w].kind;
    }
  }

  predicate IsUsable(item: Item) {
    && item.Item? && item.counter.Some?
    && 0 <= item.counter.value.0 <= item.counter.value.1 && item.counter.value.1 > 0
  }

  /** The sums run over all usable counters. */
  lemma {:induction false} SumsOverAll(items: seq<Item>)
    ensures items == [] ==> Done(items) == 0 && Total(items) == 0
    ensures items != [] ==>
              && Done(items) == Done(items[1..]) + (if IsUsable(items[0]) then items[0].counter.value.0 else 0)
              && Total(items) == Total(items[1..]) + (if IsUsable(items[0]) then items[0].counter.value.1 else 0)
    ensures Done(items) <= Total(items)
  {
    if |items| > 1 {
      var rest := items[..|items| - 1];
      SumsOverAll(rest);
      assert rest[1..] == items[1..][..|items[1..]| - 1];
    }
  }

  /** The percentage is the nearest one of the active counter, else of all counters together, with 99 in
      place of 100 before the change is ready; without a counter there is none. */
  lemma ShownPercentIs(change: Change)
    ensures var items := if |change.items| <= 256 then change.items else change.items[..256];
            var shown := ShownPercent(change);
            && (ActiveCounter(items).Some? ==>
                  var (done, total) := ActiveCounter(items).value;
                  shown.Some? && IsNearestPercent(shown.value, done, total, change.ready))
            && (ActiveCounter(items).None? && Total(items) > 0 ==>
                  shown.Some? && IsNearestPercent(shown.value, Done(items), Total(items), change.ready))
            && (ActiveCounter(items).None? && Total(items) == 0 ==> shown.None?)
  {
    var items := Considered(change);
    ActiveCounterIsLast(items);
    SumsOverAll(items);
    hide Percentage, IsNearestPercent;
    if ActiveCounter(items).Some? {
      PercentageIsNearest(ActiveCounter(items).value.0, ActiveCounter(items).value.1, change.ready);
    } else if Total(items) > 0 {
      PercentageIsNearest(Done(items), Total(items), change.ready);
    }
  }

  predicate Rounds(percent: int, done: int, total: int) {
    -total <= 2 * (percent * total - done * 100) <= total
  }

  ghost predicate IsNearestPercent(shown: int, done: int, total: int, ready: bool) {
    exists percent :: Rounds(percent, done, total) && shown == if percent == 100 && !ready then 99 else percent
  }

  lemma PercentageIsNearest(done: int, total: int, ready: bool)
    requires 0 <= done <= total && total > 0
    ensures var percent := Percentage(done, total);
            IsNearestPercent(if !ready && percent == 100 then 99 else percent, done, total, ready)
  {
    hide Percentage;
    PercentageNeedsNoClamp(done, total);
    assert Rounds(Percentage(done, total), done, total);
  }

  method ParseProgress(change: Change, retryable: bool) returns (p: Progress)
    ensures PercentRange(p.percent)
    ensures p.percent == Some(100) ==> change.ready
    ensures p.state.NowCompleted? <==> change.ready && change.status == "done"
    ensures p.state.NowCompleted? ==> p.percent == Some(100)
    ensures !p.state.NowCompleted? ==> p.percent == ShownPercent(change)
    ensures p.state.NowFailed? <==> change.status == "error"
    ensures p.state.NowInterrupted? <==> change.status in {"abort", "hold", "undone"}
    ensures p.downloaded.Some? <==> p.total.Some?
    ensures p.downloaded.Some? ==> 0 <= p.downloaded.value <= p.total.value
    ensures p.downloaded.Some? ==>
              Mentions(ActiveKind(Considered(change)), DOWNLOAD_WORDS)
              && ActiveCounter(Considered(change)) == Some((p.downloaded.value, p.total.value))
    ensures p.state.StillRunning? ==>
              (p.phase.Downloading? <==> Mentions(ActiveKind(Considered(change)), DOWNLOAD_WORDS))
    ensures p.downloaded.Some? <==>
              && !p.state.NowCompleted? && ActiveCounter(Considered(change)).Some?
              && Mentions(ActiveKind(Considered(change)), DOWNLOAD_WORDS)
    // The phase of a running change tells what its kind in force does.
    ensures var kind := ActiveKind(Considered(change));
            var downloads := HasWord(kind, "download") || HasWord(kind, "fetch");
            var removes := HasWord(kind, "remove") || HasWord(kind, "unlink") || HasWord(kind, "discard");
            var installs := HasWord(kind, "install") || HasWord(kind, "setup") || HasWord(kind, "mount")
                            || HasWord(kind, "connect");
            p.state.StillRunning? ==>
              p.phase == if downloads then Downloading else if removes then Removing
                         else if installs then Installing else Working
    ensures p.state.NowCompleted? ==> p.phase.CompletedPhase? && p.error.None?
    ensures p.state.NowFailed? ==> p.phase.FailedPhase? && p.error == Some("snap_change_failed")
    ensures p.state.NowInterrupted? ==> p.phase.InterruptedPhase? && p.error.None?
    ensures !p.state.NowCanceled? && (p.state.StillRunning? ==> p.error.None?)
  {
    hide Contains, HasWord;
    var items := Considered(change);
    var totals, completed, measurable := 0, 0, false;
    var active: Option<(int, int)> := None;
    var kind := "";
    for i := 0 to |items|
      invariant completed == Done(items[..i]) && totals == Total(items[..i]) && completed <= totals
      invariant active == ActiveCounter(items[..i])
      invariant active.Some? ==> 0 <= active.value.0 <= active.value.1 && active.value.1 > 0
      invariant kind == ActiveKind(items[..i])
      invariant measurable <==> totals > 0
    {
      assert items[..i + 1][..i] == items[..i];
      var item := items[i];
      if item.Item? {
        if item.status == "doing" || (item.status == "wait" && kind == "") {
          kind := item.kind;
        }
        if item.Counts() {
          measurable := true;
          completed := completed + item.counter.value.0;
          totals := totals + item.counter.value.1;
          if item.status == "doing" {
            active := item.counter;
          }
        }
      }
    }
    assert items[..|items|] == items;
    var percent := None;
    if active.Some? {
      percent := Some(Max(0, Min(100, RoundHalfEven(active.value.0 * 100, active.value.1))));
    } else if measurable && totals > 0 {
      percent := Some(Max(0, Min(100, RoundHalfEven(completed * 100, totals))));
    }
    if !change.ready && percent == Some(100) {
      percent := Some(99);
    }
    KindsOfWork(kind);
    var downloading := Mentions(kind, DOWNLOAD_WORDS);
    var downloaded := if downloading && active.Some? then Some(active.value.0) else None;
    var total := if downloading && active.Some? then Some(active.value.1) else None;
    if change.ready && change.status == "done" {
      return Progress(NowCompleted, CompletedPhase, Some(100), None, retryable, None, None);
    }
    if change.status == "error" {
      return Progress(NowFailed, FailedPhase, percent, Some("snap_change_failed"), retryable, downloaded, total);
    }
    if change.status in {"abort", "hold", "undone"} {
      return Progress(NowInterrupted, InterruptedPhase, percent, None, retryable, downloaded, total);
    }
    var phase := if downloading then Downloading
                 else if Mentions(kind, REMOVE_WORDS) then Removing
                 else if Mentions(kind, INSTALL_WORDS) then Installing
                 else Working;
    return Progress(StillRunning, phase, percent, None, retryable, downloaded, total);
  }

  /** Clamping never bites: a part of a positive whole rounds to between 0 and 100 per cent. */
  lemma PercentageNeedsNoClamp(done: int, total: int)
    requires 0 <= done <= total && total > 0
    ensures Percentage(done, total) == RoundHalfEven(done * 100, total)
    ensures -total <= 2 * (Percentage(done, total) * total - done * 100) <= total
  {
    RoundStaysBetween(done * 100, total, 0, 100);
    RoundIsNearest(done * 100, total);
  }
}
