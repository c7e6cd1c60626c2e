/**
 * The collection loop of index.js (lines 53-59 and 96-128): after each extraction pass the
 * loop stops when the pass holds `targetCount` records, when the count has stayed the same
 * (and positive) for five further passes, or when more than 200 scrolls would be needed;
 * the last pass is then cut to `targetCount` records.
 *
 * The browser is an input: the sequence of page snapshots (or of record counts) one
 * extraction pass after another. When the snapshots run out before the loop stops, the
 * run is `Pending`.
 */
module Collector {
  import opened Wrappers
  import opened Cards

  /** `maxScrolls`: the loop breaks once the scroll counter exceeds it. */
  const MaxScrolls: nat := 200

  /** Number of consecutive unchanged passes that ends the loop. */
  const StallLimit: nat := 5

  /** The target used when the command-line argument is missing, zero or not a number. */
  const DefaultTarget: nat := 40

  /**
   * `Number(process.argv[2]) || 40` for arguments that parse to a natural number; 0 stands for
   * a zero, missing or unparsable argument, all of which are falsy.
   */
  function TargetCount(argument: nat): (t: nat)
    ensures t > 0
    ensures argument > 0 ==> t == argument
    ensures argument == 0 ==> t == DefaultTarget
  {
    if argument == 0 then DefaultTarget else argument
  }

  /** The loop counters `lastRealCount`, `sameTries` and `scrollCount`. */
  datatype State = State(lastRealCount: nat, sameTries: nat, scrollCount: nat)

  /** The counters before the first pass. */
  const Start: State := State(0, 0, 0)

  /** Why the loop stopped. */
  datatype Reason = TargetReached | EndOfList | ScrollLimit

  /** What the loop does after one pass: stop, or scroll and carry on with new counters. */
  datatype Decision = Stop(reason: Reason) | Continue(next: State)

  /** The loop body after a pass that produced `realCount` records (lines 96-119). */
  function Next(s: State, realCount: nat, target: nat): (d: Decision)
    ensures d == Stop(TargetReached) <==> realCount >= target
    ensures d == Stop(EndOfList) ==> realCount == s.lastRealCount && 0 < realCount < target
    ensures d.Continue? ==> && d.next.lastRealCount == realCount
                            && d.next.sameTries < StallLimit
                            && d.next.scrollCount == s.scrollCount + 1 <= MaxScrolls
  {
    if realCount >= target then Stop(TargetReached)
    else
      var sameTries := if realCount == s.lastRealCount && realCount > 0 then s.sameTries + 1 else 0;
      if sameTries >= StallLimit then Stop(EndOfList)
      else if s.scrollCount + 1 > MaxScrolls then Stop(ScrollLimit)
      else Continue(State(realCount, sameTries, s.scrollCount + 1))
  }

  /** The loop's result: it stopped after pass number `pass` (counted from 0), or the input ran out. */
  datatype Outcome = Stopped(reason: Reason, pass: nat) | Pending(state: State)

  /** The loop from pass `i` on, with counters `s`, over the per-pass record counts. */
  function RunFrom(s: State, counts: seq<nat>, target: nat, i: nat): (o: Outcome)
    requires i <= |counts|
    ensures o.Stopped? ==> i <= o.pass < |counts|
    decreases |counts| - i
  {
    if i == |counts| then Pending(s)
    else
      match Next(s, counts[i], target)
      case Stop(reason) => Stopped(reason, i)
      case Continue(s') => RunFrom(s', counts, target, i + 1)
  }

  /** One unfolding of `RunFrom`. */
  lemma RunFromStep(s: State, counts: seq<nat>, target: nat, i: nat)
    requires i < |counts|
    ensures var d := Next(s, counts[i], target);
            RunFrom(s, counts, target, i)
            == if d.Stop? then Stopped(d.reason, i) else RunFrom(d.next, counts, target, i + 1)
  {
  }

  /** The whole loop, from the initial counters. */
  function Run(counts: seq<nat>, target: nat): Outcome {
    RunFrom(Start, counts, target, 0)
  }

  /**
   * Pass `k` ends a stall: its count is positive and equal to the counts of the five passes
   * before it, six equal counts in a row.
   */
  ghost predicate Stalled(counts: seq<nat>, k: nat)
    requires k < |counts|
  {
    && k >= StallLimit
    && counts[k] > 0
    && forall j :: k - StallLimit <= j <= k ==> counts[j] == counts[k]
  }

  /** The loop would stop at pass `k` if it got that far. */
  ghost predicate StopsAt(counts: seq<nat>, target: nat, k: nat)
    requires k < |counts|
  {
    counts[k] >= target || Stalled(counts, k) || k == MaxScrolls
  }

  /** The reason reported when the loop stops at pass `k`: the target check comes first, then the stall. */
  ghost function ReasonAt(counts: seq<nat>, target: nat, k: nat): Reason
    requires k < |counts|
  {
    if counts[k] >= target then TargetReached
    else if Stalled(counts, k) then EndOfList
    else ScrollLimit
  }

  /** How many passes in a row, ending at pass `j`, repeated the previous positive count. */
  ghost function Repeats(counts: seq<nat>, j: nat): nat
    requires j < |counts|
  {
    if j == 0 then 0
    else if counts[j] == counts[j - 1] && counts[j] > 0 then Repeats(counts, j - 1) + 1
    else 0
  }

  /** The counters the loop holds before pass `i`, when it has not stopped earlier. */
  ghost function Expected(counts: seq<nat>, i: nat): State
    requires i <= |counts|
  {
    if i == 0 then Start else State(counts[i - 1], Repeats(counts, i - 1), i)
  }

  /** At least `m` repeats end at pass `j` exactly when the last `m + 1` counts are equal and positive. */
  lemma {:induction false} RepeatsMeansEqualRun(counts: seq<nat>, j: nat, m: nat)
    requires j < |counts| && m >= 1
    ensures Repeats(counts, j) >= m
            <==> (j >= m && counts[j] > 0 && forall l :: j - m <= l <= j ==> counts[l] == counts[j])
  {
    if j > 0 && counts[j] == counts[j - 1] && counts[j] > 0 && m > 1 {
      RepeatsMeansEqualRun(counts, j - 1, m - 1);
    }
  }

  /** One loop step from the expected counters. */
  lemma NextFromExpected(counts: seq<nat>, target: nat, i: nat)
    requires i < |counts|
    requires forall j :: 0 <= j < i ==> !StopsAt(counts, target, j)
    ensures Next(Expected(counts, i), counts[i], target)
            == if StopsAt(counts, target, i) then Stop(ReasonAt(counts, target, i))
               else Continue(Expected(counts, i + 1))
  {
    RepeatsMeansEqualRun(counts, i, StallLimit);
    if i > MaxScrolls {
      assert StopsAt(counts, target, MaxScrolls);
    }
  }

  /**
   * From pass `i` on, with no stop before it, the loop stops at the first pass `k >= i` at
   * which `StopsAt` holds, for `ReasonAt(k)`, and is pending exactly when there is none.
   */
  lemma {:induction false} RunFromExpected(counts: seq<nat>, target: nat, i: nat)
    requires i <= |counts|
    requires forall j :: 0 <= j < i ==> !StopsAt(counts, target, j)
    ensures var o := RunFrom(Expected(counts, i), counts, target, i);
            && (o.Stopped? ==> && StopsAt(counts, target, o.pass)
                               && o.reason == ReasonAt(counts, target, o.pass)
                               && forall j :: 0 <= j < o.pass ==> !StopsAt(counts, target, j))
            && (o.Pending? <==> forall j :: 0 <= j < |counts| ==> !StopsAt(counts, target, j))
    decreases |counts| - i
  {
    if i < |counts| {
      NextFromExpected(counts, target, i);
      if !StopsAt(counts, target, i) {
        RunFromExpected(counts, target, i + 1);
      }
    }
  }

  /**
   * The loop stops at the first pass that reaches the target, ends a stall of six equal
   * positive counts, or is pass 200 (the 201st); the reason is the first of those checks that
   * holds. It is pending exactly when no pass of the input is such a pass.
   */
  lemma RunCharacterised(counts: seq<nat>, target: nat)
    ensures var o := Run(counts, target);
            && (o.Stopped? ==> && o.pass < |counts|
                               && StopsAt(counts, target, o.pass)
                               && o.reason == ReasonAt(counts, target, o.pass)
                               && forall j :: 0 <= j < o.pass ==> !StopsAt(counts, target, j))
            && (o.Pending? <==> forall j :: 0 <= j < |counts| ==> !StopsAt(counts, target, j))
  {
    RunFromExpected(counts, target, 0);
  }

  /**
   * Whatever the counts, at most 201 passes and 200 scrolls happen: the loop stops no later
   * than pass 200, and it does stop when the input has more passes than that.
   */
  lemma RunBounded(counts: seq<nat>, target: nat)
    ensures Run(counts, target).Stopped? ==> Run(counts, target).pass <= MaxScrolls
    ensures |counts| > MaxScrolls ==> Run(counts, target).Stopped?
  {
    RunCharacterised(counts, target);
    if |counts| > MaxScrolls {
      assert StopsAt(counts, target, MaxScrolls);
    }
  }

  /** The loop stops at the target exactly at the first pass whose count reaches it, if no other stop came first. */
  lemma TargetStopIsFirstReach(counts: seq<nat>, target: nat)
    ensures var o := Run(counts, target);
            o.Stopped? && o.reason == TargetReached
            ==> counts[o.pass] >= target && forall j :: 0 <= j < o.pass ==> counts[j] < target
  {
    RunCharacterised(counts, target);
    var o := Run(counts, target);
    if o.Stopped? {
      forall j | 0 <= j < o.pass
        ensures counts[j] < target
      {
        assert !StopsAt(counts, target, j);
      }
    }
  }

  /** End of list needs six equal positive counts in a row, all below the target. */
  lemma EndOfListNeedsSixEqualCounts(counts: seq<nat>, target: nat)
    ensures var o := Run(counts, target);
            o.Stopped? && o.reason == EndOfList
            ==> && o.pass >= StallLimit
                && 0 < counts[o.pass] < target
                && forall j :: o.pass - StallLimit <= j <= o.pass ==> counts[j] == counts[o.pass]
  {
    RunCharacterised(counts, target);
  }

  /** Six equal positive counts below the target in a row make the loop stop by the sixth of them. */
  lemma StallStopsLoop(counts: seq<nat>, target: nat, k: nat)
    requires StallLimit <= k < |counts| && 0 < counts[k] < target
    requires forall j :: k - StallLimit <= j <= k ==> counts[j] == counts[k]
    ensures Run(counts, target).Stopped? && Run(counts, target).pass <= k
  {
    RunCharacterised(counts, target);
    assert StopsAt(counts, target, k);
  }

  /** The record counts of a sequence of passes. */
  function Counts(passes: seq<seq<Record>>): (counts: seq<nat>)
    ensures |counts| == |passes|
    ensures forall i :: 0 <= i < |passes| ==> counts[i] == |passes[i]|
  {
    seq(|passes|, i requires 0 <= i < |passes| => |passes[i]|)
  }

  /** `finalData.slice(0, targetCount)` */
  function Truncate(records: seq<Record>, target: nat): (r: seq<Record>)
    ensures |r| <= target
    ensures |r| <= |records| && r == records[..|r|]
    ensures |r| < target ==> r == records
  {
    if |records| <= target then records else records[..target]
  }

  /** What the script writes out: why the loop stopped, how many passes ran, the records kept. */
  datatype Collected = Collected(reason: Reason, passes: nat, records: seq<Record>)

  /** The loop over per-pass record lists, followed by the final truncation (line 128). */
  function Collect(passes: seq<seq<Record>>, target: nat): Option<Collected> {
    match Run(Counts(passes), target)
    case Pending(_) => None
    case Stopped(reason, k) => Some(Collected(reason, k + 1, Truncate(passes[k], target)))
  }

  /**
   * The output is a prefix of the last pass (nothing from earlier passes accumulates), at most
   * `target` long; it is exactly `target` long precisely when the target was reached, and is
   * the whole last pass otherwise. At most 201 passes run, and more than 200 input passes
   * always produce an output.
   */
  lemma CollectCharacterised(passes: seq<seq<Record>>, target: nat)
    ensures var c := Collect(passes, target);
            && (|passes| > MaxScrolls ==> c.Some?)
            && (c.Some? ==>
                  && 1 <= c.value.passes <= |passes|
                  && c.value.passes <= MaxScrolls + 1
                  && |c.value.records| <= target
                  && c.value.records == passes[c.value.passes - 1][..|c.value.records|]
                  && (c.value.reason == TargetReached <==> |c.value.records| == target)
                  && (c.value.reason != TargetReached ==> c.value.records == passes[c.value.passes - 1]))
  {
    var counts := Counts(passes);
    RunCharacterised(counts, target);
    RunBounded(counts, target);
  }

  /** A first pass that already holds `target` records stops the loop at once and keeps its first `target` records. */
  lemma TargetReachedOnFirstPass(passes: seq<seq<Record>>, target: nat)
    requires |passes| > 0 && |passes[0]| >= target
    ensures Collect(passes, target) == Some(Collected(TargetReached, 1, passes[0][..target]))
  {
    assert Counts(passes)[0] == |passes[0]|;
  }

  /** Counts that settle at 20 with a target of 100: the loop ends on the sixth 20, not on the fifth. */
  lemma StallScenario()
    ensures Run([5, 12, 20, 20, 20, 20, 20, 20], 100) == Stopped(EndOfList, 7)
    ensures Run([5, 12, 20, 20, 20, 20, 20], 100).Pending?
  {
  }

  /** The per-pass record lists of a sequence of page snapshots. */
  function Passes(pages: seq<seq<Article>>, origin: string): (passes: seq<seq<Record>>)
    ensures |passes| == |pages|
    ensures forall i :: 0 <= i < |pages| ==> passes[i] == Extract(pages[i], origin)
  {
    seq(|pages|, i requires 0 <= i < |pages| => Extract(pages[i], origin))
  }

  /** The whole script over page snapshots, one per pass. */
  function CollectPages(pages: seq<seq<Article>>, origin: string, target: nat): Option<Collected> {
    Collect(Passes(pages, origin), target)
  }

  /** The script as invoked: the target comes from the command-line argument. */
  function Script(pages: seq<seq<Article>>, origin: string, argument: nat): Option<Collected> {
    CollectPages(pages, origin, TargetCount(argument))
  }

  /**
   * What the script writes out for a given argument: at most `targetCount` records (at most 40
   * without a usable argument); a target stop keeps exactly `targetCount` records, so never
   * none; any other stop keeps the whole last pass.
   */
  lemma ScriptOutput(pages: seq<seq<Article>>, origin: string, argument: nat)
    ensures var c, t := Script(pages, origin, argument), TargetCount(argument);
            && (|pages| > MaxScrolls ==> c.Some?)
            && (c.Some? ==>
                  && 1 <= c.value.passes <= |pages|
                  && |c.value.records| <= t
                  && (argument == 0 ==> |c.value.records| <= DefaultTarget)
                  && (c.value.reason == TargetReached ==> |c.value.records| == t && c.value.records != [])
                  && (c.value.reason != TargetReached
                      ==> c.value.records == Extract(pages[c.value.passes - 1], origin)))
  {
    CollectCharacterised(Passes(pages, origin), TargetCount(argument));
  }

  /**
   * Every record written out was built from a card of the last page snapshot that has a marked
   * link and a heading.
   */
  lemma CollectPagesSound(pages: seq<seq<Article>>, origin: string, target: nat)
    ensures var c := CollectPages(pages, origin, target);
            c.Some? ==> && 1 <= c.value.passes <= |pages|
                        && var page := pages[c.value.passes - 1];
                           forall r :: r in c.value.records ==>
                             exists i :: && 0 <= i < |page|
                                         && HasMarkedLink(page[i])
                                         && page[i].heading.Some?
                                         && r == MakeRecord(page[i], origin)
  {
    var c := CollectPages(pages, origin, target);
    CollectCharacterised(Passes(pages, origin), target);
    if c.Some? {
      var page := pages[c.value.passes - 1];
      ExtractSound(page, origin);
      forall r | r in c.value.records
        ensures r in Extract(page, origin)
      {
        var k :| 0 <= k < |c.value.records| && c.value.records[k] == r;
        assert r == Extract(page, origin)[k];
      }
    }
  }

  /**
   * Lines 99-119 with their mutable counters: the checks after one pass, reporting a stop
   * reason or the updated counters.
   */
  method CheckPass(lastRealCount: nat, sameTries: nat, scrollCount: nat, realCount: nat, target: nat)
    returns (stop: Option<Reason>, lastRealCount': nat, sameTries': nat, scrollCount': nat)
    ensures var d := Next(State(lastRealCount, sameTries, scrollCount), realCount, target);
            && (stop.Some? <==> d.Stop?)
            && (stop.Some? ==> stop.value == d.reason)
            && (stop.None? ==> d.next == State(lastRealCount', sameTries', scrollCount'))
  {
    stop, lastRealCount', sameTries', scrollCount' := None, lastRealCount, sameTries, scrollCount;
    if realCount >= target {
      stop := Some(TargetReached);
      return;
    }
    if realCount == lastRealCount' && realCount > 0 {
      sameTries' := sameTries' + 1;
      if sameTries' >= StallLimit {
        stop := Some(EndOfList);
        return;
      }
    } else {
      sameTries' := 0;
    }
    lastRealCount' := realCount;
    scrollCount' := scrollCount' + 1;
    if scrollCount' > MaxScrolls {
      stop := Some(ScrollLimit);
    }
  }

  /** `Collect` once the loop has stopped after pass `k`. */
  lemma CollectWhenStopped(passes: seq<seq<Record>>, target: nat, reason: Reason, k: nat)
    requires Run(Counts(passes), target) == Stopped(reason, k)
    ensures k < |passes|
    ensures Collect(passes, target) == Some(Collected(reason, k + 1, Truncate(passes[k], target)))
  {
  }

  /**
   * The script's `while (true)` loop itself, with its mutable counters and early `break`s,
   * extracting each pass with `ExtractPass`.
   */
  method CollectLoop(pages: seq<seq<Article>>, origin: string, target: nat) returns (c: Option<Collected>)
    ensures c == CollectPages(pages, origin, target)
  {
    ghost var counts := Counts(Passes(pages, origin));
    var lastRealCount: nat, sameTries: nat, scrollCount: nat := 0, 0, 0;
    var finalData: seq<Record> := [];
    var passes: nat := 0;
    var reason: Option<Reason> := None;
    while reason.None? && passes < |pages|
      invariant passes <= |pages|
      invariant reason.None? ==> && scrollCount == passes
                                 && RunFrom(State(lastRealCount, sameTries, scrollCount), counts, target, passes)
                                    == Run(counts, target)
      invariant reason.Some? ==> && 0 < passes
                                 && Run(counts, target) == Stopped(reason.value, passes - 1)
                                 && finalData == Extract(pages[passes - 1], origin)
      decreases |pages| - passes
    {
      RunFromStep(State(lastRealCount, sameTries, scrollCount), counts, target, passes);
      finalData := ExtractPass(pages[passes], origin);
      assert |finalData| == counts[passes];
      reason, lastRealCount, sameTries, scrollCount :=
        CheckPass(lastRealCount, sameTries, scrollCount, |finalData|, target);
      passes := passes + 1;
    }
    if reason.None? {
      c := None;
    } else {
      CollectWhenStopped(Passes(pages, origin), target, reason.value, passes - 1);
      var result := if |finalData| <= target then finalData else finalData[..target];
      c := Some(Collected(reason.value, passes, result));
    }
  }
}
