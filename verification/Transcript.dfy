/**
What a receipt says, read off the test runner's own lines and exit code: when
it is valid, when it is interrupted, and which result it holds for a test.
*/
module Transcript {
  import opened Catalog
  import opened Receipts
  import opened Proxy

  /** A header came before line `i`, and nothing since that ends the list of results. */
  ghost predicate Listing(lines: seq<Line>, i: nat) {
    exists h: nat :: h < i <= |lines| && ListingFrom(lines, h, i)
  }

  ghost predicate ListingFrom(lines: seq<Line>, h: nat, i: nat)
    requires h < i <= |lines|
  {
    lines[h].Header? && forall j :: h < j < i ==> !lines[j].FailureList? && !lines[j].Summary?
  }

  lemma {:induction false} ListingExactly(lines: seq<Line>, i: nat)
    requires i <= |lines|
    ensures Observe(lines[..i]).active <==> Listing(lines, i)
  {
    if i > 0 {
      var last := lines[i - 1];
      assert lines[..i][..i - 1] == lines[..i - 1];
      ListingExactly(lines, i - 1);
      if last.Header? {
        assert ListingFrom(lines, i - 1, i);
      } else if Listing(lines, i - 1) && !last.FailureList? && !last.Summary? {
        var h: nat :| h < i - 1 && ListingFrom(lines, h, i - 1);
        assert ListingFrom(lines, h, i);
      } else if Listing(lines, i) {
        var h: nat :| h < i && ListingFrom(lines, h, i);
        assert ListingFrom(lines, h, i - 1);
      }
    }
  }

  /** Line `i` reports a test. */
  ghost predicate Result(lines: seq<Line>, i: nat) {
    i < |lines| && lines[i].Test? && Listing(lines, i)
  }

  ghost predicate ResultOf(lines: seq<Line>, i: nat, n: Name) {
    Result(lines, i) && lines[i].name == n
  }

  lemma PrintsExactly(lines: seq<Line>, i: nat, n: Name)
    ensures Prints(lines, i, n) <==> ResultOf(lines, i, n)
  {
    if i < |lines| { ListingExactly(lines, i); }
  }

  /** The lines that report this status. */
  ghost function Results(lines: seq<Line>, status: Status): set<nat> {
    set i: nat | i < |lines| && Result(lines, i) && lines[i].status == status
  }

  ghost predicate NoneTwice(lines: seq<Line>) {
    forall i: nat, j: nat :: Result(lines, i) && Result(lines, j) && lines[i].name == lines[j].name ==> i == j
  }

  ghost predicate NoHeader(lines: seq<Line>) {
    forall j :: 0 <= j < |lines| ==> !lines[j].Header?
  }

  ghost predicate OneHeader(lines: seq<Line>, count: nat) {
    exists h: nat :: OnlyHeader(lines, h, count)
  }

  ghost predicate OnlyHeader(lines: seq<Line>, h: nat, count: nat) {
    h < |lines| && lines[h] == Header(count) && forall j :: 0 <= j < |lines| && lines[j].Header? ==> j == h
  }

  ghost predicate NoSummary(lines: seq<Line>) {
    forall j :: 0 <= j < |lines| ==> !lines[j].Summary?
  }

  ghost predicate OneSummary(lines: seq<Line>, summary: Line) {
    exists s: nat :: OnlySummary(lines, s, summary)
  }

  ghost predicate OnlySummary(lines: seq<Line>, s: nat, summary: Line) {
    s < |lines| && lines[s] == summary && forall j :: 0 <= j < |lines| && lines[j].Summary? ==> j == s
  }

  /** The whole share ran: each of its tests reported once, and a summary and an exit code that agree. */
  ghost predicate Ran(lines: seq<Line>, share: seq<Name>, code: int) {
    var passed, failed := Results(lines, Passed), Results(lines, Failed);
    && OneHeader(lines, |share|)
    && (forall n :: n in share <==> exists i: nat :: ResultOf(lines, i, n))
    && NoneTwice(lines)
    && OneSummary(lines, Summary(if failed == {} then Passed else Failed, |passed|, |failed|, true))
    && (code == 0 <==> failed == {})
  }

  /** A clean beginning and an exit in failure before the summary. */
  ghost predicate BrokeOff(lines: seq<Line>, share: seq<Name>, code: int) {
    && OneHeader(lines, |share|)
    && (forall n, i: nat :: ResultOf(lines, i, n) ==> n in share)
    && NoneTwice(lines)
    && NoSummary(lines)
    && code != 0
  }

  // ---------- Headers and summaries ----------

  lemma AppendIs<T>(a: seq<T>, x: T, y: T)
    ensures a + [x] == [y] <==> a == [] && x == y
  {
    assert (a + [x])[|a|] == x;
  }

  lemma HeaderMore(lines: seq<Line>, count: nat)
    requires lines != []
    ensures var last := |lines| - 1;
            (OneHeader(lines, count)
             <==> if lines[last].Header? then lines[last] == Header(count) && NoHeader(lines[..last])
                  else OneHeader(lines[..last], count))
  {
    var last := |lines| - 1;
    var before := lines[..last];
    assert forall j :: 0 <= j < last ==> before[j] == lines[j];
    assert forall h: nat :: h < last && OnlyHeader(lines, h, count) ==> OnlyHeader(before, h, count);
    if lines[last].Header? {
      assert OneHeader(lines, count) <==> OnlyHeader(lines, last, count);
    } else {
      assert forall h: nat :: OnlyHeader(before, h, count) ==> OnlyHeader(lines, h, count);
    }
  }

  lemma {:induction false} HeadersExactly(lines: seq<Line>, count: nat)
    ensures Observe(lines).headers == [] <==> NoHeader(lines)
    ensures Observe(lines).headers == [count] <==> OneHeader(lines, count)
  {
    if lines != [] {
      var last := |lines| - 1;
      HeadersExactly(lines[..last], count);
      HeaderMore(lines, count);
      if lines[last].Header? {
        AppendIs(Observe(lines[..last]).headers, lines[last].count, count);
      }
    }
  }

  lemma SummaryMore(lines: seq<Line>, summary: Line)
    requires lines != [] && summary.Summary?
    ensures var last := |lines| - 1;
            (OneSummary(lines, summary)
             <==> if lines[last].Summary? then lines[last] == summary && NoSummary(lines[..last])
                  else OneSummary(lines[..last], summary))
  {
    var last := |lines| - 1;
    var before := lines[..last];
    assert forall j :: 0 <= j < last ==> before[j] == lines[j];
    assert forall s: nat :: s < last && OnlySummary(lines, s, summary) ==> OnlySummary(before, s, summary);
    if lines[last].Summary? {
      assert OneSummary(lines, summary) <==> OnlySummary(lines, last, summary);
    } else {
      assert forall s: nat :: OnlySummary(before, s, summary) ==> OnlySummary(lines, s, summary);
    }
  }

  lemma {:induction false} SummariesExactly(lines: seq<Line>, summary: Line)
    requires summary.Summary?
    ensures Observe(lines).summaries == [] <==> NoSummary(lines)
    ensures Observe(lines).summaries == [summary] <==> OneSummary(lines, summary)
  {
    if lines != [] {
      var last := |lines| - 1;
      SummariesExactly(lines[..last], summary);
      SummaryMore(lines, summary);
      if lines[last].Summary? {
        AppendIs(Observe(lines[..last]).summaries, lines[last], summary);
      }
    }
  }

  // ---------- Results ----------

  lemma {:induction false} RepeatedExactly(lines: seq<Line>)
    ensures !Observe(lines).repeated <==> NoneTwice(lines)
  {
    if lines != [] {
      var last := |lines| - 1;
      var before := lines[..last];
      RepeatedExactly(before);
      forall i: nat | i < last ensures Result(lines, i) <==> Result(before, i) {
        ListingBefore(lines, i);
      }
      ListingExactly(lines, last);
      if Result(lines, last) {
        var n := lines[last].name;
        ReportedIsPrinted(before, n);
        forall i: nat ensures Prints(before, i, n) <==> ResultOf(before, i, n) {
          PrintsExactly(before, i, n);
        }
      }
    }
  }

  lemma ListingBefore(lines: seq<Line>, i: nat)
    requires lines != [] && i < |lines|
    ensures Listing(lines, i) <==> Listing(lines[..|lines| - 1], i)
  {
    var before := lines[..|lines| - 1];
    ListingExactly(lines, i);
    ListingExactly(before, i);
    assert before[..i] == lines[..i];
  }

  lemma ResultsBefore(lines: seq<Line>)
    requires lines != []
    ensures forall i: nat :: i < |lines| - 1 ==> (Result(lines, i) <==> Result(lines[..|lines| - 1], i))
  {
    forall i: nat | i < |lines| - 1 ensures Result(lines, i) <==> Result(lines[..|lines| - 1], i) {
      ListingBefore(lines, i);
    }
  }

  lemma {:induction false} CountsExactly(lines: seq<Line>, status: Status)
    requires NoneTwice(lines)
    ensures |Having(Observe(lines).reported, status)| == |Results(lines, status)|
  {
    if lines != [] {
      var last := |lines| - 1;
      var before := lines[..last];
      ResultsBefore(lines);
      CountsExactly(before, status);
      ListingExactly(lines, last);
      if Result(lines, last) {
        var n := lines[last].name;
        assert forall i: nat :: i < last && Result(lines, i) ==> lines[i].name != n;
        NamesExactly(before, n);
        assert n !in Observe(before).reported;
        OneMoreResult(before, lines, status);
      } else {
        assert Results(lines, status) == Results(before, status);
      }
    }
  }

  lemma HavingMore(reported: map<Name, Status>, n: Name, result: Status, status: Status)
    requires n !in reported
    ensures (|Having(reported[n := result], status)|
             == |Having(reported, status)| + if result == status then 1 else 0)
  {
    if result == status {
      assert Having(reported[n := result], status) == Having(reported, status) + {n};
    } else {
      assert Having(reported[n := result], status) == Having(reported, status);
    }
  }

  lemma ResultMore(before: seq<Line>, lines: seq<Line>, status: Status, i: nat)
    requires lines != [] && before == lines[..|lines| - 1] && Result(lines, |lines| - 1)
    requires i < |lines| - 1 ==> (Result(lines, i) <==> Result(before, i))
    ensures (i in Results(lines, status)
             <==> i in Results(before, status) || (i == |lines| - 1 && lines[i].status == status))
  {
  }

  lemma ResultsMore(before: seq<Line>, lines: seq<Line>, status: Status)
    requires lines != [] && before == lines[..|lines| - 1] && Result(lines, |lines| - 1)
    requires forall i: nat :: i < |lines| - 1 ==> (Result(lines, i) <==> Result(before, i))
    ensures (|Results(lines, status)|
             == |Results(before, status)| + if lines[|lines| - 1].status == status then 1 else 0)
  {
    var last := |lines| - 1;
    var more := if lines[last].status == status then {last} else {};
    forall i: nat ensures i in Results(lines, status) <==> i in Results(before, status) + more {
      ResultMore(before, lines, status, i);
    }
    assert Results(lines, status) == Results(before, status) + more;
    assert last !in Results(before, status);
  }

  lemma OneMoreResult(before: seq<Line>, lines: seq<Line>, status: Status)
    requires lines != [] && before == lines[..|lines| - 1] && Result(lines, |lines| - 1)
    requires lines[|lines| - 1].name !in Observe(before).reported
    requires forall i: nat :: i < |lines| - 1 ==> (Result(lines, i) <==> Result(before, i))
    requires |Having(Observe(before).reported, status)| == |Results(before, status)|
    ensures |Having(Observe(lines).reported, status)| == |Results(lines, status)|
  {
    var line := lines[|lines| - 1];
    ListingExactly(lines, |lines| - 1);
    ResultsMore(before, lines, status);
    HavingMore(Observe(before).reported, line.name, line.status, status);
  }

  /** A result the runner printed last for a test is the one on the receipt. */
  lemma {:induction false} LastResultStands(lines: seq<Line>, n: Name, i: nat)
    requires ResultOf(lines, i, n) && forall j: nat :: ResultOf(lines, j, n) ==> j <= i
    ensures n in Observe(lines).reported && Observe(lines).reported[n] == lines[i].status
  {
    var last := |lines| - 1;
    var before := lines[..last];
    ListingExactly(lines, last);
    if i < last {
      assert !ResultOf(lines, last, n);
      forall j: nat | ResultOf(before, j, n) ensures j <= i {
        ListingBefore(lines, j);
        assert ResultOf(lines, j, n);
      }
      ListingBefore(lines, i);
      LastResultStands(before, n, i);
    }
  }

  // ---------- The receipt ----------

  lemma StatusesExactly(lines: seq<Line>)
    requires NoneTwice(lines)
    ensures |Having(Observe(lines).reported, Passed)| == |Results(lines, Passed)|
    ensures |Having(Observe(lines).reported, Failed)| == |Results(lines, Failed)|
    ensures |Having(Observe(lines).reported, Failed)| == 0 <==> Results(lines, Failed) == {}
  {
    CountsExactly(lines, Passed);
    CountsExactly(lines, Failed);
  }

  lemma NamesExactly(lines: seq<Line>, n: Name)
    ensures n in Observe(lines).reported <==> exists i: nat :: ResultOf(lines, i, n)
  {
    ReportedIsPrinted(lines, n);
    forall i: nat ensures Prints(lines, i, n) <==> ResultOf(lines, i, n) {
      PrintsExactly(lines, i, n);
    }
  }

  /** A receipt is valid exactly if the whole share ran, as the runner's lines and its exit code have it. */
  lemma ValidExactly(what: Obligation, lines: seq<Line>, code: int, tree: Option<Tree>)
    ensures Final(what, lines, code, tree).valid <==> what.share == [] || Ran(lines, what.share, code)
  {
    var seen, share := Observe(lines), what.share;
    RepeatedExactly(lines);
    HeadersExactly(lines, |share|);
    if NoneTwice(lines) {
      StatesRan(lines, share, code);
    }
  }

  lemma StatesRan(lines: seq<Line>, share: seq<Name>, code: int)
    requires NoneTwice(lines)
    ensures Complete(Observe(lines), share, code) <==> Ran(lines, share, code)
  {
    var seen := Observe(lines);
    var failed := Results(lines, Failed);
    RepeatedExactly(lines);
    HeadersExactly(lines, |share|);
    StatusesExactly(lines);
    SummariesExactly(lines, Summary(if failed == {} then Passed else Failed, |Results(lines, Passed)|, |failed|, true));
    SharesExactly(lines, share);
  }

  lemma SharesExactly(lines: seq<Line>, share: seq<Name>)
    ensures Observe(lines).reported.Keys == (set n | n in share)
            <==> forall n :: n in share <==> exists i: nat :: ResultOf(lines, i, n)
  {
    var keys := Observe(lines).reported.Keys;
    forall n ensures n in keys <==> exists i: nat :: ResultOf(lines, i, n) {
      NamesExactly(lines, n);
    }
    if keys == (set n | n in share) {
      forall n ensures n in share <==> n in keys {
        assert n in share <==> n in (set m | m in share);
      }
    }
  }

  /** And marked interrupted exactly if the run broke off cleanly. */
  lemma InterruptedExactly(what: Obligation, lines: seq<Line>, code: int, tree: Option<Tree>)
    ensures (Final(what, lines, code, tree).interrupted
             <==> what.share != [] && BrokeOff(lines, what.share, code))
  {
    var keys := Observe(lines).reported.Keys;
    RepeatedExactly(lines);
    HeadersExactly(lines, |what.share|);
    SummariesExactly(lines, Summary(Passed, 0, 0, true));
    WithinExactly(lines, what.share);
  }

  lemma WithinExactly(lines: seq<Line>, share: seq<Name>)
    ensures Observe(lines).reported.Keys <= (set n | n in share)
            <==> forall n, i: nat :: ResultOf(lines, i, n) ==> n in share
  {
    var keys := Observe(lines).reported.Keys;
    forall n ensures n in keys <==> exists i: nat :: ResultOf(lines, i, n) {
      NamesExactly(lines, n);
    }
    if forall n, i: nat :: ResultOf(lines, i, n) ==> n in share {
      forall n | n in keys ensures n in share {
        var i: nat :| ResultOf(lines, i, n);
      }
    }
    if keys <= (set n | n in share) {
      forall n, i: nat | ResultOf(lines, i, n) ensures n in share {
        assert n in keys;
      }
    }
  }
}
