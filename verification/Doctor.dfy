/**
  The doctor report: an append-only list of verdicts, a score computed in `u32`
  arithmetic, and the next action of the first failure that carries one.
*/
module Doctor {
  import opened Wrappers

  datatype Verdict = Pass | Warn | Fail | Skip

  datatype Row = Row(verdict: Verdict, name: string, detail: string)

  const U32_LIMIT := 0x1_0000_0000

  // ---- what the score means ------------------------------------------------------

  function TotalOf(v: Verdict): nat {
    if v.Skip? then 0 else 10
  }

  function WeightOf(v: Verdict): nat {
    match v
    case Pass => 10
    case Warn => 7
    case Fail => 0
    case Skip => 0
  }

  function Total(rows: seq<Row>): (t: nat)
    ensures t <= 10 * |rows|
  {
    if rows == [] then 0 else Total(rows[..|rows| - 1]) + TotalOf(rows[|rows| - 1].verdict)
  }

  function Weight(rows: seq<Row>): (w: nat)
    ensures w <= Total(rows)
  {
    if rows == [] then 0 else Weight(rows[..|rows| - 1]) + WeightOf(rows[|rows| - 1].verdict)
  }

  /** `((weight * 100) + total / 2) / total`, or 100 when nothing counts. */
  function Rounded(weight: nat, total: nat): nat {
    if total == 0 then 100 else (weight * 100 + total / 2) / total
  }

  function ScoreOf(rows: seq<Row>): nat {
    Rounded(Weight(rows), Total(rows))
  }

  /** No intermediate value of the computation reaches 2^32. */
  predicate FitsU32(rows: seq<Row>) {
    Total(rows) < U32_LIMIT && Weight(rows) * 100 + Total(rows) / 2 < U32_LIMIT
  }

  // ---- what a run reports ------------------------------------------------------------

  /** One row added, by `add` (no next action) or by `add_with_next`. */
  datatype Event = Event(row: Row, next: Option<string>)

  function NextAfter(current: Option<string>, e: Event): Option<string> {
    if e.row.verdict == Fail && e.next.Some? && current.None? then e.next else current
  }

  function NextOf(events: seq<Event>): Option<string> {
    if events == [] then None else NextAfter(NextOf(events[..|events| - 1]), events[|events| - 1])
  }

  function RowsOf(events: seq<Event>): (r: seq<Row>)
    ensures |r| == |events|
    ensures forall i :: 0 <= i < |r| ==> r[i] == events[i].row
  {
    seq(|events|, i requires 0 <= i < |events| => events[i].row)
  }

  // ---- the report ----------------------------------------------------------------------

  class Report {
    var rows: seq<Row>
    var nextAction: Option<string>
    /** Every call so far. */
    ghost var events: seq<Event>

    /** Over any run of calls, rows and next action are decided by the calls alone. */
    ghost predicate Valid()
      reads this
    {
      rows == RowsOf(events) && nextAction == NextOf(events)
    }

    constructor ()
      ensures Valid() && events == []
    {
      rows, nextAction, events := [], None, [];
    }

    method Add(verdict: Verdict, name: string, detail: string)
      requires Valid()
      modifies this
      ensures Valid() && events == old(events) + [Event(Row(verdict, name, detail), None)]
    {
      rows := rows + [Row(verdict, name, detail)];
      events := events + [Event(Row(verdict, name, detail), None)];
      assert events[..|events| - 1] == old(events);
    }

    method AddWithNext(verdict: Verdict, name: string, detail: string, next: string)
      requires Valid()
      modifies this
      ensures Valid() && events == old(events) + [Event(Row(verdict, name, detail), Some(next))]
    {
      rows := rows + [Row(verdict, name, detail)];
      if verdict == Fail && nextAction.None? {
        nextAction := Some(next);
      }
      events := events + [Event(Row(verdict, name, detail), Some(next))];
      assert events[..|events| - 1] == old(events);
    }

    /** Every sum and product stays within `u32`, and the final cast never fails. */
    method Score() returns (score: nat)
      requires FitsU32(rows)
      ensures score == ScoreOf(rows) && score <= 100
    {
      var total, weight := 0, 0;
      var i := 0;
      while i < |rows|
        invariant 0 <= i <= |rows|
        invariant total == Total(rows[..i]) && weight == Weight(rows[..i])
      {
        assert rows[..i + 1][..i] == rows[..i];
        match rows[i].verdict {
          case Pass => total, weight := total + 10, weight + 10;
          case Warn => total, weight := total + 10, weight + 7;
          case Fail => total := total + 10;
          case Skip =>
        }
        i := i + 1;
      }
      assert rows[..i] == rows;
      if total == 0 {
        return 100;
      }
      RoundedBounds(weight, total);
      score := (weight * 100 + total / 2) / total;
    }

    method HasAnyFail() returns (b: bool)
      ensures b <==> exists r | r in rows :: r.verdict == Fail
    {
      for i := 0 to |rows|
        invariant forall k :: 0 <= k < i ==> rows[k].verdict != Fail
      {
        if rows[i].verdict == Fail {
          return true;
        }
      }
      return false;
    }
  }

  // ---- rounding ------------------------------------------------------------------------------

  lemma MulMono(a: int, b: int, c: int)
    requires a <= b && c >= 0
    ensures a * c <= b * c
  {
  }

  lemma RoundedBounds(weight: nat, total: nat)
    requires weight <= total
    ensures Rounded(weight, total) <= 100
  {
    if total > 0 {
      var n := weight * 100 + total / 2;
      if n / total > 100 { MulMono(101, n / total, total); }
    }
  }

  lemma QuotientMonotone(a: nat, b: nat, d: nat)
    requires a <= b && d > 0
    ensures a / d <= b / d
  {
    if a / d > b / d { MulMono(b / d + 1, a / d, d); }
  }

  /** More weight on the same total never lowers the score. */
  lemma RoundedMonotone(w1: nat, w2: nat, total: nat)
    requires w1 <= w2
    ensures Rounded(w1, total) <= Rounded(w2, total)
  {
    if total > 0 { QuotientMonotone(w1 * 100 + total / 2, w2 * 100 + total / 2, total); }
  }

  lemma {:induction false} TotalsAreTens(rows: seq<Row>)
    ensures Total(rows) % 10 == 0
  {
    if rows != [] { TotalsAreTens(rows[..|rows| - 1]); }
  }

  lemma NearestQuotient(w: nat, t: nat)
    requires t > 0 && t % 2 == 0
    ensures 2 * Rounded(w, t) * t - t <= 200 * w < 2 * Rounded(w, t) * t + t
  {
    var n := w * 100 + t / 2;
    var s := n / t;
    assert n == s * t + n % t;
    assert 2 * s * t == 2 * (s * t);
  }

  /** The score is the integer nearest to `100 * weight / total`; a half rounds up. */
  lemma ScoreIsNearest(rows: seq<Row>)
    requires Total(rows) > 0
    ensures var s, w, t := ScoreOf(rows), Weight(rows), Total(rows);
            2 * s * t - t <= 200 * w < 2 * s * t + t
  {
    hide Weight, Total, Rounded;
    TotalsAreTens(rows);
    NearestQuotient(Weight(rows), Total(rows));
  }

  function Count(rows: seq<Row>, v: Verdict): nat {
    if rows == [] then 0 else Count(rows[..|rows| - 1], v) + if rows[|rows| - 1].verdict == v then 1 else 0
  }

  lemma {:induction false} SumsCount(rows: seq<Row>)
    ensures Total(rows) == 10 * (Count(rows, Pass) + Count(rows, Warn) + Count(rows, Fail))
    ensures Weight(rows) == 10 * Count(rows, Pass) + 7 * Count(rows, Warn)
  {
    if rows != [] { SumsCount(rows[..|rows| - 1]); }
  }

  /** A pass counts 100, a warning 70, a failure 0, a skip not at all; the score is the nearest integer to the mean. */
  lemma ScoreIsMeanOfVerdicts(rows: seq<Row>)
    ensures var n, sum := Count(rows, Pass) + Count(rows, Warn) + Count(rows, Fail), 100 * Count(rows, Pass) + 70 * Count(rows, Warn);
            if n == 0 then ScoreOf(rows) == 100
            else 2 * (ScoreOf(rows) * n) - n <= 2 * sum < 2 * (ScoreOf(rows) * n) + n
  {
    hide Total, Weight, Count;
    SumsCount(rows);
    var n := Count(rows, Pass) + Count(rows, Warn) + Count(rows, Fail);
    if n > 0 {
      ScoreIsNearest(rows);
      assert 2 * ScoreOf(rows) * Total(rows) == 20 * (ScoreOf(rows) * n) by { TensOut(ScoreOf(rows), n); }
    }
  }

  lemma TensOut(s: nat, n: nat)
    ensures 2 * s * (10 * n) == 20 * (s * n)
  {
  }

  // ---- how the score moves -----------------------------------------------------------------------

  lemma {:induction false} SumsAppend(a: seq<Row>, b: seq<Row>)
    ensures Total(a + b) == Total(a) + Total(b) && Weight(a + b) == Weight(a) + Weight(b)
  {
    if b == [] {
      assert a + b == a;
    } else {
      assert (a + b)[..|a + b| - 1] == a + b[..|b| - 1];
      SumsAppend(a, b[..|b| - 1]);
    }
  }

  lemma SumsOne(r: Row)
    ensures Total([r]) == TotalOf(r.verdict) && Weight([r]) == WeightOf(r.verdict)
  {
    assert [r][..0] == [];
  }

  function Without(b: seq<Row>, k: nat): seq<Row>
    requires k < |b|
  {
    b[..k] + b[k + 1..]
  }

  lemma RowsWithout(b: seq<Row>, k: nat)
    requires k < |b|
    ensures multiset(Without(b, k)) == multiset(b) - multiset{b[k]}
  {
    Whole(b, k);
  }

  lemma Whole(b: seq<Row>, k: nat)
    requires k < |b|
    ensures b[..k] + [b[k]] + b[k + 1..] == b
  {
  }

  lemma SumsAround(front: seq<Row>, r: Row, back: seq<Row>)
    ensures Total(front + [r] + back) == TotalOf(r.verdict) + Total(front + back)
    ensures Weight(front + [r] + back) == WeightOf(r.verdict) + Weight(front + back)
  {
    hide *;
    SumsAppend(front + [r], back);
    SumsAppend(front, [r]);
    SumsAppend(front, back);
    SumsOne(r);
  }

  lemma SumsWithout(b: seq<Row>, k: nat)
    requires k < |b|
    ensures Total(b) == TotalOf(b[k].verdict) + Total(Without(b, k))
    ensures Weight(b) == WeightOf(b[k].verdict) + Weight(Without(b, k))
  {
    hide Total, Weight, TotalOf, WeightOf;
    Whole(b, k);
    SumsAround(b[..k], b[k], b[k + 1..]);
  }

  /** Reordering rows changes neither sum. */
  lemma {:induction false} SumsIgnoreOrder(a: seq<Row>, b: seq<Row>)
    requires multiset(a) == multiset(b)
    ensures Total(a) == Total(b) && Weight(a) == Weight(b)
    decreases |a|
  {
    hide Total, Weight, TotalOf, WeightOf, Without;
    if a == [] {
      assert |multiset(b)| == 0;
    } else {
      assert a[0] in multiset(b);
      var k :| 0 <= k < |b| && b[k] == a[0];
      RowsWithout(a, 0);
      SumsWithout(a, 0);
      RowsWithout(b, k);
      SumsWithout(b, k);
      assert |multiset(Without(a, 0))| < |multiset(a)|;
      SumsIgnoreOrder(Without(a, 0), Without(b, k));
    }
  }

  /** The score does not depend on the order of the rows. */
  lemma ScoreIgnoresOrder(a: seq<Row>, b: seq<Row>)
    requires multiset(a) == multiset(b)
    ensures ScoreOf(a) == ScoreOf(b)
  {
    SumsIgnoreOrder(a, b);
  }

  /** Adding a row anywhere: a skip changes nothing, a pass never lowers, a fail never raises. */
  lemma AddedRowMovesScore(before: seq<Row>, row: Row, after: seq<Row>)
    ensures var old', new' := ScoreOf(before + after), ScoreOf(before + [row] + after);
            && (row.verdict == Skip ==> new' == old')
            && (row.verdict == Pass ==> new' >= old')
            && (row.verdict == Fail ==> new' <= old')
  {
    hide Weight, Total, Rounded;
    SumsAppend(before, after);
    SumsAppend(before + [row], after);
    SumsAppend(before, [row]);
    SumsOne(row);
    TotalsAreTens(before + after);
    var w, t := Weight(before + after), Total(before + after);
    if row.verdict == Pass { PassNeverLowers(w, t); }
    if row.verdict == Fail { FailNeverRaises(w, t); }
  }

  lemma PassNeverLowers(w: nat, t: nat)
    requires w <= t && t % 10 == 0
    ensures Rounded(w + 10, t + 10) >= Rounded(w, t)
  {
    if t > 0 {
      RoundedBounds(w, t);
      var q := Rounded(w, t);
      var n := (w + 10) * 100 + (t + 10) / 2;
      assert q * t <= w * 100 + t / 2;
      assert q * (t + 10) == q * t + 10 * q <= n;
      AtLeast(n, t + 10, q);
    }
  }

  lemma FailNeverRaises(w: nat, t: nat)
    requires w <= t && t % 10 == 0
    ensures Rounded(w, t + 10) <= Rounded(w, t)
  {
    var n := w * 100 + (t + 10) / 2;
    var q := n / (t + 10);
    if t > 0 && q > 0 {
      assert q * (t + 10) == q * t + 10 * q <= n;
      AtLeast(w * 100 + t / 2, t, q);
    } else if t == 0 {
      assert n == 5;
    }
  }

  lemma AtLeast(n: nat, d: nat, q: nat)
    requires d > 0 && q * d <= n
    ensures n / d >= q
  {
    if n / d < q { MulMono(n / d + 1, q, d); }
  }

  /** Fail to warn to pass. */
  predicate NoWorse(a: Verdict, b: Verdict) {
    a == b || (a == Fail && (b == Warn || b == Pass)) || (a == Warn && b == Pass)
  }

  /** Improving one row never lowers the score. */
  lemma ImprovedRowNeverLowers(before: seq<Row>, row: Row, improved: Row, after: seq<Row>)
    requires NoWorse(row.verdict, improved.verdict)
    ensures ScoreOf(before + [row] + after) <= ScoreOf(before + [improved] + after)
  {
    hide Weight, Total, Rounded;
    SumsAppend(before + [row], after);
    SumsAppend(before, [row]);
    SumsAppend(before + [improved], after);
    SumsAppend(before, [improved]);
    SumsOne(row);
    SumsOne(improved);
    RoundedMonotone(Weight(before + [row] + after), Weight(before + [improved] + after), Total(before + [row] + after));
  }

  /** Reports of up to four million rows stay within `u32`. */
  lemma ShortReportsFit(rows: seq<Row>)
    requires |rows| <= 4_000_000
    ensures FitsU32(rows)
  {
  }

  // ---- next action -------------------------------------------------------------------------------

  predicate Decides(e: Event) {
    e.row.verdict == Fail && e.next.Some?
  }

  /** Over a whole run the next action is that of the first failure that carries one, or none. */
  lemma {:induction false} FirstFailDecidesNext(events: seq<Event>, i: nat)
    requires i <= |events| && forall j :: 0 <= j < i ==> !Decides(events[j])
    ensures i == |events| ==> NextOf(events) == None
    ensures i < |events| && Decides(events[i]) ==> NextOf(events) == events[i].next
  {
    if events != [] {
      var front := events[..|events| - 1];
      if i < |events| {
        FirstFailDecidesNext(front, i);
      } else {
        FirstFailDecidesNext(front, i - 1);
      }
    }
  }

  /** Read off a report after any run of calls on it. */
  lemma NextActionOfReport(report: Report)
    requires report.Valid()
    ensures report.nextAction.None? <==> forall i :: 0 <= i < |report.events| ==> !Decides(report.events[i])
    ensures report.nextAction.Some? ==>
              exists i: nat :: (i < |report.events| && Decides(report.events[i]) && report.events[i].next == report.nextAction &&
                                forall j :: 0 <= j < i ==> !Decides(report.events[j]))
  {
    var events := report.events;
    var i := 0;
    while i < |events| && !Decides(events[i])
      invariant 0 <= i <= |events| && forall j :: 0 <= j < i ==> !Decides(events[j])
    {
      i := i + 1;
    }
    FirstFailDecidesNext(events, i);
  }
}
