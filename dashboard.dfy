/**
 The views the main page derives from the sales table: the three metrics
 (prior-year total, current total with its delta, year-on-year growth), the
 per-branch sums behind the main bar chart, and the detail panels, one per
 branch with data, dealt alternately into two columns.
 */
module Dashboard {
  import opened Ordering
  import opened Sales

  /** The two amount columns: Sprzedaz_LY and Sprzedaz_Current. */
  datatype Measure = PriorYear | Current

  function Amount(r: Row, m: Measure): real {
    match m
    case PriorYear => r.priorYear
    case Current => r.current
  }

  /** `df[column].sum()`; the sum of no rows is 0. */
  function Sum(rows: seq<Row>, m: Measure): (t: real)
    ensures rows == [] ==> t == 0.0
    ensures NonNegative(rows) ==> t >= 0.0
  {
    if rows == [] then 0.0
    else
      assert NonNegative(rows) ==> NonNegative(rows[1..]) by {
        if NonNegative(rows) {
          forall i | 0 <= i < |rows| - 1 ensures rows[1..][i].priorYear >= 0.0 && rows[1..][i].current >= 0.0 {
            assert rows[1..][i] == rows[i + 1];
          }
        }
      }
      Amount(rows[0], m) + Sum(rows[1..], m)
  }

  lemma {:induction false} SumAppend(a: seq<Row>, b: seq<Row>, m: Measure)
    ensures Sum(a + b, m) == Sum(a, m) + Sum(b, m)
  {
    if a == [] {
      assert a + b == b;
    } else {
      assert (a + b)[0] == a[0] && (a + b)[1..] == a[1..] + b;
      SumAppend(a[1..], b, m);
    }
  }

  /** Overwriting one row changes a total by the difference in that row. */
  lemma {:induction false} SumAfterWrite(rows: seq<Row>, i: nat, r: Row, m: Measure)
    requires i < |rows|
    ensures Sum(rows[i := r], m) == Sum(rows, m) - Amount(rows[i], m) + Amount(r, m)
  {
    if i > 0 {
      assert rows[i := r][1..] == rows[1..][i - 1 := r];
      SumAfterWrite(rows[1..], i - 1, r, m);
    } else {
      assert rows[i := r][1..] == rows[1..];
    }
  }

  /** The new-customer path adds the new row's amounts to both totals. */
  lemma CreateAddsToTotals(rows: seq<Row>, row: Row, m: Measure)
    ensures Sum(rows + [row], m) == Sum(rows, m) + Amount(row, m)
  {
    SumAppend(rows, [row], m);
    assert [row][1..] == [];
  }

  /** The update path moves the current total by the change of the matched
      row's current sales and leaves the prior-year total alone. */
  lemma UpdateShiftsTotals(rows: seq<Row>, i: nat, r: Row)
    requires i < |rows| && r.priorYear == rows[i].priorYear
    ensures Sum(rows[i := r], PriorYear) == Sum(rows, PriorYear)
    ensures Sum(rows[i := r], Current) == Sum(rows, Current) - rows[i].current + r.current
  {
    SumAfterWrite(rows, i, r, PriorYear);
    SumAfterWrite(rows, i, r, Current);
  }

  /** The YoY growth in percent: `(curr / ly - 1) * 100`, and 0 when the
      prior-year total is not positive (a policy that avoids dividing by 0). */
  function Growth(ly: real, curr: real): (g: real)
    ensures ly <= 0.0 ==> g == 0.0
    ensures ly > 0.0 ==> g * ly == (curr - ly) * 100.0
    ensures ly > 0.0 ==> (g > 0.0 <==> curr > ly) && (g == 0.0 <==> curr == ly) && (g < 0.0 <==> curr < ly)
    ensures ly > 0.0 && curr >= 0.0 ==> g >= -100.0
  {
    if ly > 0.0 then
      var g := (curr / ly - 1.0) * 100.0;
      assert g * ly == (curr - ly) * 100.0;
      g
    else 0.0
  }

  /** Examples of the growth figure. */
  lemma GrowthExamples(x: real)
    ensures Growth(0.0, x) == 0.0
    ensures Growth(100.0, 150.0) == 50.0
    ensures Growth(100.0, 100.0) == 0.0
  {
  }

  /** The three metric tiles of the main page. */
  datatype Metrics = Metrics(totalPrior: real, totalCurrent: real, delta: real, growth: real)

  function ComputeMetrics(rows: seq<Row>): (r: Metrics)
    ensures r.totalPrior == Sum(rows, PriorYear) && r.totalCurrent == Sum(rows, Current)
    ensures r.delta == r.totalCurrent - r.totalPrior
    ensures r.growth == Growth(r.totalPrior, r.totalCurrent)
    ensures r.totalPrior <= 0.0 ==> r.growth == 0.0
    ensures r.totalPrior == r.totalCurrent ==> r.growth == 0.0
    ensures r.totalPrior > 0.0 ==> (r.growth > 0.0 <==> r.totalCurrent > r.totalPrior)
    ensures NonNegative(rows) ==> r.totalPrior >= 0.0 && r.totalCurrent >= 0.0 && r.growth >= -100.0
    ensures rows == [] ==> r == Metrics(0.0, 0.0, 0.0, 0.0)
  {
    var ly := Sum(rows, PriorYear);
    var curr := Sum(rows, Current);
    Metrics(ly, curr, curr - ly, Growth(ly, curr))
  }

  /** The Oddzial column. */
  function BranchColumn(rows: seq<Row>): (r: seq<string>)
    ensures |r| == |rows|
    ensures forall i :: 0 <= i < |rows| ==> r[i] == rows[i].branch
  {
    seq(|rows|, i requires 0 <= i < |rows| => rows[i].branch)
  }

  /** `sorted(df['Oddzial'].unique())`: every branch that has a row, once,
      in code-point order. */
  function BranchOrder(rows: seq<Row>): (r: seq<string>)
    ensures StrictlySorted(r)
    ensures forall b :: b in r <==> HasBranch(rows, b)
  {
    var col := BranchColumn(rows);
    var r := Sort(Distinct(col));
    assert forall b :: b in col <==> HasBranch(rows, b) by {
      forall b ensures b in col <==> HasBranch(rows, b) {
        if b in col {
          var i :| 0 <= i < |col| && col[i] == b;
          assert rows[i].branch == b;
        }
        if HasBranch(rows, b) {
          var i :| 0 <= i < |rows| && rows[i].branch == b;
          assert col[i] == b;
        }
      }
    }
    r
  }

  /** A strictly sorted sequence has no repeated element. */
  lemma StrictlySortedNoDuplicates(s: seq<string>)
    requires StrictlySorted(s)
    ensures NoDuplicates(s)
  {
    forall i, j | 0 <= i < j < |s| ensures s[i] != s[j] {
      LessIrreflexive(s[i]);
    }
  }

  /** One row of `df.groupby('Oddzial')[[...]].sum().reset_index()`. */
  datatype BranchTotal = BranchTotal(branch: string, priorYear: real, current: real)

  function GroupAmount(t: BranchTotal, m: Measure): real {
    match m
    case PriorYear => t.priorYear
    case Current => t.current
  }

  /** The sums of the rows of each of the branches `bs`, in that order. */
  function BranchTotals(rows: seq<Row>, bs: seq<string>): (g: seq<BranchTotal>)
    ensures |g| == |bs|
    ensures forall i :: 0 <= i < |bs| ==> g[i].branch == bs[i]
  {
    if bs == [] then []
    else
      var sub := RowsOf(rows, bs[0]);
      [BranchTotal(bs[0], Sum(sub, PriorYear), Sum(sub, Current))] + BranchTotals(rows, bs[1..])
  }

  lemma {:induction false} BranchTotalsAt(rows: seq<Row>, bs: seq<string>, i: nat, m: Measure)
    requires i < |bs|
    ensures GroupAmount(BranchTotals(rows, bs)[i], m) == Sum(RowsOf(rows, bs[i]), m)
  {
    if i > 0 {
      BranchTotalsAt(rows, bs[1..], i - 1, m);
    }
  }

  /** The group-by: one row per branch that has data, in sorted order (the
      default of `groupby`), holding the sums of that branch's rows; a branch
      without rows gets none. */
  function ByBranch(rows: seq<Row>): (g: seq<BranchTotal>)
    ensures forall i, j :: 0 <= i < j < |g| ==> Less(g[i].branch, g[j].branch)
    ensures forall b :: (exists i :: 0 <= i < |g| && g[i].branch == b) <==> HasBranch(rows, b)
    ensures forall i, m :: 0 <= i < |g| ==> GroupAmount(g[i], m) == Sum(RowsOf(rows, g[i].branch), m)
  {
    var order := BranchOrder(rows);
    var g := BranchTotals(rows, order);
    assert forall b :: (exists i :: 0 <= i < |g| && g[i].branch == b) <==> b in order by {
      forall b ensures (exists i :: 0 <= i < |g| && g[i].branch == b) <==> b in order {
        if b in order {
          var i :| 0 <= i < |order| && order[i] == b;
          assert g[i].branch == b;
        }
      }
    }
    forall i, m | 0 <= i < |g| ensures GroupAmount(g[i], m) == Sum(RowsOf(rows, g[i].branch), m) {
      BranchTotalsAt(rows, order, i, m);
    }
    g
  }

  /** The column total of some group-by rows. */
  function GroupSum(g: seq<BranchTotal>, m: Measure): real {
    if g == [] then 0.0 else GroupAmount(g[0], m) + GroupSum(g[1..], m)
  }

  /** What one row contributes to the group-by over `bs`: its amount in the
      group of its branch, if `bs` lists it. */
  function Hits(bs: seq<string>, r: Row, m: Measure): real {
    if bs == [] then 0.0 else (if bs[0] == r.branch then Amount(r, m) else 0.0) + Hits(bs[1..], r, m)
  }

  lemma {:induction false} HitsOnce(bs: seq<string>, r: Row, m: Measure)
    requires NoDuplicates(bs)
    ensures Hits(bs, r, m) == if r.branch in bs then Amount(r, m) else 0.0
  {
    if bs != [] {
      assert NoDuplicates(bs[1..]) by {
        forall i, j | 0 <= i < j < |bs| - 1 ensures bs[1..][i] != bs[1..][j] {
          assert bs[1..][i] == bs[i + 1] && bs[1..][j] == bs[j + 1];
        }
      }
      HitsOnce(bs[1..], r, m);
      assert bs == [bs[0]] + bs[1..];
      if bs[0] == r.branch {
        assert r.branch !in bs[1..] by {
          forall j | 0 <= j < |bs| - 1 ensures bs[1..][j] != bs[0] {
            assert bs[1..][j] == bs[j + 1];
          }
        }
      }
    }
  }

  lemma {:induction false} BranchTotalsOfNothing(bs: seq<string>, m: Measure)
    ensures GroupSum(BranchTotals([], bs), m) == 0.0
  {
    if bs != [] {
      BranchTotalsOfNothing(bs[1..], m);
    }
  }

  lemma {:induction false} BranchTotalsCons(r: Row, rest: seq<Row>, bs: seq<string>, m: Measure)
    ensures GroupSum(BranchTotals([r] + rest, bs), m) == Hits(bs, r, m) + GroupSum(BranchTotals(rest, bs), m)
  {
    if bs != [] {
      var rows := [r] + rest;
      assert rows[0] == r && rows[1..] == rest;
      var head := if r.branch == bs[0] then [r] else [];
      assert RowsOf(rows, bs[0]) == head + RowsOf(rest, bs[0]);
      SumAppend(head, RowsOf(rest, bs[0]), m);
      assert head != [] ==> head[1..] == [];
      BranchTotalsCons(r, rest, bs[1..], m);
    }
  }

  /** Group sums over a duplicate-free list of branches that covers every
      row add up to the column total. */
  lemma {:induction false} BranchTotalsAddUp(rows: seq<Row>, bs: seq<string>, m: Measure)
    requires NoDuplicates(bs)
    requires forall i :: 0 <= i < |rows| ==> rows[i].branch in bs
    ensures GroupSum(BranchTotals(rows, bs), m) == Sum(rows, m)
  {
    if rows == [] {
      BranchTotalsOfNothing(bs, m);
    } else {
      assert rows == [rows[0]] + rows[1..];
      assert forall i :: 0 <= i < |rows| - 1 ==> rows[1..][i].branch in bs by {
        forall i | 0 <= i < |rows| - 1 ensures rows[1..][i].branch in bs {
          assert rows[1..][i] == rows[i + 1];
        }
      }
      BranchTotalsAddUp(rows[1..], bs, m);
      BranchTotalsCons(rows[0], rows[1..], bs, m);
      HitsOnce(bs, rows[0], m);
    }
  }

  /** The per-branch sums of the main chart add up to the metric totals. */
  lemma ByBranchAddsUp(rows: seq<Row>, m: Measure)
    ensures GroupSum(ByBranch(rows), m) == Sum(rows, m)
  {
    var order := BranchOrder(rows);
    StrictlySortedNoDuplicates(order);
    assert forall i :: 0 <= i < |rows| ==> rows[i].branch in order by {
      forall i | 0 <= i < |rows| ensures rows[i].branch in order {
        assert HasBranch(rows, rows[i].branch);
      }
    }
    BranchTotalsAddUp(rows, order, m);
  }

  /** One detail panel: the branch's header and the rows `sub_df` its
      per-customer chart is drawn from. */
  datatype Panel = Panel(branch: string, rows: seq<Row>)

  /** The panel of branch `b`. */
  function PanelFor(rows: seq<Row>, b: string): (p: Panel)
    ensures p.branch == b && p.rows == RowsOf(rows, b)
  {
    Panel(b, RowsOf(rows, b))
  }

  /** `left` and `right` hold the panels of the branches at the even and at
      the odd positions of the list `order`: the i-th branch's panel sits in
      column `i % 2`, at row `i / 2`. */
  predicate DealtFrom(rows: seq<Row>, order: seq<string>, left: seq<Panel>, right: seq<Panel>) {
    && |left| == (|order| + 1) / 2 && |right| == |order| / 2
    && (forall j :: 0 <= j < |left| ==> left[j] == PanelFor(rows, order[2 * j]))
    && (forall j :: 0 <= j < |right| ==> right[j] == PanelFor(rows, order[2 * j + 1]))
  }

  /** The panels of the sorted branch list, dealt into the two columns. */
  predicate Dealt(rows: seq<Row>, left: seq<Panel>, right: seq<Panel>) {
    DealtFrom(rows, BranchOrder(rows), left, right)
  }

  /** The panel loop `for i, name in enumerate(sorted(...))`, drawing each
      panel into `cols[i % 2]`. */
  method LayoutPanels(rows: seq<Row>) returns (left: seq<Panel>, right: seq<Panel>)
    ensures Dealt(rows, left, right)
  {
    var order := BranchOrder(rows);
    left, right := [], [];
    for i := 0 to |order|
      invariant DealtFrom(rows, order[..i], left, right)
    {
      var panel := PanelFor(rows, order[i]);
      DealtStep(rows, order, i, left, right);
      if i % 2 == 0 {
        left := left + [panel];
      } else {
        right := right + [panel];
      }
    }
    assert order[..|order|] == order;
  }

  /** Dealing the panel of the next branch of `order` to column `i % 2`. */
  lemma DealtStep(rows: seq<Row>, order: seq<string>, i: nat, left: seq<Panel>, right: seq<Panel>)
    requires i < |order| && DealtFrom(rows, order[..i], left, right)
    ensures i % 2 == 0 ==> DealtFrom(rows, order[..i + 1], left + [PanelFor(rows, order[i])], right)
    ensures i % 2 == 1 ==> DealtFrom(rows, order[..i + 1], left, right + [PanelFor(rows, order[i])])
  {
    var pre, next := order[..i], order[..i + 1];
    assert forall k :: 0 <= k < i ==> next[k] == pre[k];
    assert next[i] == order[i];
  }

  /** The two columns differ in length by at most one, the left one being
      the longer. */
  lemma LayoutBalanced(rows: seq<Row>, left: seq<Panel>, right: seq<Panel>)
    requires Dealt(rows, left, right)
    ensures 0 <= |left| - |right| <= 1
  {
  }

  /** The panels dealt from `order` are those of exactly its branches. */
  lemma DealtFromCovers(rows: seq<Row>, order: seq<string>, left: seq<Panel>, right: seq<Panel>, b: string)
    requires DealtFrom(rows, order, left, right)
    ensures b in order <==>
              (exists j :: 0 <= j < |left| && left[j].branch == b) || (exists j :: 0 <= j < |right| && right[j].branch == b)
  {
    if b in order {
      var i :| 0 <= i < |order| && order[i] == b;
      var j := i / 2;
      if i % 2 == 0 {
        assert 2 * j == i && left[j].branch == order[2 * j];
      } else {
        assert 2 * j + 1 == i && right[j].branch == order[2 * j + 1];
      }
    }
    if exists j :: 0 <= j < |left| && left[j].branch == b {
      var j :| 0 <= j < |left| && left[j].branch == b;
      assert order[2 * j] == b;
    }
    if exists j :: 0 <= j < |right| && right[j].branch == b {
      var j :| 0 <= j < |right| && right[j].branch == b;
      assert order[2 * j + 1] == b;
    }
  }

  /** Each branch with data gets a panel, and only those do. */
  lemma LayoutCoversBranches(rows: seq<Row>, left: seq<Panel>, right: seq<Panel>, b: string)
    requires Dealt(rows, left, right)
    ensures HasBranch(rows, b) <==>
              (exists j :: 0 <= j < |left| && left[j].branch == b) || (exists j :: 0 <= j < |right| && right[j].branch == b)
  {
    DealtFromCovers(rows, BranchOrder(rows), left, right, b);
  }

  /** No branch gets two panels, in one column or across the two. */
  lemma LayoutOncePerBranch(rows: seq<Row>, left: seq<Panel>, right: seq<Panel>)
    requires Dealt(rows, left, right)
    ensures forall j, j' :: 0 <= j < j' < |left| ==> left[j].branch != left[j'].branch
    ensures forall j, j' :: 0 <= j < j' < |right| ==> right[j].branch != right[j'].branch
    ensures forall j, j' :: 0 <= j < |left| && 0 <= j' < |right| ==> left[j].branch != right[j'].branch
  {
    var order := BranchOrder(rows);
    StrictlySortedNoDuplicates(order);
  }

  /** Two Warszawa rows with prior-year sales 100 and
      200 and current sales 150 and 180 group to the one row (Warszawa, 300,
      330). */
  lemma ByBranchExample(w: string, a: Row, b: Row)
    requires w == "Warszawa" && a.branch == w && b.branch == w
    requires a.priorYear == 100.0 && b.priorYear == 200.0 && a.current == 150.0 && b.current == 180.0
    ensures ByBranch([a, b]) == [BranchTotal(w, 300.0, 330.0)]
  {
    var rows := [a, b];
    var order := BranchOrder(rows);
    assert HasBranch(rows, w) by { assert rows[0].branch == w; }
    assert forall x :: x in order <==> x == w;
    SortedListingUnique(order, [w]);
    assert rows[1..] == [b] && [b][1..] == [];
    assert RowsOf([b], w) == [b];
    assert RowsOf(rows, w) == rows;
    assert Sum([b], PriorYear) == b.priorYear + Sum([], PriorYear) == 200.0;
    assert Sum([b], Current) == b.current + Sum([], Current) == 180.0;
    assert Sum(rows, PriorYear) == 300.0 && Sum(rows, Current) == 330.0;
  }
}
