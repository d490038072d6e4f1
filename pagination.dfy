/** The page arithmetic of the form generator (app.py:1345-1354): how many
    pages a table of `total` rows has at `per` rows a page, and which rows
    page `page` shows. */
module Pagination {

  /** The number of pages; an empty table still has one page. */
  function TotalPages(total: nat, per: nat): (r: nat)
    requires per > 0
  {
    if total > 0 then (total - 1) / per + 1 else 1
  }

  /** The first row of a page (pages count from 1). */
  function StartIdx(page: nat, per: nat): nat
    requires page >= 1
  {
    (page - 1) * per
  }

  /** One past the last row of a page. */
  function EndIdx(page: nat, per: nat, total: nat): nat
    requires page >= 1
  {
    if StartIdx(page, per) + per < total then StartIdx(page, per) + per else total
  }

  /** The page count is the least number of pages that holds every row: the
      pages before the last cannot hold them all, and all pages can. */
  lemma TotalPagesIsLeast(total: nat, per: nat)
    requires per > 0
    ensures TotalPages(total, per) >= 1
    ensures total <= TotalPages(total, per) * per
    ensures total > 0 ==> (TotalPages(total, per) - 1) * per < total
  {
    if total > 0 {
      var q := (total - 1) / per;
      var r := (total - 1) % per;
      assert total - 1 == q * per + r;
      assert TotalPages(total, per) * per == q * per + per;
    }
  }

  /** Every page the page selector allows shows a slice of the table of at
      most `per` rows, and a non-empty one when the table has rows. */
  lemma PageWithinTable(page: nat, per: nat, total: nat)
    requires per > 0 && 1 <= page <= TotalPages(total, per)
    ensures StartIdx(page, per) <= EndIdx(page, per, total) <= total
    ensures EndIdx(page, per, total) - StartIdx(page, per) <= per
    ensures total > 0 ==> StartIdx(page, per) < EndIdx(page, per, total)
  {
    TotalPagesIsLeast(total, per);
    if total > 0 {
      assert (page - 1) * per <= (TotalPages(total, per) - 1) * per by {
        MulMonotone(page - 1, TotalPages(total, per) - 1, per);
      }
    } else {
      assert page == 1;
    }
  }

  lemma MulMonotone(a: nat, b: nat, c: nat)
    requires a <= b
    ensures a * c <= b * c
  {
  }

  /** The page that shows row `i`. */
  function PageOf(i: nat, per: nat): nat
    requires per > 0
  {
    i / per + 1
  }

  /** Every row of the table is on exactly one page: the page `PageOf`
      names, which the selector allows, shows it, and no other page does. */
  lemma RowOnExactlyOnePage(i: nat, per: nat, total: nat, page: nat)
    requires per > 0 && i < total && page >= 1
    ensures 1 <= PageOf(i, per) <= TotalPages(total, per)
    ensures StartIdx(page, per) <= i < EndIdx(page, per, total) <==> page == PageOf(i, per)
  {
    var q := i / per;
    assert i == q * per + i % per;
    assert q <= (total - 1) / per by {
      DivMonotone(i, total - 1, per);
    }
    if page < q + 1 {
      MulMonotone(page, q, per);
      assert StartIdx(page, per) + per <= i;
    } else if page > q + 1 {
      MulMonotone(q + 1, page - 1, per);
      assert StartIdx(page, per) > i;
    }
  }

  lemma DivMonotone(a: nat, b: nat, d: nat)
    requires a <= b && d > 0
    ensures a / d <= b / d
  {
    var qa, qb := a / d, b / d;
    assert qa * d <= a <= b < (qb + 1) * d;
    if qa > qb {
      MulMonotone(qb + 1, qa, d);
    }
  }

  /** The number a row's form carries on the single-record path: its
      position in the page plus one, counted from the page's first row. */
  function FormNumber(page: nat, per: nat, idx: nat): nat
    requires page >= 1
  {
    StartIdx(page, per) + idx + 1
  }

  /** Form numbers on the single-record path run from 1 to the table size,
      and different rows get different numbers. */
  lemma FormNumbersDistinct(p1: nat, i1: nat, p2: nat, i2: nat, per: nat, total: nat)
    requires per > 0 && p1 >= 1 && p2 >= 1
    requires StartIdx(p1, per) + i1 < EndIdx(p1, per, total)
    requires StartIdx(p2, per) + i2 < EndIdx(p2, per, total)
    ensures 1 <= FormNumber(p1, per, i1) <= total
    ensures FormNumber(p1, per, i1) == FormNumber(p2, per, i2) <==> p1 == p2 && i1 == i2
  {
    var r1 := StartIdx(p1, per) + i1;
    var r2 := StartIdx(p2, per) + i2;
    if r1 == r2 {
      RowOnExactlyOnePage(r1, per, total, p1);
      RowOnExactlyOnePage(r2, per, total, p2);
    }
  }
}
