/** The validation and fold of `compute_average_gpa` (cvs_gpa.py lines
    73-104), with the file and the CSV reader replaced by their results: the
    header list (absent when the input has no header row) and the rows. */
module Aggregate {
  import opened Wrappers
  import opened Headers
  import opened GpaValue
  import opened Text

  /** A data row as the CSV reader yields it: column name to cell text. A
      short row maps its missing columns to no value. */
  type Row = map<string, Option<string>>

  /** The three validation failures the program reports. */
  datatype GpaError = NoHeaderRow | NoGpaColumn(headers: seq<string>) | NoValidGpa

  /** `row.get(col, "")`: the row's cell when the column is present, the
      empty text when it is not. */
  function Cell(row: Row, col: string): (c: Option<string>)
    ensures col in row ==> c == row[col]
    ensures col !in row ==> c == Some("")
  {
    if col in row then row[col] else Some("")
  }

  /** What `parse_gpa` makes of each row's GPA cell, in row order. */
  function ParsedCells(rows: seq<Row>, col: string): (cells: seq<Option<real>>)
    ensures |cells| == |rows|
    ensures AllInRange(cells)
  {
    MapSeq(rows, (row: Row) => ParseGpa(Cell(row, col)))
  }

  function MapSeq<A, B>(xs: seq<A>, f: A -> B): (ys: seq<B>)
    ensures |ys| == |xs| && forall i :: 0 <= i < |xs| ==> ys[i] == f(xs[i])
  {
    seq(|xs|, i requires 0 <= i < |xs| => f(xs[i]))
  }

  /** Every present value lies in [MinGpa, MaxGpa]. */
  predicate AllInRange(cells: seq<Option<real>>) {
    forall i :: 0 <= i < |cells| && cells[i].Some? ==> InRange(cells[i].value)
  }

  /** The values the loop accepts, in order: reference definition of what is
      summed and counted. */
  function Accepted(cells: seq<Option<real>>): (vs: seq<real>)
    ensures |vs| <= |cells|
  {
    if |cells| == 0 then []
    else (if cells[0].Some? then [cells[0].value] else []) + Accepted(cells[1..])
  }

  function Sum(vs: seq<real>): real {
    if |vs| == 0 then 0.0 else vs[0] + Sum(vs[1..])
  }

  /** The running aggregate of the loop: sum and count of accepted values. */
  datatype Tally = Tally(total: real, count: nat)

  const Empty: Tally := Tally(0.0, 0)

  function Plus(t: Tally, u: Tally): Tally {
    Tally(t.total + u.total, t.count + u.count)
  }

  /** One iteration of the row loop: an accepted value is added and counted;
      a rejected cell leaves the aggregate as it was. */
  function Step(t: Tally, cell: Option<real>): Tally {
    match cell
    case None => t
    case Some(g) => Tally(t.total + g, t.count + 1)
  }

  /** One iteration adds to the aggregate exactly what the single row
      contributes on its own. */
  lemma StepAddsRow(t: Tally, cell: Option<real>)
    ensures Step(t, cell) == Plus(t, Accumulate([cell]))
    ensures cell.None? ==> Step(t, cell) == t
    ensures cell.Some? ==> Step(t, cell).count == t.count + 1 && Step(t, cell).total == t.total + cell.value
  {
    assert [cell][..0] == [];
  }

  /** The aggregate after visiting the cells in order. */
  function Accumulate(cells: seq<Option<real>>): (t: Tally)
    ensures t.count <= |cells|
    decreases |cells|
  {
    if |cells| == 0 then Empty
    else Step(Accumulate(cells[..|cells| - 1]), cells[|cells| - 1])
  }

  /** When every accepted value is a valid GPA, the total lies between
      count * MinGpa and count * MaxGpa. */
  lemma {:induction false} AccumulateBounds(cells: seq<Option<real>>)
    requires AllInRange(cells)
    ensures var t := Accumulate(cells); MinGpa * t.count as real <= t.total <= MaxGpa * t.count as real
    decreases |cells|
  {
    if |cells| > 0 {
      var n := |cells| - 1;
      assert AllInRange(cells[..n]) by {
        forall i | 0 <= i < n && cells[..n][i].Some? ensures InRange(cells[..n][i].value) {
          assert cells[..n][i] == cells[i];
        }
      }
      AccumulateBounds(cells[..n]);
    }
  }

  /** Cells contribute independently: the aggregate of two stretches of
      cells is the sum of their aggregates. */
  lemma {:induction false} AccumulateConcat(a: seq<Option<real>>, b: seq<Option<real>>)
    ensures Accumulate(a + b) == Plus(Accumulate(a), Accumulate(b))
    decreases |b|
  {
    if |b| == 0 {
      assert a + b == a;
    } else {
      var n := |b| - 1;
      assert (a + b)[..|a + b| - 1] == a + b[..n];
      assert (a + b)[|a + b| - 1] == b[n];
      AccumulateConcat(a, b[..n]);
    }
  }

  /** A missing or invalid cell adds nothing, and the cells after it are
      still counted. */
  lemma SkippedCellChangesNothing(before: seq<Option<real>>, after: seq<Option<real>>)
    ensures Accumulate(before + [None] + after) == Accumulate(before + after)
  {
    var skipped: seq<Option<real>> := [None];
    AccumulateConcat(before + skipped, after);
    AccumulateConcat(before, skipped);
    AccumulateConcat(before, after);
    assert skipped[..0] == [];
  }

  /** A row that lacks the GPA column, or whose GPA cell is empty, blank or
      unfilled (a short row), is rejected by `parse_gpa`. */
  lemma MissingCellRejected(row: Row, col: string)
    requires col !in row || row[col].None? || AllSpace(row[col].value)
    ensures ParseGpa(Cell(row, col)).None?
  {
  }

  /** A row whose GPA cell `parse_gpa` rejects changes neither the total nor
      the count, and the rows after it are still visited. */
  lemma SkippedRowChangesNothing(before: seq<Row>, row: Row, after: seq<Row>, col: string)
    requires ParseGpa(Cell(row, col)).None?
    ensures Accumulate(ParsedCells(before + [row] + after, col)) == Accumulate(ParsedCells(before + after, col))
  {
    var f := (r: Row) => ParseGpa(Cell(r, col));
    MapConcat(before + [row], after, f);
    MapConcat(before, [row], f);
    MapConcat(before, after, f);
    var skipped := MapSeq([row], f);
    assert skipped == [None];
    SkippedCellChangesNothing(MapSeq(before, f), MapSeq(after, f));
  }

  /** The loop's sum and count are the sum and number of the accepted values. */
  lemma {:induction false} AccumulateIsSumOfAccepted(cells: seq<Option<real>>)
    ensures Accumulate(cells) == Tally(Sum(Accepted(cells)), |Accepted(cells)|)
    decreases |cells|
  {
    if |cells| > 0 {
      assert cells == [cells[0]] + cells[1..];
      AccumulateConcat([cells[0]], cells[1..]);
      AccumulateIsSumOfAccepted(cells[1..]);
      assert [cells[0]][..0] == [];
      var head := if cells[0].Some? then [cells[0].value] else [];
      SumConcat(head, Accepted(cells[1..]));
    }
  }

  lemma {:induction false} SumConcat(a: seq<real>, b: seq<real>)
    ensures Sum(a + b) == Sum(a) + Sum(b)
    decreases |a|
  {
    if |a| == 0 {
      assert a + b == b;
    } else {
      assert (a + b)[1..] == a[1..] + b;
      SumConcat(a[1..], b);
    }
  }

  /** Visiting the cells in any other order gives the same aggregate. */
  lemma {:induction false} AccumulatePermutation(a: seq<Option<real>>, b: seq<Option<real>>)
    requires multiset(a) == multiset(b)
    ensures Accumulate(a) == Accumulate(b)
    decreases |a|
  {
    if |a| == 0 {
      assert |b| == |multiset(b)| == 0;
    } else {
      var n := |a| - 1;
      var x := a[n];
      assert a == a[..n] + [x];
      assert x in multiset(b);
      var i :| 0 <= i < |b| && b[i] == x;
      var pre, post := b[..i], b[i + 1..];
      assert b == pre + [x] + post;
      RemoveFromMultiset(a[..n], pre, post, x, b);
      AccumulatePermutation(a[..n], pre + post);
      AccumulateConcat(a[..n], [x]);
      AccumulateConcat(pre + [x], post);
      AccumulateConcat(pre, [x]);
      AccumulateConcat(pre, post);
    }
  }

  lemma RemoveFromMultiset<T>(rest: seq<T>, pre: seq<T>, post: seq<T>, x: T, b: seq<T>)
    requires multiset(rest + [x]) == multiset(b) && b == pre + [x] + post
    ensures multiset(rest) == multiset(pre + post)
  {
    assert multiset(rest + [x]) == multiset(rest) + multiset{x};
    assert multiset(pre + [x] + post) == multiset(pre + [x]) + multiset(post);
    assert multiset(pre + [x]) == multiset(pre) + multiset{x};
    assert multiset(pre + post) == multiset(pre) + multiset(post);
    forall y ensures multiset(rest)[y] == multiset(pre + post)[y] {
      assert multiset(rest + [x])[y] == multiset(b)[y];
    }
  }

  /** Mapping a function over two permutations of each other gives two
      permutations of each other. */
  lemma {:induction false} MapPermutation<A, B>(a: seq<A>, b: seq<A>, f: A -> B)
    requires multiset(a) == multiset(b)
    ensures multiset(MapSeq(a, f)) == multiset(MapSeq(b, f))
    decreases |a|
  {
    if |a| == 0 {
      assert |b| == |multiset(b)| == 0;
    } else {
      var n := |a| - 1;
      var x := a[n];
      assert a == a[..n] + [x];
      assert x in multiset(b);
      var i :| 0 <= i < |b| && b[i] == x;
      var pre, post := b[..i], b[i + 1..];
      assert b == pre + [x] + post;
      RemoveFromMultiset(a[..n], pre, post, x, b);
      MapPermutation(a[..n], pre + post, f);
      MapConcat(a[..n], [x], f);
      MapConcat(pre + [x], post, f);
      MapConcat(pre, [x], f);
      MapConcat(pre, post, f);
      RegroupMultiset(MapSeq(a[..n], f), MapSeq(pre, f), MapSeq(post, f), f(x));
    }
  }

  lemma MapConcat<A, B>(a: seq<A>, b: seq<A>, f: A -> B)
    ensures MapSeq(a + b, f) == MapSeq(a, f) + MapSeq(b, f)
  {
  }

  lemma RegroupMultiset<T>(rest: seq<T>, pre: seq<T>, post: seq<T>, y: T)
    requires multiset(rest) == multiset(pre + post)
    ensures multiset(rest + [y]) == multiset(pre + [y] + post)
  {
    assert multiset(rest + [y]) == multiset(rest) + multiset{y};
    assert multiset(pre + [y] + post) == multiset(pre + [y]) + multiset(post);
    assert multiset(pre + [y]) == multiset(pre) + multiset{y};
    assert multiset(pre + post) == multiset(pre) + multiset(post);
  }

  /** A mean of values in [MinGpa, MaxGpa] lies in the same range. */
  lemma MeanInRange(total: real, count: nat)
    requires count > 0
    requires MinGpa * count as real <= total <= MaxGpa * count as real
    ensures InRange(total / count as real)
  {
    var c := count as real;
    var m := total / c;
    assert m * c == total;
    if m > MaxGpa {
      ProductPositive(m - MaxGpa, c);
    }
    if m < MinGpa {
      ProductPositive(MinGpa - m, c);
    }
  }

  lemma ProductPositive(x: real, y: real)
    requires x > 0.0 && y > 0.0
    ensures x * y > 0.0
  {
  }

  /** The column `compute_average_gpa` reads, when there is a header row and
      one of its names is recognised. */
  function GpaColumn(headers: Option<seq<string>>): Option<string> {
    match headers
    case None => None
    case Some(hs) => FindGpaColumn(hs)
  }

  /** `compute_average_gpa` after the file is read: a missing header row, a
      header list without a GPA column, or rows without a single valid GPA
      fail; otherwise the result is the mean of the accepted values. */
  function ComputeAverage(headers: Option<seq<string>>, rows: seq<Row>): (r: Result<real, GpaError>)
    ensures headers.None? <==> r == Failure(NoHeaderRow)
    ensures (r.Failure? && r.error.NoGpaColumn?) <==> (headers.Some? && FindGpaColumn(headers.value).None?)
    ensures r.Failure? && r.error.NoGpaColumn? ==> r.error.headers == headers.value
    ensures r == Failure(NoValidGpa) <==>
      (GpaColumn(headers).Some? && |Accepted(ParsedCells(rows, GpaColumn(headers).value))| == 0)
    ensures r.Success? ==> InRange(r.value)
    ensures r.Success? ==>
      var vs := Accepted(ParsedCells(rows, GpaColumn(headers).value));
      |vs| > 0 && r.value == Sum(vs) / |vs| as real
  {
    match headers
    case None => Failure(NoHeaderRow)
    case Some(hs) =>
      match FindGpaColumn(hs)
      case None => Failure(NoGpaColumn(hs))
      case Some(col) =>
        var cells := ParsedCells(rows, col);
        var t := Accumulate(cells);
        AccumulateIsSumOfAccepted(cells);
        AccumulateBounds(cells);
        if t.count == 0 then Failure(NoValidGpa)
        else
          MeanInRange(t.total, t.count);
          Success(t.total / t.count as real)
  }

  /** The rows are not looked at when there is no header row or no GPA
      column. */
  lemma FailureBeforeRows(headers: Option<seq<string>>, rows: seq<Row>, others: seq<Row>)
    requires GpaColumn(headers).None?
    ensures ComputeAverage(headers, rows) == ComputeAverage(headers, others)
  {
  }

  /** The average does not depend on the order of the rows. */
  lemma AverageIgnoresRowOrder(headers: Option<seq<string>>, rows: seq<Row>, shuffled: seq<Row>)
    requires multiset(rows) == multiset(shuffled)
    ensures ComputeAverage(headers, rows) == ComputeAverage(headers, shuffled)
  {
    if GpaColumn(headers).Some? {
      var col := GpaColumn(headers).value;
      MapPermutation(rows, shuffled, (row: Row) => ParseGpa(Cell(row, col)));
      AccumulatePermutation(ParsedCells(rows, col), ParsedCells(shuffled, col));
    }
  }

  /** The row loop of `compute_average_gpa`: one pass over the rows in
      order, adding and counting each value `parse_gpa` accepts and skipping
      every other row. */
  method SumAndCount(rows: seq<Row>, col: string) returns (total: real, count: nat)
    ensures Tally(total, count) == Accumulate(ParsedCells(rows, col))
  {
    ghost var cells := ParsedCells(rows, col);
    total, count := 0.0, 0;
    for i := 0 to |rows|
      invariant Tally(total, count) == Accumulate(cells[..i])
    {
      var gpa := ParseGpa(Cell(rows[i], col));
      LoopStep(rows, col, i, Tally(total, count), gpa);
      if gpa.Some? {
        total := total + gpa.value;
        count := count + 1;
      }
    }
    assert cells[..|rows|] == cells;
  }

  /** One turn of the row loop extends the fold by the next row's cell. */
  lemma LoopStep(rows: seq<Row>, col: string, i: nat, t: Tally, gpa: Option<real>)
    requires i < |rows| && t == Accumulate(ParsedCells(rows, col)[..i])
    requires gpa == ParseGpa(Cell(rows[i], col))
    ensures Step(t, gpa) == Accumulate(ParsedCells(rows, col)[..i + 1])
  {
    var cells := ParsedCells(rows, col);
    assert cells[i] == gpa;
    AccumulateSnoc(cells, i);
  }

  lemma AccumulateSnoc(cells: seq<Option<real>>, i: nat)
    requires i < |cells|
    ensures Accumulate(cells[..i + 1]) == Step(Accumulate(cells[..i]), cells[i])
  {
    assert cells[..i + 1][..i] == cells[..i];
  }

  /** `compute_average_gpa` as the program runs it: validate the header row,
      find the column, make the single pass, then divide. */
  method ComputeAverageGpa(headers: Option<seq<string>>, rows: seq<Row>) returns (r: Result<real, GpaError>)
    ensures r == ComputeAverage(headers, rows)
  {
    if headers.None? {
      return Failure(NoHeaderRow);
    }
    var gpaCol := FindGpaColumn(headers.value);
    if gpaCol.None? {
      return Failure(NoGpaColumn(headers.value));
    }
    var total, count := SumAndCount(rows, gpaCol.value);
    if count == 0 {
      return Failure(NoValidGpa);
    }
    return Success(total / count as real);
  }
}
