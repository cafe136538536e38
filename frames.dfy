/** Tables as the cleaning stage sees them: named columns and rows of
    optional string cells, and row selection by a boolean mask. */
module Frames {
  import opened Common

  /** One cell; `None` is a missing value. */
  type Cell = Option<string>

  /** One row: its cells, in column order. */
  type Row = seq<Cell>

  /** A table: column names and rows, in file order. */
  datatype Frame = Frame(columns: seq<string>, rows: seq<Row>)

  /** What the CSV reader guarantees: column names are unique and every row
      has one cell per column. */
  predicate WellFormed(f: Frame) {
    (forall i, j :: 0 <= i < j < |f.columns| ==> f.columns[i] != f.columns[j]) &&
    (forall row :: row in f.rows ==> |row| == |f.columns|)
  }

  /** The position of the column called `name`, or None when the table has
      no such column (indexing `df[name]` then raises KeyError). */
  function ColumnIndex(columns: seq<string>, name: string): (r: Option<nat>)
    ensures r.None? <==> name !in columns
    ensures r.Some? ==> r.value < |columns| && columns[r.value] == name && name !in columns[..r.value]
  {
    if columns == [] then None
    else if columns[0] == name then Some(0)
    else
      match ColumnIndex(columns[1..], name)
      case None => None
      case Some(i) =>
        assert columns[1..][..i] == columns[1..i + 1];
        Some(i + 1)
  }

  /** The cell of `row` in column `col`; a cell outside the row is missing. */
  function CellAt(row: Row, col: nat): Cell {
    if col < |row| then row[col] else None
  }

  /** `dropna` keeps a row only when none of its cells is missing. */
  predicate NoneMissing(row: Row) {
    forall i :: 0 <= i < |row| ==> row[i].Some?
  }

  /** Row predicates the stage selects by. */
  datatype RowTest =
    | NotMissing                                    // no cell is missing
    | LabelEquals(col: nat, target: string)         // the mask `df['label'] == target`
    | LabelEqualsAll(col: nat, targets: seq<string>) // equal to every one of `targets`
    | Both(first: RowTest, second: RowTest)         // both tests hold

  predicate Holds(t: RowTest, row: Row) {
    match t
    case NotMissing => NoneMissing(row)
    case LabelEquals(col, target) => CellAt(row, col) == Some(target)
    case LabelEqualsAll(col, targets) => forall i :: 0 <= i < |targets| ==> CellAt(row, col) == Some(targets[i])
    case Both(a, b) => Holds(a, row) && Holds(b, row)
  }

  /** Selecting rows by a mask, `df[mask]`: the rows that pass, in order. */
  function Filter(rows: seq<Row>, t: RowTest): (r: seq<Row>)
    ensures |r| <= |rows|
    ensures forall row :: row in r <==> row in rows && Holds(t, row)
  {
    if rows == [] then []
    else
      assert forall row :: row in rows <==> row == rows[0] || row in rows[1..];
      (if Holds(t, rows[0]) then [rows[0]] else []) + Filter(rows[1..], t)
  }

  /** `idx` embeds `r` in `s`: the k-th element of `r` is the idx[k]-th of
      `s`, and the positions strictly increase (relative order is kept). */
  ghost predicate Embeds<T>(r: seq<T>, s: seq<T>, idx: seq<nat>) {
    |idx| == |r| &&
    (forall k :: 0 <= k < |idx| ==> idx[k] < |s| && r[k] == s[idx[k]]) &&
    (forall j, k :: 0 <= j < k < |idx| ==> idx[j] < idx[k])
  }

  /** `r` is a subsequence of `s`. */
  ghost predicate IsSubsequence<T>(r: seq<T>, s: seq<T>) {
    exists idx :: Embeds(r, s, idx)
  }

  /** An embedding into the tail of `s` is, one place to the right, an
      embedding into `s` that never uses position 0. */
  lemma EmbedsInTail<T>(r: seq<T>, s: seq<T>, idx: seq<nat>) returns (shifted: seq<nat>)
    requires s != [] && Embeds(r, s[1..], idx)
    ensures Embeds(r, s, shifted)
    ensures forall k :: 0 <= k < |shifted| ==> 0 < shifted[k]
  {
    shifted := seq(|idx|, k requires 0 <= k < |idx| => idx[k] + 1);
    forall k | 0 <= k < |shifted|
      ensures shifted[k] < |s| && r[k] == s[shifted[k]]
    {
      assert r[k] == s[1..][idx[k]];
    }
  }

  /** Keeping the head of `s` in front of such an embedding embeds the
      longer sequence. */
  lemma EmbedsCons<T>(r: seq<T>, s: seq<T>, idx: seq<nat>)
    requires s != [] && Embeds(r, s, idx)
    requires forall k :: 0 <= k < |idx| ==> 0 < idx[k]
    ensures Embeds([s[0]] + r, s, [0] + idx)
  {
  }

  /** The rows a mask selects form a subsequence of the table's rows. */
  lemma {:induction false} FilterEmbeds(rows: seq<Row>, t: RowTest) returns (idx: seq<nat>)
    ensures Embeds(Filter(rows, t), rows, idx)
  {
    if rows == [] {
      idx := [];
    } else {
      var rest := Filter(rows[1..], t);
      var tail := FilterEmbeds(rows[1..], t);
      var shifted := EmbedsInTail(rest, rows, tail);
      if Holds(t, rows[0]) {
        EmbedsCons(rest, rows, shifted);
        idx := [0] + shifted;
        assert Filter(rows, t) == [rows[0]] + rest;
      } else {
        idx := shifted;
        assert Filter(rows, t) == rest;
      }
    }
  }

  /** Every row that passes keeps all its copies, and no other row is
      kept: the selection counts each row exactly as often as the input
      does when it passes, and never otherwise. */
  lemma {:induction false} FilterCount(rows: seq<Row>, t: RowTest)
    ensures forall row :: multiset(Filter(rows, t))[row] == if Holds(t, row) then multiset(rows)[row] else 0
  {
    if rows != [] {
      FilterCount(rows[1..], t);
      assert rows == [rows[0]] + rows[1..];
    }
  }

  lemma FilterIsSubsequence(rows: seq<Row>, t: RowTest)
    ensures IsSubsequence(Filter(rows, t), rows)
  {
    var idx := FilterEmbeds(rows, t);
  }

  /** Embeddings compose: a subsequence of a subsequence is a subsequence. */
  lemma EmbedsCompose<T>(a: seq<T>, b: seq<T>, c: seq<T>, ab: seq<nat>, bc: seq<nat>) returns (ac: seq<nat>)
    requires Embeds(a, b, ab) && Embeds(b, c, bc)
    ensures Embeds(a, c, ac)
  {
    ac := seq(|ab|, k requires 0 <= k < |ab| => bc[ab[k]]);
  }

  lemma SubsequenceTransitive<T>(a: seq<T>, b: seq<T>, c: seq<T>)
    requires IsSubsequence(a, b) && IsSubsequence(b, c)
    ensures IsSubsequence(a, c)
  {
    var ab :| Embeds(a, b, ab);
    var bc :| Embeds(b, c, bc);
    var ac := EmbedsCompose(a, b, c, ab, bc);
  }

  /** Two tests that agree on every row select the same rows. */
  lemma {:induction false} FilterAgree(rows: seq<Row>, t: RowTest, u: RowTest)
    requires forall row :: row in rows ==> (Holds(t, row) <==> Holds(u, row))
    ensures Filter(rows, t) == Filter(rows, u)
  {
    if rows != [] {
      assert rows[0] in rows;
      assert forall row :: row in rows[1..] ==> row in rows;
      FilterAgree(rows[1..], t, u);
    }
  }

  /** A mask that every row passes selects the whole table. */
  lemma {:induction false} FilterKeepsAll(rows: seq<Row>, t: RowTest)
    requires forall row :: row in rows ==> Holds(t, row)
    ensures Filter(rows, t) == rows
  {
    if rows != [] {
      assert rows[0] in rows;
      assert forall row :: row in rows[1..] ==> row in rows;
      FilterKeepsAll(rows[1..], t);
      assert rows == [rows[0]] + rows[1..];
    }
  }

  /** Selecting by `t` and then by `u` is selecting by both at once. */
  lemma {:induction false} FilterFuse(rows: seq<Row>, t: RowTest, u: RowTest)
    ensures Filter(Filter(rows, t), u) == Filter(rows, Both(t, u))
  {
    if rows != [] {
      FilterFuse(rows[1..], t, u);
      var head := if Holds(t, rows[0]) then [rows[0]] else [];
      var rest := Filter(rows[1..], t);
      assert Filter(rows, t) == head + rest;
      if Holds(t, rows[0]) {
        assert (head + rest)[1..] == rest;
      } else {
        assert head + rest == rest;
      }
    }
  }

  /** Two row-wise selections commute. */
  lemma FilterCommutes(rows: seq<Row>, t: RowTest, u: RowTest)
    ensures Filter(Filter(rows, t), u) == Filter(Filter(rows, u), t)
  {
    FilterFuse(rows, t, u);
    FilterFuse(rows, u, t);
    FilterAgree(rows, Both(t, u), Both(u, t));
  }
}
