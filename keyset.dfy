/** The data the keyset paginator works on: rows of an ordered queryset, the
    order in which key values compare, the direction-aware lexicographic order
    on key tuples, and filters written as a disjunction of lookup clauses, the
    way the paginator builds them. */
module Keyset {
  import opened Seqs

  /** A row of the queryset: each column's value, rendered as text. */
  type Row = map<string, string>

  /** Code-point lexicographic order on text: the order in which a column is
      compared with a cursor value. */
  predicate Less(a: string, b: string)
    decreases |a|
  {
    |b| > 0 && (|a| == 0 || a[0] < b[0] || (a[0] == b[0] && Less(a[1..], b[1..])))
  }

  lemma {:induction false} LessIrreflexive(a: string)
    ensures !Less(a, a)
    decreases |a|
  {
    if |a| > 0 {
      LessIrreflexive(a[1..]);
    }
  }

  lemma {:induction false} LessTransitive(a: string, b: string, c: string)
    requires Less(a, b) && Less(b, c)
    ensures Less(a, c)
    decreases |a|
  {
    if |a| > 0 && a[0] == b[0] && b[0] == c[0] {
      LessTransitive(a[1..], b[1..], c[1..]);
    }
  }

  /** `x` lies strictly beyond `y` on one key: above it for an ascending key,
      below it for a descending one. */
  predicate Beats(x: string, y: string, descending: bool) {
    if descending then Less(x, y) else Less(y, x)
  }

  /** The keys agree before index `i` and key `i` decides in favour of `k`. */
  predicate FirstDifferenceAt(k: seq<string>, p: seq<string>, desc: seq<bool>, i: int)
    requires |k| == |p| == |desc|
  {
    0 <= i < |k| && k[..i] == p[..i] && Beats(k[i], p[i], desc[i])
  }

  /** Direction-aware strict lexicographic order: key tuple `k` comes strictly
      after position `p` when `desc[i]` says key `i` is descending. */
  predicate After(k: seq<string>, p: seq<string>, desc: seq<bool>)
    requires |k| == |p| == |desc|
  {
    |k| > 0 && (Beats(k[0], p[0], desc[0]) || (k[0] == p[0] && After(k[1..], p[1..], desc[1..])))
  }

  /** `After` holds exactly when there is a first differing key that decides
      in favour of `k`: the disjunction over key prefixes. */
  lemma {:induction false} AfterIsFirstDifference(k: seq<string>, p: seq<string>, desc: seq<bool>)
    requires |k| == |p| == |desc|
    ensures After(k, p, desc) <==> exists i :: FirstDifferenceAt(k, p, desc, i)
  {
    if |k| > 0 {
      AfterIsFirstDifference(k[1..], p[1..], desc[1..]);
      if After(k, p, desc) {
        if Beats(k[0], p[0], desc[0]) {
          assert FirstDifferenceAt(k, p, desc, 0);
        } else {
          var j :| FirstDifferenceAt(k[1..], p[1..], desc[1..], j);
          assert k[..j + 1] == [k[0]] + k[1..][..j];
          assert p[..j + 1] == [p[0]] + p[1..][..j];
          assert FirstDifferenceAt(k, p, desc, j + 1);
        }
      }
      if exists i :: FirstDifferenceAt(k, p, desc, i) {
        var i :| FirstDifferenceAt(k, p, desc, i);
        if i > 0 {
          assert k[..i][0] == p[..i][0];
          assert k[1..][..i - 1] == k[..i][1..];
          assert p[1..][..i - 1] == p[..i][1..];
          assert FirstDifferenceAt(k[1..], p[1..], desc[1..], i - 1);
        }
      }
    }
  }

  /** No key tuple comes after itself: the row a cursor was taken from is
      never part of the page that follows it. */
  lemma {:induction false} AfterIrreflexive(k: seq<string>, desc: seq<bool>)
    requires |k| == |desc|
    ensures !After(k, k, desc)
  {
    if |k| > 0 {
      LessIrreflexive(k[0]);
      AfterIrreflexive(k[1..], desc[1..]);
    }
  }

  function Flip(desc: seq<bool>): (r: seq<bool>)
    ensures |r| == |desc| && forall i :: 0 <= i < |desc| ==> r[i] == !desc[i]
  {
    seq(|desc|, i requires 0 <= i < |desc| => !desc[i])
  }

  /** Flipping every direction turns "after" into "before". */
  lemma {:induction false} AfterFlip(a: seq<string>, b: seq<string>, desc: seq<bool>)
    requires |a| == |b| == |desc|
    ensures After(a, b, Flip(desc)) <==> After(b, a, desc)
  {
    if |a| > 0 {
      assert Flip(desc)[1..] == Flip(desc[1..]);
      AfterFlip(a[1..], b[1..], desc[1..]);
    }
  }

  lemma {:induction false} AfterTransitive(a: seq<string>, b: seq<string>, c: seq<string>, desc: seq<bool>)
    requires |a| == |b| == |c| == |desc|
    requires After(a, b, desc) && After(b, c, desc)
    ensures After(a, c, desc)
  {
    if Beats(a[0], b[0], desc[0]) && Beats(b[0], c[0], desc[0]) {
      if desc[0] { LessTransitive(a[0], b[0], c[0]); } else { LessTransitive(c[0], b[0], a[0]); }
    } else if a[0] == b[0] && b[0] == c[0] {
      AfterTransitive(a[1..], b[1..], c[1..], desc[1..]);
    }
  }

  /** The values of `columns` in `row`, in order. */
  function Key(row: Row, columns: seq<string>): (k: seq<string>)
    requires HasAll(row, columns)
    ensures |k| == |columns| && forall i :: 0 <= i < |columns| ==> k[i] == row[columns[i]]
  {
    seq(|columns|, i requires 0 <= i < |columns| => row[columns[i]])
  }

  predicate HasAll(row: Row, columns: seq<string>) {
    forall i :: 0 <= i < |columns| ==> columns[i] in row
  }

  predicate HasColumns(rows: seq<Row>, columns: seq<string>) {
    forall k :: 0 <= k < |rows| ==> HasAll(rows[k], columns)
  }

  /** Every row lies strictly after the rows before it: the order is total on
      these rows (the ordering ends in a unique column). */
  predicate StrictlySorted(rows: seq<Row>, columns: seq<string>, desc: seq<bool>)
    requires |columns| == |desc|
  {
    HasColumns(rows, columns) &&
    forall i, j :: 0 <= i < j < |rows| ==> After(Key(rows[j], columns), Key(rows[i], columns), desc)
  }

  /** Lookup operators of a filter clause: `__lt`, `__gt` and `__exact`. */
  datatype Op = Lt | Gt | Exact

  datatype Lookup = Lookup(column: string, op: Op)

  /** One `Q(**kwargs)`: every lookup in it must hold. */
  type Clause = map<Lookup, string>

  /** `Q(c0) | Q(c1) | ...`; the empty disjunction is `Q()`, which keeps every row. */
  type Filter = seq<Clause>

  predicate Holds(row: Row, l: Lookup, v: string) {
    l.column in row &&
    match l.op
    case Lt => Less(row[l.column], v)
    case Gt => Less(v, row[l.column])
    case Exact => row[l.column] == v
  }

  predicate ClauseHolds(row: Row, c: Clause) {
    forall l :: l in c ==> Holds(row, l, c[l])
  }

  predicate FilterHolds(row: Row, f: Filter) {
    |f| == 0 || exists i :: 0 <= i < |f| && ClauseHolds(row, f[i])
  }

  /** Adding a lookup the clause does not yet have adds one more condition. */
  lemma {:induction false} ClauseExtend(row: Row, c: Clause, l: Lookup, v: string)
    requires l !in c
    ensures ClauseHolds(row, c[l := v]) <==> ClauseHolds(row, c) && Holds(row, l, v)
  {
    if ClauseHolds(row, c[l := v]) {
      forall m | m in c ensures Holds(row, m, c[m]) {
        assert m != l && c[l := v][m] == c[m];
      }
      assert l in c[l := v] && c[l := v][l] == v;
    }
    if ClauseHolds(row, c) && Holds(row, l, v) {
      var c' := c[l := v];
      forall m | m in c' ensures Holds(row, m, c'[m]) {
        if m != l {
          assert m in c && c'[m] == c[m];
        } else {
          assert c'[m] == v;
        }
      }
      assert ClauseHolds(row, c');
    }
  }

  /** `queryset.filter(f)`: the rows that satisfy `f`, in their original order. */
  function FilterRows(rows: seq<Row>, f: Filter): (r: seq<Row>)
    ensures |r| <= |rows|
    ensures forall x :: x in r <==> x in rows && FilterHolds(x, f)
  {
    if rows == [] then []
    else if FilterHolds(rows[0], f) then [rows[0]] + FilterRows(rows[1..], f)
    else FilterRows(rows[1..], f)
  }

  /** Filtering keeps the order of the rows it keeps: a strictly sorted input
      gives a strictly sorted output. */
  lemma {:induction false} FilterRowsSorted(rows: seq<Row>, f: Filter, columns: seq<string>, desc: seq<bool>)
    requires |columns| == |desc|
    requires StrictlySorted(rows, columns, desc)
    ensures StrictlySorted(FilterRows(rows, f), columns, desc)
  {
    if rows != [] {
      var tail := rows[1..];
      assert StrictlySorted(tail, columns, desc) by {
        forall i, j | 0 <= i < j < |tail|
          ensures After(Key(tail[j], columns), Key(tail[i], columns), desc)
        {
          assert tail[i] == rows[i + 1] && tail[j] == rows[j + 1];
          assert HasAll(rows[i + 1], columns) && HasAll(rows[j + 1], columns);
        }
      }
      FilterRowsSorted(tail, f, columns, desc);
      if FilterHolds(rows[0], f) {
        var rest := FilterRows(tail, f);
        var r := [rows[0]] + rest;
        forall i, j | 0 <= i < j < |r|
          ensures After(Key(r[j], columns), Key(r[i], columns), desc)
        {
          if i == 0 {
            assert r[j] in tail;
            var m :| 0 <= m < |tail| && tail[m] == r[j];
            assert rows[m + 1] == r[j];
          } else {
            assert r[i] == rest[i - 1] && r[j] == rest[j - 1];
          }
        }
      }
    }
  }

  /** A contiguous run of a strictly sorted sequence is strictly sorted. */
  lemma {:induction false} SortedRun(rows: seq<Row>, i: nat, j: nat, columns: seq<string>, desc: seq<bool>)
    requires |columns| == |desc| && i <= j <= |rows|
    requires StrictlySorted(rows, columns, desc)
    ensures StrictlySorted(rows[i..j], columns, desc)
  {
    var run := rows[i..j];
    forall a | 0 <= a < |run| ensures HasAll(run[a], columns) {
      assert run[a] == rows[i + a];
    }
    forall a, b | 0 <= a < b < |run| ensures After(Key(run[b], columns), Key(run[a], columns), desc) {
      assert run[a] == rows[i + a] && run[b] == rows[i + b];
    }
  }

  /** Filtering keeps every row's columns. */
  lemma {:induction false} FilterRowsHasColumns(rows: seq<Row>, f: Filter, columns: seq<string>)
    requires HasColumns(rows, columns)
    ensures HasColumns(FilterRows(rows, f), columns)
  {
    var r := FilterRows(rows, f);
    forall k | 0 <= k < |r| ensures HasAll(r[k], columns) {
      assert r[k] in rows;
      var i :| 0 <= i < |rows| && rows[i] == r[k];
    }
  }

  /** Filtering never adds or reorders rows. */
  lemma {:induction false} FilterRowsSubsequence(rows: seq<Row>, f: Filter)
    ensures Subsequence(FilterRows(rows, f), rows)
  {
    if rows != [] {
      FilterRowsSubsequence(rows[1..], f);
      if FilterHolds(rows[0], f) {
        assert FilterRows(rows, f)[1..] == FilterRows(rows[1..], f);
      }
    }
  }
}
