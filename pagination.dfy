/** The in-repository cursor paginator: ordering reversal, the `|`-joined
    Base64 cursor, the keyset filter built by `apply_cursor`, page assembly in
    `page()` and cursor extraction from an instance. The ordered queryset is
    a sequence of rows already in the order the ordering defines. */
module Pagination {
  import opened Wrappers
  import opened Text
  import opened Keyset
  import opened Seqs
  import Helpers

  const Delimiter: char := '|'

  const InvalidCursorMessage: string := "Invalid Cursor"
  const NoOrderingMessage: string := "Ordering must be applied for cursor pagination."
  const LimitMessage: string := "Exceeded maximum pagination limit."
  const FirstAndLastMessage: string := "Cannot process first and last."

  /** The exceptions the paginator raises. */
  datatype Exception = ValueError(message: string) | InvalidCursor(message: string) | AttributeError(name: string)

  // ---------------------------------------------------------------------------
  // Ordering entries: "column" is ascending, "-column" descending.

  predicate IsDescending(entry: string) {
    StartsWith(entry, "-")
  }

  /** The column an entry names: every leading `-` stripped. */
  function Column(entry: string): string {
    LStrip(entry, '-')
  }

  function Columns(ordering: seq<string>): (r: seq<string>)
    ensures |r| == |ordering| && forall i :: 0 <= i < |ordering| ==> r[i] == Column(ordering[i])
  {
    seq(|ordering|, i requires 0 <= i < |ordering| => Column(ordering[i]))
  }

  /** Which keys compare with `__lt`: the descending ones, or the ascending
      ones when seeking backwards. */
  function Directions(ordering: seq<string>, reverse: bool): (r: seq<bool>)
    ensures |r| == |ordering| && forall i :: 0 <= i < |ordering| ==> r[i] == (IsDescending(ordering[i]) != reverse)
  {
    seq(|ordering|, i requires 0 <= i < |ordering| => IsDescending(ordering[i]) != reverse)
  }

  predicate Distinct(columns: seq<string>) {
    forall i, j :: 0 <= i < j < |columns| ==> columns[i] != columns[j]
  }

  /** No two entries of the ordering name the same column. */
  predicate DistinctColumns(ordering: seq<string>) {
    Distinct(Columns(ordering))
  }

  predicate NoDoubleDash(ordering: seq<string>) {
    forall i :: 0 <= i < |ordering| ==> !StartsWith(ordering[i], "--")
  }

  /** `invert` inside `reverse_ordering`: drop one leading `-`, or add one. */
  function Invert(entry: string): (r: string)
    ensures Column(r) == Column(entry)
    ensures !StartsWith(entry, "--") ==> (IsDescending(r) <==> !IsDescending(entry))
  {
    if StartsWith(entry, "-") then
      assert entry == "-" + entry[1..];
      entry[1..]
    else
      assert ("-" + entry)[1..] == entry;
      "-" + entry
  }

  /** `reverse_ordering`. */
  function ReverseOrdering(ordering: seq<string>): (r: seq<string>)
    ensures |r| == |ordering|
    ensures forall i :: 0 <= i < |ordering| ==>
      (IsDescending(ordering[i]) ==> "-" + r[i] == ordering[i]) &&
      (!IsDescending(ordering[i]) ==> r[i] == "-" + ordering[i])
  {
    seq(|ordering|, i requires 0 <= i < |ordering| => Invert(ordering[i]))
  }

  lemma {:induction false} SingleDash(entry: string)
    requires StartsWith(entry, "-") && !StartsWith(entry, "--")
    ensures !StartsWith(entry[1..], "-")
  {
    if |entry| >= 2 {
      assert entry[..2] == [entry[0], entry[1]];
      assert entry[1..][..1] == [entry[1]];
    }
  }

  /** Reversing twice gives the ordering back, when no entry starts with `--`. */
  lemma {:induction false} ReverseOrderingInvolution(ordering: seq<string>)
    requires NoDoubleDash(ordering)
    ensures ReverseOrdering(ReverseOrdering(ordering)) == ordering
  {
    var r := ReverseOrdering(ordering);
    forall i | 0 <= i < |ordering| ensures Invert(r[i]) == ordering[i] {
      var e := ordering[i];
      if StartsWith(e, "-") {
        SingleDash(e);
      } else {
        assert ("-" + e)[1..] == e;
      }
    }
  }

  /** The proviso is needed: `--x` comes back as `x`. */
  lemma {:induction false} ReverseOrderingDoubleDash()
    ensures ReverseOrdering(ReverseOrdering(["--x"])) == ["x"]
  {
    assert Invert("--x") == "-x";
    assert Invert("-x") == "x";
  }

  lemma {:induction false} InvertKeepsColumn(entry: string)
    ensures Column(Invert(entry)) == Column(entry)
  {
    if !StartsWith(entry, "-") {
      assert ("-" + entry)[1..] == entry;
    }
  }

  /** A column name that does not start with `-` is its own column, with or
      without one `-` in front. */
  lemma {:induction false} PlainColumn(column: string)
    requires |column| > 0 && column[0] != '-'
    ensures Column(column) == column && Column("-" + column) == column
  {
    assert ("-" + column)[1..] == column;
  }

  /** Reversing an ordering keeps its columns and flips every direction. */
  lemma {:induction false} ReverseOrderingFlips(ordering: seq<string>)
    requires NoDoubleDash(ordering)
    ensures Columns(ReverseOrdering(ordering)) == Columns(ordering)
    ensures Directions(ReverseOrdering(ordering), false) == Flip(Directions(ordering, false))
  {
    var r := ReverseOrdering(ordering);
    forall i | 0 <= i < |ordering|
      ensures Column(r[i]) == Column(ordering[i]) && IsDescending(r[i]) == !IsDescending(ordering[i])
    {
      var e := ordering[i];
      InvertKeepsColumn(e);
      if StartsWith(e, "-") {
        SingleDash(e);
      } else {
        assert ("-" + e)[..1] == "-";
      }
    }
  }

  /** Re-ordering a strictly sorted queryset by the reversed ordering is the
      same as reversing it. */
  lemma {:induction false} ReversedQuerysetSorted(rows: seq<Row>, ordering: seq<string>)
    requires NoDoubleDash(ordering)
    requires StrictlySorted(rows, Columns(ordering), Directions(ordering, false))
    ensures StrictlySorted(Reverse(rows), Columns(ReverseOrdering(ordering)), Directions(ReverseOrdering(ordering), false))
  {
    ReverseOrderingFlips(ordering);
    var cols := Columns(ordering);
    var d := Directions(ordering, false);
    var rev := Reverse(rows);
    forall i, j | 0 <= i < j < |rev|
      ensures HasAll(rev[i], cols) && HasAll(rev[j], cols) && After(Key(rev[j], cols), Key(rev[i], cols), Flip(d))
    {
      var a, b := |rows| - 1 - j, |rows| - 1 - i;
      assert rev[j] == rows[a] && rev[i] == rows[b];
      assert HasAll(rows[a], cols) && HasAll(rows[b], cols);
      AfterFlip(Key(rows[a], cols), Key(rows[b], cols), d);
    }
    forall k | 0 <= k < |rev| ensures HasAll(rev[k], cols) {
      assert rev[k] == rows[|rows| - 1 - k];
    }
  }

  // ---------------------------------------------------------------------------
  // The paginator and its cursor.

  /** A `CursorPaginator`: the queryset in ordering order, and the ordering. */
  datatype Paginator = Paginator(queryset: seq<Row>, ordering: seq<string>)

  /** `CursorPaginator.__init__`. */
  function NewPaginator(queryset: seq<Row>, ordering: seq<string>): (r: Result<Paginator, Exception>)
    ensures r.Err? <==> |ordering| == 0
    ensures r.Err? ==> r.error == ValueError(NoOrderingMessage)
    ensures r.Ok? ==> r.value.queryset == queryset && r.value.ordering == ordering
  {
    if |ordering| == 0 then Err(ValueError(NoOrderingMessage)) else Ok(Paginator(queryset, ordering))
  }

  /** `encode_cursor`: the position joined with `|`, UTF-8 encoded, Base64
      encoded, read back as ASCII text. */
  function EncodeCursor(position: seq<string>): (r: string)
    ensures Helpers.FromB64(r) == Ok(Join(position, [Delimiter]))
  {
    Helpers.FromToB64(Join(position, [Delimiter]));
    Helpers.ToB64(Join(position, [Delimiter]))
  }

  /** `decode_cursor`: every codec failure becomes `InvalidCursor`. */
  function DecodeCursor(cursor: string): (r: Result<seq<string>, Exception>)
    ensures r.Err? <==> Helpers.FromB64(cursor).Err?
    ensures r.Err? ==> r.error == InvalidCursor(InvalidCursorMessage)
    ensures r.Ok? ==> |r.value| >= 1
  {
    match Helpers.FromB64(cursor)
    case Err(_) => Err(InvalidCursor(InvalidCursorMessage))
    case Ok(text) => Ok(Split(text, [Delimiter]))
  }

  predicate NoDelimiter(position: seq<string>) {
    forall i :: 0 <= i < |position| ==> Delimiter !in position[i]
  }

  /** `decode_cursor(encode_cursor(p)) == p` for every non-empty position
      whose values contain no `|`. */
  lemma {:induction false} DecodeEncodeCursor(position: seq<string>)
    requires |position| >= 1 && NoDelimiter(position)
    ensures DecodeCursor(EncodeCursor(position)) == Ok(position)
  {
    Helpers.FromToB64(Join(position, [Delimiter]));
    SplitJoin(position, Delimiter);
  }

  /** Why the position must be non-empty: `[]` and `[""]` share a cursor, which
      decodes to `[""]`. */
  lemma {:induction false} EmptyPositionCursor()
    ensures EncodeCursor([]) == EncodeCursor([""])
    ensures DecodeCursor(EncodeCursor([])) == Ok([""])
  {
    DecodeEncodeCursor([""]);
  }

  // ---------------------------------------------------------------------------
  // The keyset filter of `apply_cursor`.

  /** The lookup operator for a key: `__lt` when the key must compare below
      the position, `__gt` otherwise. */
  function Comparison(downwards: bool): Op {
    if downwards then Lt else Gt
  }

  /** `q_equality` after the first `n` keys: `column__exact` for each. */
  function Equalities(columns: seq<string>, position: seq<string>, n: nat): Clause
    requires n <= |columns| && n <= |position|
  {
    if n == 0 then map[]
    else Equalities(columns, position, n - 1)[Lookup(columns[n - 1], Exact) := position[n - 1]]
  }

  /** The clause for key `i`: its comparison, plus equality on every earlier key. */
  function ClauseAt(columns: seq<string>, downwards: seq<bool>, position: seq<string>, i: nat): Clause
    requires i < |columns| && i < |downwards| && i < |position|
  {
    map[Lookup(columns[i], Comparison(downwards[i])) := position[i]] + Equalities(columns, position, i)
  }

  function ZipLength(ordering: seq<string>, position: seq<string>): nat {
    if |ordering| <= |position| then |ordering| else |position|
  }

  /** The disjunction `apply_cursor` builds: one clause per zipped entry. */
  function KeysetFilter(ordering: seq<string>, position: seq<string>, reverse: bool): (f: Filter)
    ensures |f| == ZipLength(ordering, position)
  {
    Clauses(Columns(ordering), Directions(ordering, reverse), position, ZipLength(ordering, position))
  }

  /** The clauses for the first `n` keys, in key order. */
  function Clauses(columns: seq<string>, downwards: seq<bool>, position: seq<string>, n: nat): (f: Filter)
    requires n <= |columns| && n <= |downwards| && n <= |position|
    ensures |f| == n
  {
    if n == 0 then [] else Clauses(columns, downwards, position, n - 1) + [ClauseAt(columns, downwards, position, n - 1)]
  }

  /** Clause `i` of the disjunction is the clause for key `i`. */
  lemma {:induction false} ClausesAt(columns: seq<string>, downwards: seq<bool>, position: seq<string>, n: nat, i: nat)
    requires i < n <= |columns| && n <= |downwards| && n <= |position|
    ensures Clauses(columns, downwards, position, n)[i] == ClauseAt(columns, downwards, position, i)
  {
    if i < n - 1 {
      ClausesAt(columns, downwards, position, n - 1, i);
    }
  }

  /** What `apply_cursor` returns for a queryset. */
  function CursorApplied(ordering: seq<string>, cursor: string, queryset: seq<Row>, reverse: bool): (r: Result<seq<Row>, Exception>)
    ensures r.Err? <==> DecodeCursor(cursor).Err?
    ensures r.Ok? ==> Subsequence(r.value, queryset)
  {
    match DecodeCursor(cursor)
    case Err(e) => Err(e)
    case Ok(position) =>
      FilterRowsSubsequence(queryset, KeysetFilter(ordering, position, reverse));
      Ok(FilterRows(queryset, KeysetFilter(ordering, position, reverse)))
  }

  /** The loop of `apply_cursor` that builds the disjunction. */
  method BuildFilter(ordering: seq<string>, position: seq<string>, reverse: bool) returns (filtering: Filter)
    ensures filtering == KeysetFilter(ordering, position, reverse)
  {
    filtering := [];
    var equality: Clause := map[];
    var n := ZipLength(ordering, position);
    var i := 0;
    while i < n
      invariant 0 <= i <= n
      invariant equality == Equalities(Columns(ordering), position, i)
      invariant filtering == Clauses(Columns(ordering), Directions(ordering, reverse), position, i)
    {
      var entry, value := ordering[i], position[i];
      var isReversed := IsDescending(entry);
      var column := Column(entry);
      var comparison := if reverse != isReversed then Lookup(column, Lt) else Lookup(column, Gt);
      BuildFilterStep(ordering, position, reverse, i, column, isReversed, equality, filtering);
      filtering := filtering + [map[comparison := value] + equality];
      equality := equality[Lookup(column, Exact) := value];
      i := i + 1;
    }
  }

  /** One turn of the loop of `apply_cursor`: the clause it appends is
      clause `i` of the filter, and the equalities it carries on are those
      after key `i`. */
  lemma {:induction false} BuildFilterStep(ordering: seq<string>, position: seq<string>, reverse: bool, i: nat,
                        column: string, isReversed: bool, equality: Clause, filtering: Filter)
    requires i < |ordering| && i < |position|
    requires column == Column(ordering[i]) && isReversed == IsDescending(ordering[i])
    requires equality == Equalities(Columns(ordering), position, i)
    requires filtering == Clauses(Columns(ordering), Directions(ordering, reverse), position, i)
    ensures var comparison := if reverse != isReversed then Lookup(column, Lt) else Lookup(column, Gt);
      filtering + [map[comparison := position[i]] + equality] ==
        Clauses(Columns(ordering), Directions(ordering, reverse), position, i + 1)
    ensures equality[Lookup(column, Exact) := position[i]] == Equalities(Columns(ordering), position, i + 1)
  {
    var columns, downwards := Columns(ordering), Directions(ordering, reverse);
    ClauseStep(columns, downwards, position, i, equality);
    assert columns[i] == column && downwards[i] == (reverse != isReversed);
  }

  /** The map steps behind `BuildFilterStep`, over plain columns. */
  lemma {:induction false} ClauseStep(columns: seq<string>, downwards: seq<bool>, position: seq<string>, i: nat, equality: Clause)
    requires i < |columns| && i < |downwards| && i < |position|
    requires equality == Equalities(columns, position, i)
    ensures map[Lookup(columns[i], Comparison(downwards[i])) := position[i]] + equality ==
      ClauseAt(columns, downwards, position, i)
    ensures equality[Lookup(columns[i], Exact) := position[i]] == Equalities(columns, position, i + 1)
  {
  }

  /** `apply_cursor`. */
  method ApplyCursor(p: Paginator, cursor: string, queryset: seq<Row>, reverse: bool) returns (r: Result<seq<Row>, Exception>)
    ensures r == CursorApplied(p.ordering, cursor, queryset, reverse)
  {
    var decoded := DecodeCursor(cursor);
    if decoded.Err? {
      return Err(decoded.error);
    }
    var filtering := BuildFilter(p.ordering, decoded.value, reverse);
    return Ok(FilterRows(queryset, filtering));
  }

  /** `q_equality` holds only `__exact` lookups, on earlier columns. */
  lemma {:induction false} EqualitiesShape(columns: seq<string>, position: seq<string>, n: nat)
    requires n <= |columns| && n <= |position|
    ensures forall l :: l in Equalities(columns, position, n) ==> l.op == Exact && l.column in columns[..n]
  {
    if n > 0 {
      EqualitiesShape(columns, position, n - 1);
      assert columns[..n] == columns[..n - 1] + [columns[n - 1]];
    }
  }

  /** With distinct columns, key `n` adds an equality not yet present. */
  lemma {:induction false} NextColumnFresh(columns: seq<string>, position: seq<string>, n: nat)
    requires n < |columns| && n <= |position|
    requires Distinct(columns)
    ensures Lookup(columns[n], Exact) !in Equalities(columns, position, n)
  {
    EqualitiesShape(columns, position, n);
    var earlier := columns[..n];
    forall j | 0 <= j < n ensures earlier[j] != columns[n] {
      assert earlier[j] == columns[j];
    }
  }

  /** With distinct columns, the equalities after `n` keys hold exactly when
      the row agrees with the position on the first `n` keys. */
  lemma {:induction false} EqualitiesHold(columns: seq<string>, position: seq<string>, n: nat, row: Row)
    requires n <= |columns| && n <= |position|
    requires Distinct(columns) && HasAll(row, columns)
    ensures ClauseHolds(row, Equalities(columns, position, n)) <==> Key(row, columns)[..n] == position[..n]
  {
    var k := Key(row, columns);
    if n > 0 {
      var e := Equalities(columns, position, n - 1);
      var l := Lookup(columns[n - 1], Exact);
      EqualitiesHold(columns, position, n - 1, row);
      NextColumnFresh(columns, position, n - 1);
      ClauseExtend(row, e, l, position[n - 1]);
      assert Holds(row, l, position[n - 1]) <==> k[n - 1] == position[n - 1] by {
        assert columns[n - 1] in row && k[n - 1] == row[columns[n - 1]];
      }
      PrefixStep(k, position, n);
    }
  }

  /** Clause `i` holds exactly when key `i` is the first one on which the row
      lies beyond the position in that key's direction. */
  lemma {:induction false} ClauseAtHolds(columns: seq<string>, downwards: seq<bool>, position: seq<string>, i: nat, row: Row)
    requires i < |columns| && i < |downwards| && i < |position|
    requires Distinct(columns) && HasAll(row, columns)
    ensures ClauseHolds(row, ClauseAt(columns, downwards, position, i)) <==>
      Key(row, columns)[..i] == position[..i] && Beats(Key(row, columns)[i], position[i], downwards[i])
  {
    var e := Equalities(columns, position, i);
    var c := Lookup(columns[i], Comparison(downwards[i]));
    EqualitiesShape(columns, position, i);
    assert c !in e;
    assert ClauseAt(columns, downwards, position, i) == e[c := position[i]];
    ClauseExtend(row, e, c, position[i]);
    EqualitiesHold(columns, position, i, row);
    assert columns[i] in row;
  }

  /** The disjunction `apply_cursor` builds is the direction-aware strict
      lexicographic order: a row passes exactly when its keys come strictly
      after the position, reading each key's direction from the ordering
      (flipped when seeking backwards). */
  lemma {:induction false} KeysetFilterIsAfter(ordering: seq<string>, position: seq<string>, reverse: bool, row: Row)
    requires |position| == |ordering| > 0
    requires DistinctColumns(ordering) && HasAll(row, Columns(ordering))
    ensures FilterHolds(row, KeysetFilter(ordering, position, reverse)) <==>
      After(Key(row, Columns(ordering)), position, Directions(ordering, reverse))
  {
    var k := Key(row, Columns(ordering));
    var d := Directions(ordering, reverse);
    var f := KeysetFilter(ordering, position, reverse);
    AfterIsFirstDifference(k, position, d);
    forall i | 0 <= i < |f| ensures ClauseHolds(row, f[i]) <==> FirstDifferenceAt(k, position, d, i) {
      ClausesAt(Columns(ordering), d, position, |f|, i);
      ClauseAtHolds(Columns(ordering), d, position, i, row);
    }
    if After(k, position, d) {
      var i :| FirstDifferenceAt(k, position, d, i);
      assert ClauseHolds(row, f[i]);
    }
  }

  lemma {:induction false} BackwardDirections(ordering: seq<string>)
    ensures Directions(ordering, true) == Flip(Directions(ordering, false))
  {
  }

  /** `apply_cursor` with a cursor for a full position keeps exactly the rows
      strictly after the position (`reverse` false) or strictly before it
      (`reverse` true) in the order the ordering defines, and never the row
      the position was taken from. */
  lemma {:induction false} CursorAppliedKeeps(ordering: seq<string>, cursor: string, queryset: seq<Row>, reverse: bool, position: seq<string>)
    requires DecodeCursor(cursor) == Ok(position)
    requires |position| == |ordering| > 0
    requires DistinctColumns(ordering) && HasColumns(queryset, Columns(ordering))
    ensures CursorApplied(ordering, cursor, queryset, reverse).Ok?
    ensures forall x :: x in CursorApplied(ordering, cursor, queryset, reverse).value <==>
      x in queryset &&
      (if reverse then After(position, Key(x, Columns(ordering)), Directions(ordering, false))
       else After(Key(x, Columns(ordering)), position, Directions(ordering, false)))
    ensures forall x :: x in CursorApplied(ordering, cursor, queryset, reverse).value ==> Key(x, Columns(ordering)) != position
  {
    var columns := Columns(ordering);
    var d := Directions(ordering, false);
    var f := KeysetFilter(ordering, position, reverse);
    var r := CursorApplied(ordering, cursor, queryset, reverse).value;
    assert r == FilterRows(queryset, f);
    BackwardDirections(ordering);
    forall x | x in queryset
      ensures HasAll(x, columns)
      ensures FilterHolds(x, f) <==>
        (if reverse then After(position, Key(x, columns), d) else After(Key(x, columns), position, d))
      ensures FilterHolds(x, f) ==> Key(x, columns) != position
    {
      var i :| 0 <= i < |queryset| && queryset[i] == x;
      KeysetFilterIsAfter(ordering, position, reverse, x);
      AfterFlip(Key(x, columns), position, d);
      AfterIrreflexive(position, d);
      AfterIrreflexive(position, Directions(ordering, true));
    }
  }

  // ---------------------------------------------------------------------------
  // `page()`.

  /** A `CursorPage`: its rows and the two flags. */
  datatype CursorPage = CursorPage(items: seq<Row>, hasNext: bool, hasPrevious: bool)

  /** `first or last`, then the default when that is `None`: a zero `first`
      is falsy and defers to `last`. */
  function PageSize(first: Option<int>, last: Option<int>, defaultPageSize: int): (r: int)
    // `first or last`: a `first` of 0 counts as absent
    ensures first.Some? && first.value != 0 ==> r == first.value
    ensures (first.None? || first.value == 0) && last.Some? ==> r == last.value
    ensures (first.None? || first.value == 0) && last.None? ==> r == defaultPageSize
  {
    var size := if first.Some? && first.value != 0 then first else last;
    if size.None? then defaultPageSize else size.value
  }

  /** `bool(s)` for an optional string. */
  predicate Truthy(s: Option<string>) {
    s.Some? && |s.value| > 0
  }

  /** The queryset after the `after` cursor and then the `before` cursor. */
  function Narrowed(p: Paginator, after: Option<string>, before: Option<string>): Result<seq<Row>, Exception> {
    var afterApplied := if after.Some? then CursorApplied(p.ordering, after.value, p.queryset, false) else Ok(p.queryset);
    match afterApplied
    case Err(e) => Err(e)
    case Ok(qs) => if before.Some? then CursorApplied(p.ordering, before.value, qs, true) else Ok(qs)
  }

  /** Lines 88-108 of `page()` on the narrowed rows, once the first/last
      conflict is ruled out: overfetch by one, reverse for `last`, cut to the
      page size, restore the order and set the flags. */
  function Assemble(qs: seq<Row>, first: Option<int>, last: Option<int>, size: int,
                    after: Option<string>, before: Option<string>): CursorPage
    requires !(first.Some? && last.Some?)
  {
    var fetched :=
      if first.Some? then SliceTo(qs, first.value + 1)
      else if last.Some? then SliceTo(Reverse(qs), last.value + 1)
      else qs;
    var kept := SliceTo(fetched, size);
    var more := |fetched| > |kept|;
    CursorPage(
      if last.Some? then Reverse(kept) else kept,
      if first.Some? then more else if last.Some? then Truthy(before) else false,
      if first.Some? then Truthy(after) else if last.Some? then more else false)
  }

  /** What `page()` returns, as a function of its arguments and the two settings. */
  function PageOf(p: Paginator, first: Option<int>, last: Option<int>, after: Option<string>, before: Option<string>,
                  defaultPageSize: int, paginationLimit: int): (r: Result<CursorPage, Exception>)
    ensures r.Ok? <==>
      PageSize(first, last, defaultPageSize) <= paginationLimit && Narrowed(p, after, before).Ok? &&
      !(first.Some? && last.Some?)
    ensures PageSize(first, last, defaultPageSize) > paginationLimit ==> r == Err(ValueError(LimitMessage))
  {
    var size := PageSize(first, last, defaultPageSize);
    if size > paginationLimit then Err(ValueError(LimitMessage))
    else match Narrowed(p, after, before)
      case Err(e) => Err(e)
      case Ok(qs) =>
        if first.Some? && last.Some? then Err(ValueError(FirstAndLastMessage))
        else Ok(Assemble(qs, first, last, size, after, before))
  }

  /** `items.reverse()`. */
  method ReverseInPlace<T>(a: array<T>)
    modifies a
    ensures a[..] == Reverse(old(a[..]))
  {
    var i := 0;
    while i < a.Length - 1 - i
      invariant 0 <= i && 2 * i <= a.Length
      invariant forall k :: 0 <= k < i ==> a[k] == old(a[a.Length - 1 - k]) && a[a.Length - 1 - k] == old(a[k])
      invariant forall k :: i <= k < a.Length - i ==> a[k] == old(a[k])
    {
      a[i], a[a.Length - 1 - i] := a[a.Length - 1 - i], a[i];
      i := i + 1;
    }
  }

  /** The page's results as a Python list, reversed with `list.reverse()`. */
  method ReverseList<T>(items: seq<T>) returns (r: seq<T>)
    ensures r == Reverse(items)
  {
    var a := new T[|items|](i requires 0 <= i < |items| => items[i]);
    assert a[..] == items;
    ReverseInPlace(a);
    r := a[..];
  }

  /** `page()`. */
  method Page(p: Paginator, first: Option<int>, last: Option<int>, after: Option<string>, before: Option<string>,
              defaultPageSize: int, paginationLimit: int) returns (r: Result<CursorPage, Exception>)
    ensures r == PageOf(p, first, last, after, before, defaultPageSize, paginationLimit)
  {
    var qs := p.queryset;
    var pageSize := if first.Some? && first.value != 0 then first else last;
    var size := if pageSize.None? then defaultPageSize else pageSize.value;
    if size > paginationLimit {
      return Err(ValueError(LimitMessage));
    }
    if after.Some? {
      var applied := ApplyCursor(p, after.value, qs, false);
      if applied.Err? {
        return Err(applied.error);
      }
      qs := applied.value;
    }
    if before.Some? {
      var applied := ApplyCursor(p, before.value, qs, true);
      if applied.Err? {
        return Err(applied.error);
      }
      qs := applied.value;
    }
    if first.Some? && last.Some? {
      return Err(ValueError(FirstAndLastMessage));
    }
    var page := AssembleRows(qs, first, last, size, after, before);
    return Ok(page);
  }

  /** The slicing, reversal and flag-setting steps of `page()`. */
  method AssembleRows(qs: seq<Row>, first: Option<int>, last: Option<int>, size: int,
                      after: Option<string>, before: Option<string>) returns (page: CursorPage)
    requires !(first.Some? && last.Some?)
    ensures page == Assemble(qs, first, last, size, after, before)
  {
    var fetched := qs;
    if first.Some? {
      fetched := SliceTo(fetched, first.value + 1);
    }
    if last.Some? {
      fetched := SliceTo(Reverse(fetched), last.value + 1);
    }
    var items := SliceTo(fetched, size);
    if last.Some? {
      items := ReverseList(items);
    }
    var hasAdditional := |fetched| > |items|;
    var hasNext, hasPrevious := false, false;
    if first.Some? {
      hasNext, hasPrevious := hasAdditional, Truthy(after);
    } else if last.Some? {
      hasNext, hasPrevious := Truthy(before), hasAdditional;
    }
    return CursorPage(items, hasNext, hasPrevious);
  }

  /** When `page()` raises, and what: the limit check comes first, then the
      cursors, then the `first`/`last` conflict. */
  lemma {:induction false} PageErrors(p: Paginator, first: Option<int>, last: Option<int>, after: Option<string>, before: Option<string>,
                   defaultPageSize: int, paginationLimit: int)
    ensures var r := PageOf(p, first, last, after, before, defaultPageSize, paginationLimit);
      var size := PageSize(first, last, defaultPageSize);
      var n := Narrowed(p, after, before);
      (r.Err? <==> size > paginationLimit || n.Err? || (first.Some? && last.Some?)) &&
      (size > paginationLimit ==> r.error == ValueError(LimitMessage)) &&
      (size <= paginationLimit && n.Err? ==> r.error == n.error) &&
      (size <= paginationLimit && n.Ok? && r.Err? ==> r.error == ValueError(FirstAndLastMessage))
  {
  }

  /** A cursor that does not decode makes `page()` raise `InvalidCursor`. */
  lemma {:induction false} PageInvalidCursor(p: Paginator, first: Option<int>, last: Option<int>, after: Option<string>, before: Option<string>,
                          defaultPageSize: int, paginationLimit: int)
    requires PageSize(first, last, defaultPageSize) <= paginationLimit
    requires (after.Some? && Helpers.FromB64(after.value).Err?) || (before.Some? && Helpers.FromB64(before.value).Err?)
    ensures PageOf(p, first, last, after, before, defaultPageSize, paginationLimit) == Err(InvalidCursor(InvalidCursorMessage))
  {
  }

  /** `first = n`: the first `n` rows after the cursors, `has_next` when a
      further row exists, `has_previous` when `after` is a non-empty string. */
  lemma {:induction false} PageForward(p: Paginator, n: int, after: Option<string>, before: Option<string>,
                    defaultPageSize: int, paginationLimit: int)
    requires 0 < n <= paginationLimit
    requires Narrowed(p, after, before).Ok?
    ensures var r := PageOf(p, Some(n), None, after, before, defaultPageSize, paginationLimit);
      var qs := Narrowed(p, after, before).value;
      r.Ok? &&
      r.value.items == qs[..if n <= |qs| then n else |qs|] &&
      (r.value.hasNext <==> |qs| > n) &&
      r.value.hasPrevious == Truthy(after)
  {
    AssembleForward(Narrowed(p, after, before).value, n, after, before);
  }

  /** The rows kept for `first = n` are the first `n` of `qs`. */
  lemma {:induction false} AssembleForward(qs: seq<Row>, n: int, after: Option<string>, before: Option<string>)
    requires 0 < n
    ensures var page := Assemble(qs, Some(n), None, n, after, before);
      page.items == qs[..if n <= |qs| then n else |qs|] &&
      (page.hasNext <==> |qs| > n) &&
      page.hasPrevious == Truthy(after)
  {
    var fetched := SliceTo(qs, n + 1);
    var kept := SliceTo(fetched, n);
    assert kept == fetched[..|kept|] == qs[..|kept|];
  }

  /** The rows kept for `last = n` are the last `n` of `qs`, in order. */
  lemma {:induction false} AssembleBackward(qs: seq<Row>, n: int, after: Option<string>, before: Option<string>)
    requires 0 < n
    ensures var page := Assemble(qs, None, Some(n), n, after, before);
      page.items == qs[|qs| - (if n <= |qs| then n else |qs|)..] &&
      (page.hasPrevious <==> |qs| > n) &&
      page.hasNext == Truthy(before)
  {
    var fetched := SliceTo(Reverse(qs), n + 1);
    var kept := SliceTo(fetched, n);
    assert kept == SliceTo(Reverse(qs), n) by {
      assert kept == fetched[..|kept|] == Reverse(qs)[..|kept|];
    }
    LastInOrder(qs, n);
  }

  /** `last = n`: the last `n` rows before the cursors, in ordering order,
      `has_previous` when a further row exists, `has_next` when `before` is
      a non-empty string. */
  lemma {:induction false} PageBackward(p: Paginator, n: int, after: Option<string>, before: Option<string>,
                     defaultPageSize: int, paginationLimit: int)
    requires 0 < n <= paginationLimit
    requires Narrowed(p, after, before).Ok?
    ensures var r := PageOf(p, None, Some(n), after, before, defaultPageSize, paginationLimit);
      var qs := Narrowed(p, after, before).value;
      r.Ok? &&
      r.value.items == qs[|qs| - (if n <= |qs| then n else |qs|)..] &&
      (r.value.hasPrevious <==> |qs| > n) &&
      r.value.hasNext == Truthy(before)
  {
    var qs := Narrowed(p, after, before).value;
    PageOfAssembled(p, None, Some(n), after, before, defaultPageSize, paginationLimit);
    AssembleBackward(qs, n, after, before);
  }

  /** An accepted request is answered by assembling the narrowed rows. */
  lemma {:induction false} PageOfAssembled(p: Paginator, first: Option<int>, last: Option<int>, after: Option<string>,
                       before: Option<string>, defaultPageSize: int, paginationLimit: int)
    requires PageSize(first, last, defaultPageSize) <= paginationLimit
    requires Narrowed(p, after, before).Ok? && !(first.Some? && last.Some?)
    ensures PageOf(p, first, last, after, before, defaultPageSize, paginationLimit) ==
      Ok(Assemble(Narrowed(p, after, before).value, first, last, PageSize(first, last, defaultPageSize), after, before))
  {
  }

  /** Neither `first` nor `last`: the first `default_page_size` rows and both
      flags false, even when more rows exist. */
  lemma {:induction false} PageDefaultSize(p: Paginator, after: Option<string>, before: Option<string>,
                        defaultPageSize: int, paginationLimit: int)
    requires 0 <= defaultPageSize <= paginationLimit
    requires Narrowed(p, after, before).Ok?
    ensures var r := PageOf(p, None, None, after, before, defaultPageSize, paginationLimit);
      var qs := Narrowed(p, after, before).value;
      r.Ok? &&
      r.value.items == qs[..if defaultPageSize <= |qs| then defaultPageSize else |qs|] &&
      !r.value.hasNext && !r.value.hasPrevious
  {
  }

  /** `first = 0` is falsy, so the default size applies, but only one row is
      fetched: the page holds at most the first row and never reports a next
      page. */
  lemma {:induction false} PageFirstZero(p: Paginator, after: Option<string>, before: Option<string>,
                      defaultPageSize: int, paginationLimit: int)
    requires 1 <= defaultPageSize <= paginationLimit
    requires Narrowed(p, after, before).Ok?
    ensures var r := PageOf(p, Some(0), None, after, before, defaultPageSize, paginationLimit);
      var qs := Narrowed(p, after, before).value;
      r.Ok? &&
      r.value.items == qs[..if 1 <= |qs| then 1 else 0] &&
      !r.value.hasNext
  {
    var qs := Narrowed(p, after, before).value;
    var fetched := SliceTo(qs, 1);
    assert SliceTo(fetched, defaultPageSize) == fetched;
  }

  /** The page never holds more rows than the page size. */
  lemma {:induction false} PageBounded(p: Paginator, first: Option<int>, last: Option<int>, after: Option<string>, before: Option<string>,
                    defaultPageSize: int, paginationLimit: int)
    requires PageSize(first, last, defaultPageSize) >= 0
    ensures var r := PageOf(p, first, last, after, before, defaultPageSize, paginationLimit);
      r.Ok? ==> |r.value.items| <= PageSize(first, last, defaultPageSize)
  {
  }

  /** Whatever the arguments, the assembled rows are a contiguous run of `qs`. */
  lemma {:induction false} AssembleIsRun(qs: seq<Row>, first: Option<int>, last: Option<int>, size: int,
                      after: Option<string>, before: Option<string>)
    requires !(first.Some? && last.Some?)
    ensures exists i, j :: 0 <= i <= j <= |qs| && Assemble(qs, first, last, size, after, before).items == qs[i..j]
  {
    var items := Assemble(qs, first, last, size, after, before).items;
    if last.Some? {
      var kept := SliceTo(SliceTo(Reverse(qs), last.value + 1), size);
      assert items == Reverse(kept);
      TailRun(qs, last.value + 1, size);
    } else {
      var fetched := if first.Some? then SliceTo(qs, first.value + 1) else qs;
      var kept := SliceTo(fetched, size);
      assert fetched == qs[..|fetched|];
      assert kept == fetched[..|kept|];
      assert items == qs[0..|kept|];
    }
  }

  /** The rows `last` keeps, put back in order, are the last rows of `qs`. */
  lemma {:induction false} TailRun(qs: seq<Row>, m: int, size: int)
    ensures var kept := SliceTo(SliceTo(Reverse(qs), m), size);
      Reverse(kept) == qs[|qs| - |kept|..|qs|]
  {
    var fetched := SliceTo(Reverse(qs), m);
    var kept := SliceTo(fetched, size);
    assert kept == Reverse(qs)[..|kept|];
    ReversedPrefix(qs, |kept|);
    assert qs[|qs| - |kept|..] == qs[|qs| - |kept|..|qs|];
  }

  /** Every row of a page is a row of the narrowed queryset, and the page is
      a contiguous run of it. */
  lemma {:induction false} PageIsRun(p: Paginator, first: Option<int>, last: Option<int>, after: Option<string>, before: Option<string>,
                  defaultPageSize: int, paginationLimit: int)
    requires PageOf(p, first, last, after, before, defaultPageSize, paginationLimit).Ok?
    ensures var items := PageOf(p, first, last, after, before, defaultPageSize, paginationLimit).value.items;
      var qs := Narrowed(p, after, before).value;
      (exists i, j :: 0 <= i <= j <= |qs| && items == qs[i..j]) &&
      (forall x :: x in items ==> x in qs)
  {
    var qs := Narrowed(p, after, before).value;
    var items := PageOf(p, first, last, after, before, defaultPageSize, paginationLimit).value.items;
    AssembleIsRun(qs, first, last, PageSize(first, last, defaultPageSize), after, before);
    var i, j :| 0 <= i <= j <= |qs| && items == qs[i..j];
    SliceMembers(qs, i, j);
  }

  /** Narrowing a strictly sorted queryset leaves it strictly sorted. */
  lemma {:induction false} NarrowedSorted(p: Paginator, after: Option<string>, before: Option<string>)
    requires StrictlySorted(p.queryset, Columns(p.ordering), Directions(p.ordering, false))
    requires Narrowed(p, after, before).Ok?
    ensures StrictlySorted(Narrowed(p, after, before).value, Columns(p.ordering), Directions(p.ordering, false))
  {
    var columns, d := Columns(p.ordering), Directions(p.ordering, false);
    var qs := p.queryset;
    if after.Some? {
      var position := DecodeCursor(after.value).value;
      FilterRowsSorted(qs, KeysetFilter(p.ordering, position, false), columns, d);
      qs := FilterRows(qs, KeysetFilter(p.ordering, position, false));
    }
    if before.Some? {
      var position := DecodeCursor(before.value).value;
      FilterRowsSorted(qs, KeysetFilter(p.ordering, position, true), columns, d);
    }
  }

  /** A page of a queryset in strict ordering order is itself in that order. */
  lemma {:induction false} PageInOrder(p: Paginator, first: Option<int>, last: Option<int>, after: Option<string>, before: Option<string>,
                    defaultPageSize: int, paginationLimit: int)
    requires StrictlySorted(p.queryset, Columns(p.ordering), Directions(p.ordering, false))
    requires PageOf(p, first, last, after, before, defaultPageSize, paginationLimit).Ok?
    ensures StrictlySorted(PageOf(p, first, last, after, before, defaultPageSize, paginationLimit).value.items,
                           Columns(p.ordering), Directions(p.ordering, false))
  {
    var qs := Narrowed(p, after, before).value;
    NarrowedSorted(p, after, before);
    PageIsRun(p, first, last, after, before, defaultPageSize, paginationLimit);
    var i, j :| 0 <= i <= j <= |qs| && PageOf(p, first, last, after, before, defaultPageSize, paginationLimit).value.items == qs[i..j];
    SortedRun(qs, i, j, Columns(p.ordering), Directions(p.ordering, false));
  }

  /** A cursor that decodes to a full position. */
  predicate FullCursor(ordering: seq<string>, cursor: Option<string>) {
    cursor.Some? ==> DecodeCursor(cursor.value).Ok? && |DecodeCursor(cursor.value).value| == |ordering|
  }

  /** Every row left after narrowing is a queryset row strictly after the
      `after` position and strictly before the `before` position. */
  lemma {:induction false} NarrowedWithinCursors(p: Paginator, after: Option<string>, before: Option<string>)
    requires |p.ordering| > 0 && DistinctColumns(p.ordering) && HasColumns(p.queryset, Columns(p.ordering))
    requires FullCursor(p.ordering, after) && FullCursor(p.ordering, before)
    ensures Narrowed(p, after, before).Ok?
    ensures forall x :: x in Narrowed(p, after, before).value ==>
      x in p.queryset && HasAll(x, Columns(p.ordering)) &&
      (after.Some? ==> After(Key(x, Columns(p.ordering)), DecodeCursor(after.value).value, Directions(p.ordering, false))) &&
      (before.Some? ==> After(DecodeCursor(before.value).value, Key(x, Columns(p.ordering)), Directions(p.ordering, false)))
  {
    var columns, d := Columns(p.ordering), Directions(p.ordering, false);
    var qs := p.queryset;
    if after.Some? {
      var position := DecodeCursor(after.value).value;
      CursorAppliedKeeps(p.ordering, after.value, p.queryset, false, position);
      FilterRowsHasColumns(p.queryset, KeysetFilter(p.ordering, position, false), columns);
      qs := FilterRows(p.queryset, KeysetFilter(p.ordering, position, false));
    }
    if before.Some? {
      var position := DecodeCursor(before.value).value;
      CursorAppliedKeeps(p.ordering, before.value, qs, true, position);
    }
    forall x | x in Narrowed(p, after, before).value ensures HasAll(x, columns) {
      var r := Narrowed(p, after, before).value;
      assert x in p.queryset;
      var k :| 0 <= k < |p.queryset| && p.queryset[k] == x;
    }
  }

  /** The keyset guarantee of `page()`: every row on a page comes strictly
      after the `after` cursor's position and strictly before the `before`
      cursor's position, in the order the ordering defines. */
  lemma {:induction false} PageWithinCursors(p: Paginator, first: Option<int>, last: Option<int>, after: Option<string>, before: Option<string>,
                          defaultPageSize: int, paginationLimit: int)
    requires |p.ordering| > 0 && DistinctColumns(p.ordering) && HasColumns(p.queryset, Columns(p.ordering))
    requires FullCursor(p.ordering, after) && FullCursor(p.ordering, before)
    requires PageOf(p, first, last, after, before, defaultPageSize, paginationLimit).Ok?
    ensures forall x :: x in PageOf(p, first, last, after, before, defaultPageSize, paginationLimit).value.items ==>
      x in p.queryset && HasAll(x, Columns(p.ordering)) &&
      (after.Some? ==> After(Key(x, Columns(p.ordering)), DecodeCursor(after.value).value, Directions(p.ordering, false))) &&
      (before.Some? ==> After(DecodeCursor(before.value).value, Key(x, Columns(p.ordering)), Directions(p.ordering, false)))
  {
    NarrowedWithinCursors(p, after, before);
    PageIsRun(p, first, last, after, before, defaultPageSize, paginationLimit);
  }

  // ---------------------------------------------------------------------------
  // `position_from_instance` and `cursor`.

  /** A model instance as attribute access sees it: the text `str()` gives,
      and the attributes reachable by name. */
  datatype Instance = Instance(text: string, attributes: map<string, Instance>)

  /** The attribute path of an entry: its column split on `__`. */
  function Path(entry: string): seq<string> {
    Split(Column(entry), "__")
  }

  /** Following an attribute path with `getattr`, failing on the first
      missing attribute. */
  function Resolve(instance: Instance, path: seq<string>): (r: Result<Instance, Exception>)
    ensures |path| == 0 ==> r == Ok(instance)
    ensures r.Err? ==> r.error.AttributeError? && r.error.name in path
    decreases |path|
  {
    if |path| == 0 then Ok(instance)
    else if path[0] in instance.attributes then Resolve(instance.attributes[path[0]], path[1..])
    else Err(AttributeError(path[0]))
  }

  /** The attribute paths of an ordering, entry by entry. */
  function Paths(ordering: seq<string>): (r: seq<seq<string>>)
    ensures |r| == |ordering|
  {
    seq(|ordering|, i requires 0 <= i < |ordering| => Path(ordering[i]))
  }

  /** The position of an instance along attribute paths: the text at the end
      of every path, in order, or the error of the first path that cannot be
      followed. */
  function Walk(paths: seq<seq<string>>, instance: Instance): (r: Result<seq<string>, Exception>)
    ensures r.Ok? ==> |r.value| == |paths|
    decreases |paths|
  {
    if |paths| == 0 then Ok([])
    else
      match Walk(paths[..|paths| - 1], instance)
      case Err(e) => Err(e)
      case Ok(position) =>
        match Resolve(instance, paths[|paths| - 1])
        case Err(e) => Err(e)
        case Ok(attribute) => Ok(position + [attribute.text])
  }

  /** A walk succeeds exactly when every path can be followed; its values are
      the texts at the ends of the paths, and otherwise its error is that of
      the first path that fails. */
  lemma {:induction false} WalkMeaning(paths: seq<seq<string>>, instance: Instance)
    ensures Walk(paths, instance).Ok? <==> forall i :: 0 <= i < |paths| ==> Resolve(instance, paths[i]).Ok?
    ensures Walk(paths, instance).Ok? ==>
      (forall i :: 0 <= i < |paths| ==> Walk(paths, instance).value[i] == Resolve(instance, paths[i]).value.text)
    ensures Walk(paths, instance).Err? ==>
      (exists i :: 0 <= i < |paths| && Resolve(instance, paths[i]) == Err(Walk(paths, instance).error) &&
        (forall j :: 0 <= j < i ==> Resolve(instance, paths[j]).Ok?))
    decreases |paths|
  {
    if |paths| > 0 {
      var n := |paths|;
      var front := paths[..n - 1];
      WalkMeaning(front, instance);
      assert forall i :: 0 <= i < n - 1 ==> front[i] == paths[i];
      match Walk(front, instance) {
        case Err(e) =>
          var i :| 0 <= i < n - 1 && Resolve(instance, front[i]) == Err(e) &&
            (forall j :: 0 <= j < i ==> Resolve(instance, front[j]).Ok?);
          assert Resolve(instance, paths[i]) == Err(e);
        case Ok(position) =>
          if Resolve(instance, paths[n - 1]).Err? {
            assert Resolve(instance, paths[n - 1]) == Err(Walk(paths, instance).error);
          }
      }
    }
  }

  /** The first path that fails decides the error. */
  lemma {:induction false} WalkFailsAt(paths: seq<seq<string>>, instance: Instance, i: nat)
    requires i < |paths|
    requires Walk(paths[..i], instance).Ok?
    requires Resolve(instance, paths[i]).Err?
    ensures Walk(paths, instance) == Err(Resolve(instance, paths[i]).error)
  {
    var r := Walk(paths, instance);
    WalkMeaning(paths, instance);
    WalkMeaning(paths[..i], instance);
    forall j | 0 <= j < i ensures Resolve(instance, paths[j]).Ok? {
      assert paths[..i][j] == paths[j];
    }
    var k :| 0 <= k < |paths| && Resolve(instance, paths[k]) == Err(r.error) &&
      forall j :: 0 <= j < k ==> Resolve(instance, paths[j]).Ok?;
    assert k == i;
  }

  /** `position_from_instance`: the walk along the ordering's paths. */
  function Position(ordering: seq<string>, instance: Instance): (r: Result<seq<string>, Exception>)
    ensures r.Ok? ==> |r.value| == |ordering|
  {
    Walk(Paths(ordering), instance)
  }

  /** `position_from_instance`. */
  method PositionFromInstance(p: Paginator, instance: Instance) returns (r: Result<seq<string>, Exception>)
    ensures r == Position(p.ordering, instance)
  {
    ghost var paths := Paths(p.ordering);
    var position: seq<string> := [];
    var i := 0;
    while i < |p.ordering|
      invariant 0 <= i <= |p.ordering|
      invariant Walk(paths[..i], instance) == Ok(position)
    {
      var order := p.ordering[i];
      var parts := Split(LStrip(order, '-'), "__");
      assert parts == paths[i];
      var attribute := instance;
      while |parts| > 0
        invariant Resolve(instance, paths[i]) == Resolve(attribute, parts)
      {
        if parts[0] !in attribute.attributes {
          WalkFailsAt(paths, instance, i);
          return Err(AttributeError(parts[0]));
        }
        attribute := attribute.attributes[parts[0]];
        parts := parts[1..];
      }
      position := position + [attribute.text];
      assert paths[..i + 1][..i] == paths[..i];
      i := i + 1;
    }
    assert paths[..i] == paths;
    return Ok(position);
  }

  /** `cursor`: the encoded position of an instance. For a non-empty ordering
      whose values contain no `|`, the cursor decodes back to the position. */
  method Cursor(p: Paginator, instance: Instance) returns (r: Result<string, Exception>)
    ensures r.Err? <==> Position(p.ordering, instance).Err?
    ensures r.Err? ==> r.error == Position(p.ordering, instance).error
    ensures r.Ok? ==> r.value == EncodeCursor(Position(p.ordering, instance).value)
    ensures r.Ok? && |p.ordering| > 0 && NoDelimiter(Position(p.ordering, instance).value) ==>
      DecodeCursor(r.value) == Position(p.ordering, instance)
  {
    var position := PositionFromInstance(p, instance);
    if position.Err? {
      return Err(position.error);
    }
    if |p.ordering| > 0 && NoDelimiter(position.value) {
      DecodeEncodeCursor(position.value);
    }
    return Ok(EncodeCursor(position.value));
  }

  /** The sign of an entry does not change its path, so an ordering and its
      reverse give an instance the same position. */
  lemma {:induction false} PositionIgnoresDirection(ordering: seq<string>, instance: Instance)
    ensures Position(ReverseOrdering(ordering), instance) == Position(ordering, instance)
  {
    var reversed := ReverseOrdering(ordering);
    forall i | 0 <= i < |ordering| ensures Paths(reversed)[i] == Paths(ordering)[i] {
      InvertKeepsColumn(ordering[i]);
    }
    assert Paths(reversed) == Paths(ordering);
  }

  /** Seeking forward from the cursor of an instance whose position is the
      key of a row keeps exactly the rows strictly after that row. */
  lemma {:induction false} CursorSeeksPastRow(p: Paginator, instance: Instance, row: Row, queryset: seq<Row>)
    requires |p.ordering| > 0 && DistinctColumns(p.ordering)
    requires HasAll(row, Columns(p.ordering)) && HasColumns(queryset, Columns(p.ordering))
    requires Position(p.ordering, instance) == Ok(Key(row, Columns(p.ordering)))
    requires NoDelimiter(Key(row, Columns(p.ordering)))
    ensures var cursor := EncodeCursor(Key(row, Columns(p.ordering)));
      CursorApplied(p.ordering, cursor, queryset, false).Ok? &&
      forall x :: x in CursorApplied(p.ordering, cursor, queryset, false).value <==>
        x in queryset && After(Key(x, Columns(p.ordering)), Key(row, Columns(p.ordering)), Directions(p.ordering, false))
  {
    var key := Key(row, Columns(p.ordering));
    DecodeEncodeCursor(key);
    CursorAppliedKeeps(p.ordering, EncodeCursor(key), queryset, false, key);
  }
}
