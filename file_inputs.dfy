/** The sort input of the file listing: each sort field names the columns it
    orders by, and `items` turns a field and a direction into the ordering
    entries the cursor paginator takes. */
module FileInputs {
  import opened Types
  import Text
  import Pagination

  datatype FileSortField =
    | FileName | ObjectName | DownloadLimit | Downloads
    | Created | Updated | Search | NumberOfShares
  {
    /** The enum value: the columns this field orders by. `Created` and
        `Updated` sort on their own timestamp; every other field breaks ties
        on `updated`. */
    function Columns(): (r: seq<string>)
      ensures |r| >= 1
      ensures |r| == 1 <==> this == Created || this == Updated
      ensures this != Created && this != Updated ==> |r| == 2 && r[1] == "updated"
      ensures this == Created ==> r == ["created"]
      ensures this == Updated ==> r == ["updated"]
    {
      match this
      case FileName => ["file_name", "updated"]
      case ObjectName => ["object_name", "updated"]
      case DownloadLimit => ["download_limit", "updated"]
      case Downloads => ["downloads", "updated"]
      case Created => ["created"]
      case Updated => ["updated"]
      case Search => ["search_rank", "updated"]
      case NumberOfShares => ["number_of_shares", "updated"]
    }
  }

  datatype FileSortInput = FileSortInput(direction: OrderDirection, field: FileSortField)

  /** One ordering entry per column, each prefixed with `-` when descending. */
  function Ordering(input: FileSortInput): seq<string> {
    var columns := input.field.Columns();
    seq(|columns|, i requires 0 <= i < |columns| => if input.direction == Desc then "-" + columns[i] else columns[i])
  }

  /** `FileSortInput.items`. */
  method Items(input: FileSortInput) returns (out: seq<string>)
    ensures out == Ordering(input)
  {
    out := [];
    var columns := input.field.Columns();
    for i := 0 to |columns|
      invariant out == Ordering(input)[..i]
    {
      var sorter := "";
      if input.direction == Desc {
        sorter := sorter + "-";
      }
      sorter := sorter + columns[i];
      assert sorter == Ordering(input)[i] by {
        if input.direction == Desc {
          assert sorter == "-" + columns[i];
        } else {
          assert sorter == columns[i];
        }
      }
      assert Ordering(input)[..i + 1] == Ordering(input)[..i] + [sorter];
      out := out + [sorter];
    }
  }

  /** No column of a sort field starts with `-`, and the columns are distinct. */
  lemma {:induction false} ColumnsPlain(field: FileSortField)
    ensures forall i :: 0 <= i < |field.Columns()| ==> |field.Columns()[i]| > 0 && field.Columns()[i][0] != '-'
    ensures forall i, j :: 0 <= i < j < |field.Columns()| ==> field.Columns()[i] != field.Columns()[j]
  {
  }

  /** `items` has one entry per column, in order; every entry names its
      column and is descending exactly for `DESC`, so all entries share one
      sign. The ordering is one the paginator accepts and on which its
      keyset guarantees hold: non-empty, distinct columns, no `--`. */
  lemma {:induction false} OrderingMeaning(input: FileSortInput)
    ensures var r := Ordering(input);
      |r| == |input.field.Columns()| && |r| >= 1 &&
      (forall i :: 0 <= i < |r| ==> Pagination.Column(r[i]) == input.field.Columns()[i]) &&
      (forall i :: 0 <= i < |r| ==> (Pagination.IsDescending(r[i]) <==> input.direction == Desc)) &&
      Pagination.DistinctColumns(r) && Pagination.NoDoubleDash(r)
  {
    var columns := input.field.Columns();
    var r := Ordering(input);
    ColumnsPlain(input.field);
    forall i | 0 <= i < |r|
      ensures Pagination.Column(r[i]) == columns[i]
      ensures Pagination.IsDescending(r[i]) <==> input.direction == Desc
      ensures !Text.StartsWith(r[i], "--")
    {
      Pagination.PlainColumn(columns[i]);
      if input.direction == Desc {
        assert r[i] == "-" + columns[i];
        assert r[i][1] == columns[i][0];
      } else {
        assert r[i][0] == columns[i][0];
      }
    }
  }

  /** Reversing the `ASC` ordering of a field gives its `DESC` ordering, and
      the other way round. */
  lemma {:induction false} ReverseFlipsDirection(field: FileSortField)
    ensures Pagination.ReverseOrdering(Ordering(FileSortInput(Asc, field))) == Ordering(FileSortInput(Desc, field))
    ensures Pagination.ReverseOrdering(Ordering(FileSortInput(Desc, field))) == Ordering(FileSortInput(Asc, field))
  {
    var columns := field.Columns();
    var asc, desc := Ordering(FileSortInput(Asc, field)), Ordering(FileSortInput(Desc, field));
    ColumnsPlain(field);
    forall i | 0 <= i < |columns| ensures Pagination.Invert(asc[i]) == desc[i] && Pagination.Invert(desc[i]) == asc[i] {
      assert desc[i][..1] == "-" && desc[i][1..] == columns[i];
      assert asc[i][..1] != "-" by {
        assert asc[i][0] == columns[i][0];
      }
    }
  }
}
