/** The sort input of the share listing: each sort field names the columns it
    orders by, and `items` turns a field and a direction into one column order
    per column, all in the same direction. */
module ShareInputs {
  import opened Types

  datatype ShareSortField = Created | Updated | Expiry | DownloadCount | DownloadLimit
  {
    /** The enum value: the columns this field orders by, ending in the
        timestamps that break ties. */
    function Columns(): (r: seq<string>)
      ensures |r| >= 2
      ensures this == Created ==> r == ["created", "updated"]
      ensures this == Updated ==> r == ["updated", "created"]
      ensures this != Created && this != Updated ==> |r| == 3 && r[1..] == ["updated", "created"]
      ensures forall i, j :: 0 <= i < j < |r| ==> r[i] != r[j]
    {
      match this
      case Created => ["created", "updated"]
      case Updated => ["updated", "created"]
      case Expiry => ["expiry", "updated", "created"]
      case DownloadCount => ["download_count", "updated", "created"]
      case DownloadLimit => ["download_limit", "updated", "created"]
    }
  }

  datatype ShareSortInput = ShareSortInput(direction: OrderDirection, field: ShareSortField)

  /** `asc(column)` or `desc(column)`. */
  datatype ColumnOrder = Ascending(column: string) | Descending(column: string)

  /** One column order per column, all descending exactly when the direction's
      value is `"desc"`. */
  function Ordering(input: ShareSortInput): seq<ColumnOrder> {
    var columns := input.field.Columns();
    var descending := input.direction.Value() == "desc";
    seq(|columns|, i requires 0 <= i < |columns| => if descending then Descending(columns[i]) else Ascending(columns[i]))
  }

  /** `ShareSortInput.items`. */
  method Items(input: ShareSortInput) returns (args: seq<ColumnOrder>)
    ensures args == Ordering(input)
  {
    args := [];
    var descending := input.direction.Value() == "desc";
    var columns := input.field.Columns();
    for i := 0 to |columns|
      invariant args == Ordering(input)[..i]
    {
      var order := if descending then Descending(columns[i]) else Ascending(columns[i]);
      assert Ordering(input)[..i + 1] == Ordering(input)[..i] + [order];
      args := args + [order];
    }
  }

  /** `items` has one order per column, in the field's column order, with at
      least two of them; every order is descending exactly for `DESC`, so all
      share one direction; and no column repeats. */
  lemma {:induction false} OrderingMeaning(input: ShareSortInput)
    ensures var r := Ordering(input);
      |r| == |input.field.Columns()| && |r| >= 2 &&
      (forall i :: 0 <= i < |r| ==> r[i].column == input.field.Columns()[i]) &&
      (forall i :: 0 <= i < |r| ==> (r[i].Descending? <==> input.direction == Desc)) &&
      (forall i, j :: 0 <= i < j < |r| ==> r[i].column != r[j].column)
  {
    var r := Ordering(input);
    forall i, j | 0 <= i < j < |r| ensures r[i].column != r[j].column {
      assert r[i].column == input.field.Columns()[i] && r[j].column == input.field.Columns()[j];
    }
  }
}
