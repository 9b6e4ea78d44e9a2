/** Shared GraphQL enums. */
module Types {
  /** `OrderDirection`, whose values are the strings `"asc"` and `"desc"`. */
  datatype OrderDirection = Asc | Desc {
    function Value(): (r: string)
      ensures r == "desc" <==> this == Desc
      ensures r == "asc" <==> this == Asc
    {
      match this
      case Asc => "asc"
      case Desc => "desc"
    }
  }
}
