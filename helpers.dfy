/** The live connection builder: Base64 cursor wrapping and
    `get_countable_connection`, which validates the paging arguments, asks the
    keyset library for one page and wraps it in a count/page-info/edges
    envelope. The library's `select_page` and `unserialize_bookmark` are
    parameters of the model. */
module Helpers {
  import opened Wrappers
  import opened Bytes
  import Utf8
  import Ascii
  import Base64

  /** `to_b64`: the UTF-8 bytes of the text, Base64-encoded, read as ASCII. */
  function ToB64(cursor: string): (r: string)
    ensures forall i :: 0 <= i < |r| ==> r[i] as int < 128
  {
    Ascii.Decode(Base64.Encode(Utf8.Encode(cursor)))
  }

  /** Why `from_b64` can fail. Only `NotBase64` is the `CursorB64DecodeError`
      the function raises on purpose; the other two are the codec errors that
      escape it (`UnicodeEncodeError` for a non-ASCII cursor,
      `UnicodeDecodeError` for bytes that are not UTF-8). */
  datatype B64Failure = NonAsciiCursor | NotBase64 | NotUtf8

  /** `from_b64`. */
  function FromB64(cursor: string): (r: Result<string, B64Failure>)
    ensures r == Err(NonAsciiCursor) <==> exists i :: 0 <= i < |cursor| && cursor[i] as int >= 128
  {
    match Ascii.Encode(cursor)
    case None => Err(NonAsciiCursor)
    case Some(raw) =>
      match Base64.Decode(raw)
      case None => Err(NotBase64)
      case Some(b) =>
        match Utf8.Decode(b)
        case None => Err(NotUtf8)
        case Some(s) => Ok(s)
  }

  /** `from_b64(to_b64(s)) == s` for every string. */
  lemma {:induction false} FromToB64(s: string)
    ensures FromB64(ToB64(s)) == Ok(s)
  {
    var e := Base64.Encode(Utf8.Encode(s));
    Ascii.EncodeDecode(e);
    Base64.DecodeEncode(Utf8.Encode(s));
    Utf8.DecodeEncode(s);
  }

  /** `to_b64` never yields the same cursor for two different texts. */
  lemma {:induction false} ToB64Injective(s: string, t: string)
    requires ToB64(s) == ToB64(t)
    ensures s == t
  {
    FromToB64(s);
    FromToB64(t);
  }

  /** The codes of `PaginationError`. */
  datatype ErrorCode = PagingDirectionConflict | PageDirectionConflict | PageSizeInvalid | CursorInvalid {
    function Code(): string {
      match this
      case PagingDirectionConflict => "paging_direction_conflict"
      case PageDirectionConflict => "page_direction_conflict"
      case PageSizeInvalid => "page_size_invalid"
      case CursorInvalid => "cursor_invalid"
    }
  }

  /** Where the requested page starts. */
  datatype Anchor = FromStart | AfterCursor(cursor: string) | BeforeCursor(cursor: string)

  /** The page size and anchor the arguments were validated into. */
  datatype PageRequest = PageRequest(perPage: int, anchor: Anchor)

  /** An explicitly supplied size must lie in `(0, limit]`; an omitted one
      becomes the default, unchecked. */
  function SizeOrDefault(size: Option<int>, defaultPageSize: int, paginationLimit: int): (r: Result<int, ErrorCode>)
    ensures size.None? ==> r == Ok(defaultPageSize)
    ensures size.Some? ==> (r.Ok? <==> 0 < size.value <= paginationLimit)
    ensures r.Ok? && size.Some? ==> r.value == size.value
    ensures r.Err? ==> r.error == PageSizeInvalid
  {
    match size
    case None => Ok(defaultPageSize)
    case Some(n) => if n > paginationLimit || n <= 0 then Err(PageSizeInvalid) else Ok(n)
  }

  /** The direction conflicts of `get_countable_connection`: `last` with an
      `after` cursor, `first` with a `before` cursor, or `last` without any
      cursor. */
  predicate DirectionConflict(before: Option<string>, after: Option<string>, first: Option<int>, last: Option<int>) {
    (after.Some? && last.Some?) || (before.Some? && first.Some?) || (after.None? && before.None? && last.Some?)
  }

  /** The size argument the request pages by: `last` before a cursor, `first`
      otherwise. */
  function ChosenSize(before: Option<string>, after: Option<string>, first: Option<int>, last: Option<int>): Option<int> {
    if after.None? && before.Some? then last else first
  }

  /** The argument-validation branches of `get_countable_connection`, in the
      order the code tests them. */
  function ValidateArgs(before: Option<string>, after: Option<string>, first: Option<int>, last: Option<int>,
                        defaultPageSize: int, paginationLimit: int): (r: Result<PageRequest, ErrorCode>)
    ensures r == Err(PagingDirectionConflict) <==> after.Some? && before.Some?
    ensures r == Err(PageDirectionConflict) <==>
      !(after.Some? && before.Some?) && DirectionConflict(before, after, first, last)
    // a supplied size outside (0, limit] is refused once no conflict was found ...
    ensures r == Err(PageSizeInvalid) <==>
      !(after.Some? && before.Some?) && !DirectionConflict(before, after, first, last) &&
      ChosenSize(before, after, first, last).Some? &&
      !(0 < ChosenSize(before, after, first, last).value <= paginationLimit)
    // ... and every other request is accepted, an omitted size unchecked
    ensures r.Ok? <==>
      !(after.Some? && before.Some?) && !DirectionConflict(before, after, first, last) &&
      (ChosenSize(before, after, first, last).None? ||
       0 < ChosenSize(before, after, first, last).value <= paginationLimit)
    ensures r != Err(CursorInvalid)
    ensures r.Ok? ==>
      var size := ChosenSize(before, after, first, last);
      && (size.None? ==> r.value.perPage == defaultPageSize)
      && (size.Some? ==> r.value.perPage == size.value && 0 < size.value <= paginationLimit)
      && r.value.anchor == (if after.Some? then AfterCursor(after.value)
                            else if before.Some? then BeforeCursor(before.value) else FromStart)
  {
    if after.Some? then
      if before.Some? then Err(PagingDirectionConflict)
      else if last.Some? then Err(PageDirectionConflict)
      else
        match SizeOrDefault(first, defaultPageSize, paginationLimit)
        case Err(e) => Err(e)
        case Ok(n) => Ok(PageRequest(n, AfterCursor(after.value)))
    else if before.Some? then
      if first.Some? then Err(PageDirectionConflict)
      else
        match SizeOrDefault(last, defaultPageSize, paginationLimit)
        case Err(e) => Err(e)
        case Ok(n) => Ok(PageRequest(n, BeforeCursor(before.value)))
    else if last.Some? then Err(PageDirectionConflict)
    else
      match SizeOrDefault(first, defaultPageSize, paginationLimit)
      case Err(e) => Err(e)
      case Ok(n) => Ok(PageRequest(n, FromStart))
  }

  /** The call made to the keyset library's `select_page`. */
  datatype Selection<P> = Selection(perPage: int, after: Option<P>, before: Option<P>)

  /** One of the page's `bookmark_items()`: the row's bookmark and its node. */
  datatype BookmarkItem<N> = BookmarkItem(bookmark: string, node: N)

  /** What `select_page` returns: the page's rows with their bookmarks, and the
      library's two flags. The model's `selectPage` answers `None` where the
      library raises `BadBookmark`. */
  datatype KeysetPage<N> = KeysetPage(items: seq<BookmarkItem<N>>, hasNext: bool, hasPrevious: bool)

  datatype PageInfo = PageInfo(hasNextPage: bool, hasPreviousPage: bool,
                               startCursor: Option<string>, endCursor: Option<string>)

  datatype Edge<T> = Edge(node: T, cursor: string)

  datatype CountableConnection<T> = CountableConnection(count: int, pageInfo: PageInfo, edges: seq<Edge<T>>)

  /** Exceptions that leave `get_countable_connection` instead of becoming a
      `PaginationError`. */
  datatype Escaped = B64DecodeError | UnicodeError

  datatype Outcome<T> =
    | Connection(connection: CountableConnection<T>)
    | PaginationError(code: ErrorCode)
    | Raised(exception: Escaped)

  /** The envelope built from a fetched page. */
  function Envelope<N, T>(page: KeysetPage<N>, resolveNode: N -> T): (r: CountableConnection<T>)
    ensures r.count == |page.items| == |r.edges|
    ensures forall i :: 0 <= i < |r.edges| ==>
      r.edges[i].node == resolveNode(page.items[i].node) && r.edges[i].cursor == ToB64(page.items[i].bookmark)
    ensures r.pageInfo.hasNextPage == page.hasNext && r.pageInfo.hasPreviousPage == page.hasPrevious
  {
    var items := page.items;
    var edges := seq(|items|, i requires 0 <= i < |items| => Edge(resolveNode(items[i].node), ToB64(items[i].bookmark)));
    CountableConnection(
      |items|,
      PageInfo(page.hasNext, page.hasPrevious,
               if |edges| > 0 then Some(edges[0].cursor) else None,
               if |edges| > 0 then Some(edges[|edges| - 1].cursor) else None),
      edges)
  }

  /** The start and end cursors are those of the first and last edges, and
      are absent exactly when the page is empty. */
  lemma {:induction false} EnvelopeEnds<N, T>(page: KeysetPage<N>, resolveNode: N -> T)
    ensures var r := Envelope(page, resolveNode);
      (r.pageInfo.startCursor.None? <==> |r.edges| == 0) &&
      (r.pageInfo.endCursor.None? <==> |r.edges| == 0) &&
      (|r.edges| > 0 ==>
        r.pageInfo.startCursor == Some(r.edges[0].cursor) &&
        r.pageInfo.endCursor == Some(r.edges[|r.edges| - 1].cursor))
  {
  }

  /** Every edge cursor, and so the start and end cursors, decodes back to
      its item's bookmark with `from_b64`. */
  lemma {:induction false} EnvelopeCursorsDecode<N, T>(page: KeysetPage<N>, resolveNode: N -> T)
    ensures var r := Envelope(page, resolveNode);
      forall i :: 0 <= i < |r.edges| ==> FromB64(r.edges[i].cursor) == Ok(page.items[i].bookmark)
  {
    var r := Envelope(page, resolveNode);
    forall i | 0 <= i < |r.edges| ensures FromB64(r.edges[i].cursor) == Ok(page.items[i].bookmark) {
      FromToB64(page.items[i].bookmark);
    }
  }

  /** The outcome of one `select_page` call: the envelope of the page, or
      `cursor_invalid` when the library raised `BadBookmark`. */
  ghost predicate Answers<N, T>(r: Outcome<T>, page: Option<KeysetPage<N>>, resolveNode: N -> T) {
    match page
    case None => r == PaginationError(CursorInvalid)
    case Some(pg) => r == Connection(Envelope(pg, resolveNode))
  }

  /** `get_countable_connection`: validation first, then the cursor, then one
      call to `select_page`. */
  function GetCountableConnection<P(!new), N, T>(
    unserializeBookmark: string -> Option<P>,
    selectPage: Selection<P> -> Option<KeysetPage<N>>,
    resolveNode: N -> T,
    before: Option<string>, after: Option<string>, first: Option<int>, last: Option<int>,
    defaultPageSize: int, paginationLimit: int): (r: Outcome<T>)
    // every validation error is returned before any cursor is looked at
    ensures ValidateArgs(before, after, first, last, defaultPageSize, paginationLimit).Err? ==>
      r == PaginationError(ValidateArgs(before, after, first, last, defaultPageSize, paginationLimit).error)
    // without a cursor, the page selected from the start with the validated size
    ensures var v := ValidateArgs(before, after, first, last, defaultPageSize, paginationLimit);
      v.Ok? && after.None? && before.None? ==>
      Answers(r, selectPage(Selection(v.value.perPage, None, None)), resolveNode)
    // an `after` cursor that is not Base64 is reported as `cursor_invalid` ...
    ensures (ValidateArgs(before, after, first, last, defaultPageSize, paginationLimit).Ok? && after.Some? &&
             FromB64(after.value) == Err(NotBase64)) ==> r == PaginationError(CursorInvalid)
    // ... but a `before` cursor that is not Base64 escapes as an exception
    ensures (ValidateArgs(before, after, first, last, defaultPageSize, paginationLimit).Ok? && before.Some? &&
             FromB64(before.value) == Err(NotBase64)) ==> r == Raised(B64DecodeError)
    // a non-ASCII cursor, or one whose bytes are not UTF-8, escapes on both sides
    ensures var c := if after.Some? then after.value else if before.Some? then before.value else "";
      (ValidateArgs(before, after, first, last, defaultPageSize, paginationLimit).Ok? &&
       (after.Some? || before.Some?) &&
       (FromB64(c) == Err(NonAsciiCursor) || FromB64(c) == Err(NotUtf8))) ==> r == Raised(UnicodeError)
    // a cursor that is Base64 but not a bookmark is `cursor_invalid` on both sides
    ensures var c := if after.Some? then after.value else if before.Some? then before.value else "";
      (ValidateArgs(before, after, first, last, defaultPageSize, paginationLimit).Ok? &&
       (after.Some? || before.Some?) &&
       FromB64(c).Ok? && unserializeBookmark(FromB64(c).value).None?) ==> r == PaginationError(CursorInvalid)
    // a bookmark anchors the page after it, or before it, with the validated size
    ensures var v := ValidateArgs(before, after, first, last, defaultPageSize, paginationLimit);
      v.Ok? && after.Some? && FromB64(after.value).Ok? && unserializeBookmark(FromB64(after.value).value).Some? ==>
      Answers(r, selectPage(Selection(v.value.perPage, unserializeBookmark(FromB64(after.value).value), None)), resolveNode)
    ensures var v := ValidateArgs(before, after, first, last, defaultPageSize, paginationLimit);
      v.Ok? && before.Some? && FromB64(before.value).Ok? && unserializeBookmark(FromB64(before.value).value).Some? ==>
      Answers(r, selectPage(Selection(v.value.perPage, None, unserializeBookmark(FromB64(before.value).value))), resolveNode)
    // a page is produced only from valid arguments, with the validated size,
    // on the side of the supplied cursor
    ensures r.Connection? ==>
      var v := ValidateArgs(before, after, first, last, defaultPageSize, paginationLimit);
      && v.Ok?
      && exists sel: Selection<P> ::
           && sel.perPage == v.value.perPage
           && (sel.after.Some? <==> after.Some?)
           && (sel.before.Some? <==> before.Some?)
           && selectPage(sel).Some?
           && r.connection == Envelope(selectPage(sel).value, resolveNode)
  {
    match ValidateArgs(before, after, first, last, defaultPageSize, paginationLimit)
    case Err(code) => PaginationError(code)
    case Ok(PageRequest(perPage, anchor)) =>
      match anchor {
      case FromStart =>
        Fetch(selectPage, Selection(perPage, None, None), resolveNode)
      case AfterCursor(cursor) =>
        match FromB64(cursor) {
        case Err(NotBase64) => PaginationError(CursorInvalid)
        case Err(_) => Raised(UnicodeError)
        case Ok(text) =>
          match unserializeBookmark(text)
          case None => PaginationError(CursorInvalid)
          case Some(place) => Fetch(selectPage, Selection(perPage, Some(place), None), resolveNode)
        }
      case BeforeCursor(cursor) =>
        match FromB64(cursor)
        case Err(NotBase64) => Raised(B64DecodeError)
        case Err(_) => Raised(UnicodeError)
        case Ok(text) =>
          match unserializeBookmark(text)
          case None => PaginationError(CursorInvalid)
          case Some(place) => Fetch(selectPage, Selection(perPage, None, Some(place)), resolveNode)
      }
  }

  /** One `select_page` call inside the `try` that turns `BadBookmark` into
      `cursor_invalid`. */
  function Fetch<P, N, T>(selectPage: Selection<P> -> Option<KeysetPage<N>>, sel: Selection<P>, resolveNode: N -> T): (r: Outcome<T>)
    ensures Answers(r, selectPage(sel), resolveNode)
  {
    match selectPage(sel)
    case None => PaginationError(CursorInvalid)
    case Some(page) => Connection(Envelope(page, resolveNode))
  }
}
