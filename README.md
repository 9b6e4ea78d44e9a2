# Cursor pagination of the fileshare GraphQL API

This project models the pagination core of the fileshare GraphQL service in
Dafny and proves what it promises. It covers four pieces.

- **The in-repository cursor paginator** (`fileshare/graphql/pagination.py`):
  - `reverse_ordering`;
  - constructing a `CursorPaginator`;
  - the `|`-joined Base64 cursor (`encode_cursor`, `decode_cursor`);
  - the keyset filter that `apply_cursor` builds, as a disjunction of
    lookup clauses;
  - page assembly in `page()`: overfetch by one, reverse for `last`, cut to
    the page size, reverse back, set the two flags;
  - cursor extraction from an instance (`position_from_instance`, `cursor`).
- **The GraphQL helpers** (`fileshare/graphql/helpers.py`):
  - the Base64 cursor codec `to_b64`/`from_b64`;
  - the argument validation of `get_countable_connection`;
  - its cursor handling;
  - the `CountableConnection` envelope it builds around a `select_page` result.
- **The sort inputs of files and shares** (`fileshare/graphql/file/inputs.py`,
  `fileshare/graphql/share/inputs.py`): the column lists of each sort field, and
  the orderings that `items` builds from a field and an `OrderDirection`.
- **The codecs the cursors rely on**:
  - UTF-8 (encoding, and strict decoding per table 3-7 of the Unicode
    standard);
  - ASCII;
  - Base64 (section 4 of RFC 4648).

What is proved of the codecs:

- UTF-8 round-trips in both directions (`Utf8.DecodeEncode`, `Utf8.EncodeDecode`).
- ASCII round-trips in both directions (`Ascii.EncodeDecode`, `Ascii.DecodeEncode`).
- Base64 decoding undoes encoding (`Base64.DecodeEncode`). The converse does
  not hold, because decoding ignores the unused bits of a padded final group,
  as Python's `b64decode` does. `Base64.DecodeIgnoresPadBits` shows this:
  `QR==` decodes to `A`, while `A` encodes as `QQ==`.

The modules are:

- `Wrappers`: `Option` and `Result`.
- `Bytes`: byte sequences.
- `Text`: the Python `str` methods used (`startswith`, `lstrip`, `find`,
  `split`, `join`).
- `Utf8`, `Ascii` and `Base64`: the codecs.
- `Seqs`:
  - reversal;
  - Python's `s[:n]`;
  - subsequences.
- `Keyset`:
  - rows as maps from column to value;
  - the direction-aware lexicographic order on key tuples;
  - filters as disjunctions of `__lt`/`__gt`/`__exact` clauses;
  - `queryset.filter`.
- `Pagination`, `Helpers`, `Types`, `FileInputs` and `ShareInputs`: one per
  source file.

The central results are these.

- `KeysetFilterIsAfter`: the disjunction built by `apply_cursor` keeps exactly
  the rows whose key tuple lies strictly after the cursor position, in the
  order the ordering defines, or strictly before it when seeking backwards.
  This holds under four conditions:
  - the ordering is non-empty;
  - its columns are distinct;
  - the position has one value per ordering entry;
  - the row has every column.
- `PageWithinCursors`: every row of a page lies strictly between the `after`
  and `before` positions. This holds under three conditions:
  - the ordering is non-empty, with distinct columns;
  - every row of the queryset has every column;
  - each supplied cursor decodes to a position with one value per ordering
    entry (`FullCursor`).
- `PageInOrder`: a page keeps the queryset's order.
- `PageForward` and `PageBackward`: what a page holds, and its flags, for
  `first` and for `last`.
- The codec round trips:
  - `from_b64(to_b64(s)) == s`;
  - `decode_cursor(encode_cursor(p)) == p` for every non-empty position without
    `|`;
  - the cursor of an instance decodes back to its position.

The three loop-shaped operations are methods proved equal to their
specification functions:

- `apply_cursor` (`ApplyCursor`, with the loop in `BuildFilter`);
- `page()` (`Page`, `AssembleRows`, and `ReverseInPlace` on an array for
  `items.reverse()`);
- `position_from_instance` (`PositionFromInstance`, two nested loops).

The `items` properties of both sort inputs are loop methods proved the same
way. The rest is functions and lemmas.

Some things become parameters or stand-ins:

- The settings `default_page_size` and `pagination_limit` become parameters.
- sqlakeyset's `select_page` and `unserialize_bookmark` become function
  parameters of `GetCountableConnection`. `select_page` answers with no page
  where sqlakeyset raises `BadBookmark`.
- A model instance is an `Instance`: the text `str()` gives, and its
  attributes by name.
- An ordered queryset is the sequence of its rows in ordering order.

A connection's `count` is the number of items on the page
(`fileshare/graphql/helpers.py:99`), not the size of the whole result set.

## Model

| member | source | states |
|---|---|---|
| Text.LStrip | fileshare/graphql/pagination.py:125 | `lstrip("-")`: the result is no longer than the input and does not start with the character, and every character removed is that character |
| Text.LStripSuffix | fileshare/graphql/pagination.py:125 | what `lstrip` keeps is a suffix of its input |
| Text.Find | fileshare/graphql/pagination.py:143 | the leftmost occurrence of the separator, if any; no occurrence lies before it |
| Text.NoCharNoFind | fileshare/graphql/pagination.py:143 | a text without the one-character separator has no occurrence of it |
| Text.FindAfterPrefix | fileshare/graphql/pagination.py:143 | in a prefix without the separator, followed by the separator, the leftmost occurrence is right after the prefix |
| Text.Split | fileshare/graphql/pagination.py:143 | `str.split(sep)` always yields at least one piece |
| Text.Join | fileshare/graphql/pagination.py:148 | joining a single piece gives that piece |
| Text.JoinSplit | fileshare/graphql/pagination.py:140-151 | joining the pieces of a split with the same separator restores the text |
| Text.SplitPiecesAvoidSeparator | fileshare/graphql/pagination.py:143 | no piece of a split contains the separator |
| Text.SplitJoin | fileshare/graphql/pagination.py:140-151 | splitting a join of one or more pieces without the one-character separator gives the pieces back |
| Utf8.EncodeChar | fileshare/graphql/helpers.py:21 | a character takes one to four bytes |
| Utf8.Encode | fileshare/graphql/helpers.py:21 | a string takes between one and four bytes per character |
| Utf8.DecodeFirst | fileshare/graphql/helpers.py:26 | a decoded character consumes between one byte and the whole input |
| Utf8.Decode | fileshare/graphql/helpers.py:26 | `decode("utf-8")` of a byte string, or failure; a decoded text never has more characters than the bytes it came from |
| Utf8.DecodeEncodeChar | fileshare/graphql/helpers.py:21-26 | the first character decoded from a character's encoding is that character, using all its bytes |
| Utf8.DecodeEncodeTwoBytes | fileshare/graphql/helpers.py:21-26 | a code point from U+0080 to U+07FF comes back from its two-byte form |
| Utf8.DecodeEncodeThreeBytes | fileshare/graphql/helpers.py:21-26 | a code point from U+0800 to U+FFFF comes back from its three-byte form, which avoids the overlong and surrogate ranges the decoder rejects |
| Utf8.DecodeEncodeFourBytes | fileshare/graphql/helpers.py:21-26 | a code point from U+10000 up comes back from its four-byte form, which stays within the lead and second bytes the decoder accepts |
| Utf8.EncodeDecodeChar | fileshare/graphql/helpers.py:21-26 | the bytes a decoded character used are exactly its encoding, so the decoder takes only shortest forms |
| Utf8.EncodeDecodeTwoBytes | fileshare/graphql/helpers.py:21-26 | an accepted two-byte sequence is the encoding of the character it decodes to |
| Utf8.EncodeDecodeThreeBytes | fileshare/graphql/helpers.py:21-26 | an accepted three-byte sequence is the encoding of the character it decodes to |
| Utf8.EncodeDecodeFourBytes | fileshare/graphql/helpers.py:21-26 | an accepted four-byte sequence is the encoding of the character it decodes to |
| Utf8.EncodeCons | fileshare/graphql/helpers.py:21 | a string's encoding is its first character's bytes followed by the encoding of the rest |
| Utf8.DecodeEncode | fileshare/graphql/helpers.py:19-28 | decoding the encoding of any string gives the string |
| Utf8.EncodeDecode | fileshare/graphql/helpers.py:19-28 | any byte sequence the decoder accepts is the encoding of what it decodes to |
| Ascii.Encode | fileshare/graphql/helpers.py:26 | `str.encode("ascii")` succeeds exactly when every character is below 128, and gives their code points |
| Ascii.Decode | fileshare/graphql/helpers.py:21 | `bytes.decode("ascii")` of ASCII bytes gives the characters with those code points |
| Ascii.EncodeDecode | fileshare/graphql/helpers.py:19-28 | encoding decoded ASCII bytes gives the bytes back |
| Ascii.DecodeEncode | fileshare/graphql/helpers.py:21-26 | bytes that are all ASCII survive `decode("ascii")` followed by `encode("ascii")` unchanged |
| Base64.Letter | fileshare/graphql/helpers.py:21 | every alphabet letter is ASCII and is not the pad character |
| Base64.Value | fileshare/graphql/helpers.py:26 | the pad byte `=` has no sextet value |
| Base64.LetterValue | fileshare/graphql/helpers.py:26 | a byte's sextet value, when it has one, is the value whose letter is that byte |
| Base64.ValueLetter | fileshare/graphql/helpers.py:19-28 | every sextet's letter decodes back to that sextet |
| Base64.Encode | fileshare/graphql/helpers.py:21 | the encoding is 7-bit, so it reads as ASCII text |
| Base64.EncodeLength | fileshare/graphql/helpers.py:21 | the encoding of n bytes has length 4·⌈n/3⌉ |
| Base64.EncodeAlphabet | fileshare/graphql/helpers.py:21 | the encoding holds only alphabet and pad bytes |
| Base64.Decode | fileshare/graphql/helpers.py:26 | `b64decode` of a byte string, or `binascii.Error`; three bytes come back for at most every four characters read |
| Base64.DecodeLength | fileshare/graphql/helpers.py:26 | accepted input has a length divisible by four |
| Base64.DecodeAccepts | fileshare/graphql/helpers.py:26 | accepted input holds only alphabet or pad bytes |
| Base64.DecodeQuantum | fileshare/graphql/helpers.py:26 | an inner group decodes exactly when all four of its bytes are alphabet letters |
| Base64.DecodeFinalQuantum | fileshare/graphql/helpers.py:26 | a final group decodes only when all its bytes are alphabet or pad bytes |
| Base64.DecodeGroup | fileshare/graphql/helpers.py:19-28 | a full four-letter group decodes to its three bytes, inside the text or at its end |
| Base64.DecodeOne | fileshare/graphql/helpers.py:19-28 | a final group with two pads decodes to its one byte |
| Base64.DecodeTwo | fileshare/graphql/helpers.py:19-28 | a final group with one pad decodes to its two bytes |
| Base64.DecodeAppend | fileshare/graphql/helpers.py:19-28 | a full group followed by more decodable text decodes to the group's bytes followed by the rest's |
| Base64.DecodeGroupThen | fileshare/graphql/helpers.py:19-28 | a group's encoding followed by decodable text decodes to the group's three bytes followed by the text's bytes |
| Base64.EncodeFirstGroup | fileshare/graphql/helpers.py:21 | input longer than three bytes encodes as its first group followed by the non-empty encoding of the rest |
| Base64.DecodeEncodeShort | fileshare/graphql/helpers.py:19-28 | up to three bytes come back from their one-group encoding |
| Base64.DecodeEncodeLong | fileshare/graphql/helpers.py:19-28 | longer input comes back from its encoding whenever what follows its first three bytes does |
| Base64.DecodeEncode | fileshare/graphql/helpers.py:19-28 | decoding the encoding of any byte sequence gives the sequence |
| Base64.DecodeIgnoresPadBits | fileshare/graphql/helpers.py:26 | decoding is not injective: `QR==` is accepted and decodes to `A`, whose encoding is `QQ==`, so encoding does not undo decoding |
| Helpers.ToB64 | fileshare/graphql/helpers.py:19-21 | `to_b64` gives ASCII text |
| Helpers.FromB64 | fileshare/graphql/helpers.py:23-28 | `from_b64` fails on a non-ASCII cursor exactly when some character is at or above 128 |
| Helpers.FromToB64 | fileshare/graphql/helpers.py:19-28 | `from_b64(to_b64(s)) == s` for every string |
| Helpers.ToB64Injective | fileshare/graphql/helpers.py:19-21 | distinct strings get distinct cursors |
| Helpers.SizeOrDefault | fileshare/graphql/helpers.py:45-48 | an omitted size becomes the default unchecked; a given size is accepted exactly within 0 < size ≤ limit, else `page_size_invalid` |
| Helpers.ValidateArgs | fileshare/graphql/helpers.py:40-85 | in both directions: `paging_direction_conflict` exactly when both cursors are given; `page_direction_conflict` exactly when otherwise `last` comes with `after`, `first` with `before`, or `last` without any cursor; `page_size_invalid` exactly when otherwise the size argument of the chosen side is given and not in 1..limit; the arguments are accepted exactly when none of these holds. Validation never yields `cursor_invalid`; an accepted request carries the chosen size, or the default, and the supplied cursor as anchor |
| Helpers.EnvelopeCursorsDecode | fileshare/graphql/helpers.py:106-111 | every edge cursor of the envelope decodes back, through `from_b64`, to its item's bookmark |
| Helpers.Envelope | fileshare/graphql/helpers.py:96-112 | one edge per item, in order, with the resolved node and `to_b64` of the bookmark as cursor; `count` is the page length; flags copied from the page |
| Helpers.EnvelopeEnds | fileshare/graphql/helpers.py:102-103 | start and end cursors are those of the first and last edges, `None` exactly when the page is empty |
| Helpers.Fetch | fileshare/graphql/helpers.py:49-93 | a selection that `select_page` rejects with `BadBookmark` (no page) answers `cursor_invalid`; a selected page is answered by its envelope |
| Helpers.GetCountableConnection | fileshare/graphql/helpers.py:30-112 | validation errors come before any cursor is decoded. Without a cursor, the answer is that of `select_page` at the validated size with no anchor. A non-Base64 `after` gives `cursor_invalid`, but a non-Base64 `before` escapes as an exception. A cursor with a non-ASCII character, or one that is Base64 of bytes that are not UTF-8, escapes as a `UnicodeError` on either side. A Base64 cursor that is no bookmark gives `cursor_invalid`. A cursor that is a bookmark is answered by `select_page` at the validated size, anchored after or before that bookmark on the side the cursor was supplied. A `BadBookmark` from `select_page` becomes `cursor_invalid`. A connection comes only from valid arguments, as the envelope of a selected page |
| Seqs.Reverse | fileshare/graphql/pagination.py:97-98 | `items.reverse()`: same length, element i taken from the mirrored position |
| Seqs.ReverseReverse | fileshare/graphql/pagination.py:93-98 | reversing twice gives the sequence back |
| Seqs.SliceTo | fileshare/graphql/pagination.py:89-96 | Python's `s[:n]` is a prefix of `s`, of length `min(n, len)` for `n ≥ 0` and `max(len + n, 0)` for `n < 0` |
| Seqs.LastInOrder | fileshare/graphql/pagination.py:93-98 | taking a prefix of the reversed rows and reversing it back gives a suffix of the rows, in their order |
| Seqs.ReversedPrefix | fileshare/graphql/pagination.py:93-98 | the first k elements of the reversal, reversed back, are the last k elements in their order |
| Keyset.LessIrreflexive | fileshare/graphql/pagination.py:126-129 | no value is below itself |
| Keyset.LessTransitive | fileshare/graphql/pagination.py:126-129 | the value order is transitive |
| Keyset.AfterIsFirstDifference | fileshare/graphql/pagination.py:123-136 | the lexicographic order holds exactly when some key is the first to differ and differs in the key's direction |
| Keyset.AfterIrreflexive | fileshare/graphql/pagination.py:110-138 | no key tuple lies strictly after itself |
| Keyset.Flip | fileshare/graphql/pagination.py:126 | flipping the directions negates each one |
| Keyset.AfterFlip | fileshare/graphql/pagination.py:126-129 | "after" under the flipped directions is "before" under the original ones |
| Keyset.AfterTransitive | fileshare/graphql/pagination.py:110-138 | the lexicographic order is transitive |
| Keyset.Key | fileshare/graphql/pagination.py:123-125 | a row's key tuple holds the row's value for each ordering column |
| Keyset.ClauseExtend | fileshare/graphql/pagination.py:131-136 | adding a new lookup to a clause adds exactly that condition |
| Keyset.FilterRows | fileshare/graphql/pagination.py:138 | `queryset.filter` keeps exactly the rows satisfying the filter, and never more rows than it had |
| Keyset.FilterRowsSorted | fileshare/graphql/pagination.py:138 | filtering a strictly sorted queryset leaves it strictly sorted |
| Keyset.FilterRowsSubsequence | fileshare/graphql/pagination.py:138 | filtering never adds or reorders rows |
| Keyset.SortedRun | fileshare/graphql/pagination.py:88-98 | a contiguous run of strictly sorted rows is strictly sorted |
| Keyset.FilterRowsHasColumns | fileshare/graphql/pagination.py:138 | filtered rows keep every ordering column |
| Seqs.PrefixStep | fileshare/graphql/pagination.py:135-136 | two tuples agree on n keys exactly when they agree on n − 1 keys and on key n |
| Pagination.Columns | fileshare/graphql/pagination.py:125 | the column of each entry is the entry with its leading dashes stripped |
| Pagination.Directions | fileshare/graphql/pagination.py:124-126 | a key compares with `__lt` exactly when the entry's sign and the seek direction differ |
| Pagination.ReverseOrdering | fileshare/graphql/pagination.py:12-21 | same length and positions; `"-x"` becomes `"x"` and `"x"` becomes `"-x"` |
| Pagination.Invert | fileshare/graphql/pagination.py:18-19 | `invert` keeps an entry's column and, for entries that do not start with `--`, flips its direction |
| Pagination.SingleDash | fileshare/graphql/pagination.py:18-19 | dropping the one dash of a singly dashed entry leaves no leading dash |
| Pagination.ReverseOrderingInvolution | fileshare/graphql/pagination.py:12-21 | reversing twice returns the ordering when no entry starts with `--` |
| Pagination.ReverseOrderingDoubleDash | fileshare/graphql/pagination.py:18-21 | without that proviso it fails: `["--x"]` comes back as `["x"]` |
| Pagination.InvertKeepsColumn | fileshare/graphql/pagination.py:18-19 | inverting an entry keeps the column it names |
| Pagination.PlainColumn | fileshare/graphql/pagination.py:125 | a column without a leading dash is named by itself and by its one-dash form |
| Pagination.ReverseOrderingFlips | fileshare/graphql/pagination.py:12-21 | the reversed ordering has the same columns and every direction flipped |
| Pagination.ReversedQuerysetSorted | fileshare/graphql/pagination.py:93 | re-ordering by the reversed ordering is reversing a strictly sorted queryset |
| Pagination.NewPaginator | fileshare/graphql/pagination.py:64-68 | construction fails with the `ValueError` exactly when the ordering is empty, and otherwise keeps queryset and ordering |
| Pagination.DecodeCursor | fileshare/graphql/pagination.py:140-145 | fails, always with `InvalidCursor("Invalid Cursor")`, exactly when the Base64/UTF-8 decoding fails; yields at least one value |
| Pagination.EncodeCursor | fileshare/graphql/pagination.py:147-151 | the cursor is Base64 text that `from_b64` decodes back to the position joined with `|` |
| Pagination.DecodeEncodeCursor | fileshare/graphql/pagination.py:140-151 | `decode_cursor(encode_cursor(p)) == p` for every non-empty `p` whose values contain no `|` |
| Pagination.EmptyPositionCursor | fileshare/graphql/pagination.py:140-151 | the empty position shares its cursor with `[""]` and comes back as `[""]` |
| Pagination.KeysetFilter | fileshare/graphql/pagination.py:123 | one clause per entry of `zip(ordering, position)` |
| Pagination.ClausesAt | fileshare/graphql/pagination.py:126-136 | clause i of the disjunction is key i's strict comparison plus equality on keys 0 to i − 1 |
| Pagination.BuildFilter | fileshare/graphql/pagination.py:118-136 | the loop builds the disjunction whose clause i is entry i's comparison plus equality on every earlier key |
| Pagination.ApplyCursor | fileshare/graphql/pagination.py:110-138 | `apply_cursor` fails as the decoding does, and otherwise filters the queryset with that disjunction |
| Pagination.CursorApplied | fileshare/graphql/pagination.py:110-138 | `apply_cursor` fails exactly when the cursor cannot be decoded; otherwise the rows it keeps are a subsequence of the queryset |
| Pagination.EqualitiesShape | fileshare/graphql/pagination.py:135-136 | `q_equality` holds only `__exact` lookups on earlier columns |
| Pagination.NextColumnFresh | fileshare/graphql/pagination.py:135-136 | with distinct columns each iteration adds a new equality |
| Pagination.EqualitiesHold | fileshare/graphql/pagination.py:119-136 | the equalities hold exactly when the row agrees with the position on the earlier keys |
| Pagination.ClauseAtHolds | fileshare/graphql/pagination.py:124-133 | clause i holds exactly when key i is the first on which the row lies beyond the position |
| Pagination.KeysetFilterIsAfter | fileshare/graphql/pagination.py:110-138 | the disjunction holds exactly when the row's keys lie strictly after the position in the direction-aware lexicographic order, flipped for `reverse` |
| Pagination.BackwardDirections | fileshare/graphql/pagination.py:126 | seeking backwards flips every direction |
| Pagination.CursorAppliedKeeps | fileshare/graphql/pagination.py:110-138 | with a full position, `apply_cursor` keeps exactly the rows strictly after it (strictly before it for `reverse`), never the row equal to it |
| Pagination.ReverseInPlace | fileshare/graphql/pagination.py:97-98 | `items.reverse()` leaves the array holding the reversed contents |
| Pagination.ReverseList | fileshare/graphql/pagination.py:97-98 | `items.reverse()` on the fetched list gives the reversed rows |
| Pagination.Page | fileshare/graphql/pagination.py:70-108 | `page()` returns exactly what the page specification gives |
| Pagination.PageSize | fileshare/graphql/pagination.py:78-80 | `first or last`, then the default: a non-zero `first` wins; a `first` of 0 counts as absent, so `last` is used if given and the default otherwise |
| Pagination.PageOf | fileshare/graphql/pagination.py:70-108 | `page()` succeeds exactly when the page size is within the limit, both cursors decode, and `first` and `last` are not both given; a size above the limit raises the limit `ValueError` before anything else |
| Pagination.AssembleRows | fileshare/graphql/pagination.py:88-108 | the slicing, reversal and flag-setting steps compute the page's rows and flags |
| Pagination.PageErrors | fileshare/graphql/pagination.py:78-92 | `page()` raises exactly when the size exceeds the limit, a cursor is invalid, or both `first` and `last` are given, with the limit check first and the conflict last |
| Pagination.PageInvalidCursor | fileshare/graphql/pagination.py:84-87 | within the limit, an undecodable cursor makes `page()` raise `InvalidCursor` |
| Pagination.PageForward | fileshare/graphql/pagination.py:88-103 | `first = n`: the first n narrowed rows; `has_next` exactly when more than n rows remain; `has_previous == bool(after)` |
| Pagination.AssembleForward | fileshare/graphql/pagination.py:88-108 | for `first = n` the assembled rows are the first n rows, `has_next` exactly when more than n rows exist, `has_previous` the truthiness of `after` |
| Pagination.AssembleBackward | fileshare/graphql/pagination.py:93-106 | `last = n` keeps the last n rows in ordering order, with `has_previous` exactly when more remain |
| Pagination.PageBackward | fileshare/graphql/pagination.py:90-106 | `last = n`: the last n narrowed rows in ordering order; `has_previous` exactly when more than n remain; `has_next == bool(before)` |
| Pagination.PageDefaultSize | fileshare/graphql/pagination.py:78-108 | with neither size: the first `default_page_size` rows, both flags false |
| Pagination.PageFirstZero | fileshare/graphql/pagination.py:78-103 | `first = 0` is falsy: the default size applies but one row is fetched, so the page holds at most the first row and `has_next` is false |
| Pagination.PageBounded | fileshare/graphql/pagination.py:96 | a page holds at most `page_size` rows |
| Pagination.AssembleIsRun | fileshare/graphql/pagination.py:88-98 | the assembled rows are a contiguous run of the narrowed rows |
| Pagination.TailRun | fileshare/graphql/pagination.py:93-98 | the rows a `last` page keeps, reversed back, are the final rows of the queryset |
| Pagination.PageIsRun | fileshare/graphql/pagination.py:84-98 | a page is a contiguous run of the narrowed queryset, so each of its rows comes from that queryset |
| Pagination.NarrowedSorted | fileshare/graphql/pagination.py:84-87 | applying the cursors keeps a strictly sorted queryset sorted |
| Pagination.PageInOrder | fileshare/graphql/pagination.py:70-108 | a page of a strictly sorted queryset is strictly sorted in the declared order, `last` included |
| Pagination.NarrowedWithinCursors | fileshare/graphql/pagination.py:84-87 | rows left after the cursors are queryset rows strictly after `after`'s position and strictly before `before`'s |
| Pagination.PageWithinCursors | fileshare/graphql/pagination.py:70-108 | every row of a page is a queryset row strictly after `after`'s position and strictly before `before`'s |
| Pagination.Paths | fileshare/graphql/pagination.py:156 | one attribute path per ordering entry |
| Pagination.Walk | fileshare/graphql/pagination.py:155-162 | a successful walk yields one value per path |
| Pagination.WalkMeaning | fileshare/graphql/pagination.py:153-162 | the position exists exactly when every path can be followed, holds the text at each path's end, and otherwise fails with the first failing path's `AttributeError` |
| Pagination.WalkFailsAt | fileshare/graphql/pagination.py:158-159 | the first entry whose path fails decides the error |
| Pagination.Resolve | fileshare/graphql/pagination.py:157-160 | an empty attribute path yields the instance itself; a failure is an `AttributeError` naming one of the path's attributes |
| Pagination.PositionFromInstance | fileshare/graphql/pagination.py:153-162 | the nested loops compute the position: strip dashes, split on `__`, follow attributes, append the text |
| Pagination.Position | fileshare/graphql/pagination.py:153-162 | a position read from an instance has one value per ordering entry |
| Pagination.Cursor | fileshare/graphql/pagination.py:164-165 | `cursor(i)` is `encode_cursor(position_from_instance(i))` or its error, and it decodes back to the position |
| Pagination.PositionIgnoresDirection | fileshare/graphql/pagination.py:155-156 | an ordering and its reverse give an instance the same position |
| Pagination.CursorSeeksPastRow | fileshare/graphql/pagination.py:164-165 | seeking forward from the cursor of a row's instance keeps exactly the rows strictly after that row |
| Types.OrderDirection.Value | fileshare/graphql/types.py:10-14 | the value is `"desc"` exactly for `DESC` and `"asc"` exactly for `ASC` |
| FileInputs.FileSortField.Columns | fileshare/graphql/file/inputs.py:21-30 | every field has a column; `CREATED` and `UPDATED` exactly have one, the others two ending in `updated` |
| FileInputs.Items | fileshare/graphql/file/inputs.py:37-46 | the loop builds the ordering: one entry per column, `-`-prefixed for `DESC` |
| FileInputs.ColumnsPlain | fileshare/graphql/file/inputs.py:23-30 | no column starts with `-` and no column repeats |
| FileInputs.OrderingMeaning | fileshare/graphql/file/inputs.py:37-46 | one entry per column, in order, naming that column; every entry descending exactly for `DESC`; non-empty, distinct columns, no `--` |
| FileInputs.ReverseFlipsDirection | fileshare/graphql/file/inputs.py:41-45 | `reverse_ordering` of a field's `ASC` items is its `DESC` items and the other way round |
| ShareInputs.ShareSortField.Columns | fileshare/graphql/share/inputs.py:23-29 | at least two distinct columns; `CREATED` and `UPDATED` tie-break on the other timestamp, the rest end with `updated`, `created` |
| ShareInputs.Items | fileshare/graphql/share/inputs.py:36-42 | the loop builds one column order per column |
| ShareInputs.OrderingMeaning | fileshare/graphql/share/inputs.py:37-42 | one order per column, in order, at least two; descending exactly when the direction's value is `"desc"`; no column repeats |

## Left out

- Lenient Base64 decoding. Python's `b64decode` without `validate=True` drops bytes outside the alphabet before decoding. Both decoders here follow section 4 of RFC 4648 strictly, so a cursor with stray characters is rejected here where Python may accept it.
- Surrogate code points. A Dafny `char` is a Unicode scalar value, so a Python string holding a lone surrogate, which `encode("utf-8")` rejects, cannot be written.
- Value comparison. Key values are text compared in code-point lexicographic order. Database collation and the typed comparison of dates and numbers are not modelled.
- The ORM. `Q`, `Value` and `TextField` are never imported in `fileshare/graphql/pagination.py`. Clauses are therefore modelled by what they state: maps from `column__op` lookups to values, combined by disjunction. The empty disjunction keeps every row.
- Re-ordering by `reverse_ordering`. `qs.order_by(...)` is modelled as reversing the ordered rows. That holds when `order_by` replaces the ordering and the rows are strictly sorted (`ReversedQuerysetSorted`). SQLAlchemy's `order_by` appends to an existing ordering instead, which is not modelled.
- Query slicing. `qs[: n]` on a query is modelled with Python list semantics, including negative stops.
- `CursorPage.__len__` and `__repr__` are not modelled: they call `.count()` and `.limit()` on the item list.
- Error messages that embed the configured limit are not modelled: a `PaginationError` carries only its code.
- sqlakeyset is not modelled. `select_page`, `unserialize_bookmark` and the page's bookmarks and flags are parameters. Its keyset semantics are not restated.
- `after` check in the `before` branch: the re-check at `fileshare/graphql/helpers.py:60-61` is unreachable and has no counterpart.
- The database session and `async` execution are not modelled.
- SQLAlchemy column expressions: `asc(getattr(Share, col))` and `desc(...)` are modelled as a column name with a direction.
- Pagination.PageBounded: assumes a non-negative page size. `page()` itself does not reject negative sizes, and Python's slicing then keeps all but the last rows. `get_countable_connection` rejects non-positive sizes before any page is built.
- Settings: `default_page_size` and `pagination_limit` are parameters, not values read from configuration.
