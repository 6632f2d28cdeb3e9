/** The request handling of the book API server (server/main.go): query
    validation for the listing endpoint, the MongoDB filter it builds from the
    query, the listing envelope, and the book-id checks of the detail endpoint.

    MongoDB is not modelled: the two database calls are function parameters
    (`find`, `findOne`) and the model records which query the handler issues.
    What the handler sends back is recorded as the list of writes it makes to
    the response, in order. */
module Server {
  import opened Wrappers
  import opened GoStrings
  import opened GoStrconv
  import opened UrlValues

  // ---------------------------------------------------------------------
  // Records and HTTP replies
  // ---------------------------------------------------------------------

  datatype Author = Author(authorId: string, role: string)

  datatype Book = Book(
    id: string,
    title: string,
    authors: seq<Author>,
    isbn: string,
    publicationYear: int,
    imageUrl: string)

  const StatusOK := 200
  const StatusBadRequest := 400
  const StatusNotFound := 404
  const StatusInternalServerError := 500

  /** The listing envelope. `data` is None when nothing matched: the handler's
      slice of books then stays nil, which the JSON encoder writes as null. */
  datatype Page = Page(data: Option<seq<Book>>, offset: int, limit: int, totalCount: int)

  /** One write to the response: an http.Error text, or a JSON body. */
  datatype Write =
    | TextWrite(status: int, body: string)
    | PageWrite(page: Page)
    | BookWrite(book: Book)

  /** http.Error: the status and the message followed by a newline. */
  function HttpError(status: int, message: string): (w: Write)
    ensures w.TextWrite? && w.status == status
    ensures |w.body| == |message| + 1 && message <= w.body && w.body[|message|] == '\n'
  {
    TextWrite(status, message + "\n")
  }

  /** The status the client sees: net/http keeps the first status written and
      ignores later ones; a JSON body written first implies 200. */
  function StatusOf(writes: seq<Write>): (status: int)
    ensures writes != [] && writes[0].TextWrite? ==> status == writes[0].status
    ensures writes == [] || !writes[0].TextWrite? ==> status == StatusOK
  {
    if writes == [] then StatusOK
    else match writes[0]
      case TextWrite(status, _) => status
      case _ => StatusOK
  }

  /** Once something is written, later writes do not change the status. */
  lemma StatusIgnoresLaterWrites(writes: seq<Write>, more: seq<Write>)
    requires writes != []
    ensures StatusOf(writes + more) == StatusOf(writes)
  {
    assert (writes + more)[0] == writes[0];
  }

  // ---------------------------------------------------------------------
  // validateRequest (main.go:68-83)
  // ---------------------------------------------------------------------

  const MaxLimit := 1000
  const OffsetMessage := "offset must be a non-negative number"
  const LimitMessage := "limit must be between 1 and 1000"
  const ValidationPrefix := "validation failed: "

  /** `offset` parses as an integer that is not negative. */
  predicate OffsetOk(raw: string)
  {
    Atoi(raw).Some? && Atoi(raw).value >= 0
  }

  /** `limit` parses as an integer between 1 and 1000. */
  predicate LimitOk(raw: string)
  {
    Atoi(raw).Some? && 1 <= Atoi(raw).value <= MaxLimit
  }

  /** The messages of the checks that fail, offset check first. */
  function FailureMessages(offsetOk: bool, limitOk: bool): (errs: seq<string>)
    ensures errs == [] <==> offsetOk && limitOk
    ensures OffsetMessage in errs <==> !offsetOk
    ensures LimitMessage in errs <==> !limitOk
  {
    (if offsetOk then [] else [OffsetMessage]) + (if limitOk then [] else [LimitMessage])
  }

  /** The error for a list of failure messages: None for nil. */
  function ErrorOf(errs: seq<string>): Option<string>
  {
    if errs == [] then None else Some(ValidationPrefix + Join(errs, ", "))
  }

  function ValidationFailures(params: Values): seq<string>
  {
    FailureMessages(OffsetOk(Get(params, "offset")), LimitOk(Get(params, "limit")))
  }

  /** The error validateRequest returns. */
  function ValidationError(params: Values): Option<string>
  {
    ErrorOf(ValidationFailures(params))
  }

  /** validateRequest, appending each failure's message to a local list. */
  method ValidateRequest(params: Values) returns (err: Option<string>)
    ensures err.None? <==> OffsetOk(Get(params, "offset")) && LimitOk(Get(params, "limit"))
    ensures err == ValidationError(params)
  {
    var errors: seq<string> := [];
    var offset := Atoi(Get(params, "offset"));
    if offset.None? || offset.value < 0 {
      errors := errors + [OffsetMessage];
    }
    var limit := Atoi(Get(params, "limit"));
    if limit.None? || limit.value < 1 || limit.value > MaxLimit {
      errors := errors + [LimitMessage];
    }
    if |errors| > 0 {
      err := Some(ValidationPrefix + Join(errors, ", "));
    } else {
      err := None;
    }
  }

  /** The error in each of the four cases: the prefix, then the failing
      checks' messages, offset first, separated by ", ". */
  lemma ValidationMessages(offsetOk: bool, limitOk: bool)
    ensures ErrorOf(FailureMessages(offsetOk, limitOk)) ==
      if offsetOk && limitOk then None
      else if !offsetOk && limitOk then Some(ValidationPrefix + OffsetMessage)
      else if offsetOk && !limitOk then Some(ValidationPrefix + LimitMessage)
      else Some(ValidationPrefix + OffsetMessage + ", " + LimitMessage)
  {
    if !offsetOk && !limitOk {
      var errs := FailureMessages(offsetOk, limitOk);
      assert errs == [OffsetMessage, LimitMessage];
      assert Join(errs, ", ") == OffsetMessage + ", " + LimitMessage;
      assert ValidationPrefix + (OffsetMessage + ", " + LimitMessage)
          == ValidationPrefix + OffsetMessage + ", " + LimitMessage;
    }
  }

  /** A parameter that is absent reads as "", which does not parse: its
      check always fails. */
  lemma MissingParameterRejected(params: Values)
    ensures "offset" !in params ==> ValidationFailures(params)[0] == OffsetMessage
    ensures "limit" !in params ==>
      var errs := ValidationFailures(params); errs[|errs| - 1] == LimitMessage
  {
    AtoiRejectsNoDigits("");
  }

  /** Every non-negative int64 offset and every limit in 1..1000, written as
      Itoa writes them, passes validation. */
  lemma ValidationAcceptsWrittenBounds(params: Values, offset: int, limit: int)
    requires 0 <= offset <= MaxInt64 && 1 <= limit <= MaxLimit
    requires Get(params, "offset") == Itoa(offset) && Get(params, "limit") == Itoa(limit)
    ensures ValidationError(params) == None
  {
    AtoiOfItoa(offset);
    AtoiOfItoa(limit);
  }

  /** For a number written as Itoa writes it, the offset check accepts
      exactly the non-negative int64 values and the limit check exactly 1..1000. */
  lemma ChecksOfWrittenNumbers(n: int)
    requires InInt64(n)
    ensures OffsetOk(Itoa(n)) <==> n >= 0
    ensures LimitOk(Itoa(n)) <==> 1 <= n <= MaxLimit
  {
    AtoiOfItoa(n);
  }

  // ---------------------------------------------------------------------
  // The query filter of getBooksHandler (main.go:112-152)
  // ---------------------------------------------------------------------

  /** The BSON values the filter uses (bson.D, bson.E and their leaves). */
  datatype BsonValue =
    | BStr(s: string)
    | BInt(i: int)
    | BStrArray(items: seq<string>)
    | BDoc(elems: seq<BsonElem>)

  datatype BsonElem = BsonElem(key: Key, value: BsonValue)

  /** The keys the filter uses, with the strings the driver is given for them. */
  datatype Key = Text | Search | PublicationYear | Gte | Lte | Authors | In {
    function Name(): string
    {
      match this
      case Text => "$text"
      case Search => "$search"
      case PublicationYear => "publication_year"
      case Gte => "$gte"
      case Lte => "$lte"
      case Authors => "authors"
      case In => "$in"
    }
  }

  type Filter = seq<BsonElem>

  /** Full-text search for the search string as one quoted phrase. */
  function TextEntry(search: string): BsonElem
  {
    BsonElem(Text, BDoc([BsonElem(Search, BStr("\"" + search + "\""))]))
  }

  /** A bound on the publication year; `op` is Gte or Lte. */
  function YearEntry(op: Key, year: int): BsonElem
  {
    BsonElem(PublicationYear, BDoc([BsonElem(op, BInt(year))]))
  }

  /** Books with any of the given author ids. */
  function AuthorsEntry(authors: seq<string>): BsonElem
  {
    BsonElem(Authors, BDoc([BsonElem(In, BStrArray(authors))]))
  }

  /** Distinct keys reach the driver as distinct strings. */
  lemma KeyNamesDistinct(k1: Key, k2: Key)
    requires k1 != k2
    ensures k1.Name() != k2.Name()
  {
    assert k1.Name()[1] != k2.Name()[1] || k1.Name()[2] != k2.Name()[2] || |k1.Name()| != |k2.Name()|;
  }

  function SearchClause(search: string): Filter
  {
    if search != "" then [TextEntry(search)] else []
  }

  /** A year bound is added only when its value parses as an integer. */
  function YearClause(raw: string, op: Key): Filter
  {
    if raw != "" && Atoi(raw).Some? then [YearEntry(op, Atoi(raw).value)] else []
  }

  function AuthorsClause(raw: string): Filter
  {
    if raw != "" then [AuthorsEntry(Split(raw, ','))] else []
  }

  /** The filter for the four raw parameter values: the clauses in a fixed order. */
  function FilterOf(search: string, publishedAfter: string, publishedBefore: string,
                    authors: string): Filter
  {
    SearchClause(search)
    + YearClause(publishedAfter, Gte)
    + YearClause(publishedBefore, Lte)
    + AuthorsClause(authors)
  }

  /** The filter for a query. */
  function FilterFor(params: Values): Filter
  {
    FilterOf(Get(params, "search"), Get(params, "published-after"),
             Get(params, "published-before"), Get(params, "authors"))
  }

  /** getBooksHandler's filter construction, appending entry by entry. */
  method BuildFilter(params: Values) returns (filter: Filter)
    ensures filter == FilterFor(params)
  {
    var search := Get(params, "search");
    var authors := Get(params, "authors");
    filter := [];
    if search != "" {
      filter := filter + [TextEntry(search)];
    }
    assert filter == SearchClause(search);
    var publishedAfter := Get(params, "published-after");
    if publishedAfter != "" {
      var after := Atoi(publishedAfter);
      if after.Some? {
        filter := filter + [YearEntry(Gte, after.value)];
      }
    }
    assert filter == SearchClause(search) + YearClause(publishedAfter, Gte);
    var publishedBefore := Get(params, "published-before");
    if publishedBefore != "" {
      var before := Atoi(publishedBefore);
      if before.Some? {
        filter := filter + [YearEntry(Lte, before.value)];
      }
    }
    assert filter == SearchClause(search) + YearClause(publishedAfter, Gte)
                     + YearClause(publishedBefore, Lte);
    if authors != "" {
      var authorsList := Split(authors, ',');
      filter := filter + [AuthorsEntry(authorsList)];
    }
  }

  /** The operator of an entry: the key of its inner document. */
  function Operator(e: BsonElem): Key
  {
    match e.value
    case BDoc(elems) => if elems != [] then elems[0].key else e.key
    case _ => e.key
  }

  /** Position of an entry's operator in the order the handler appends them. */
  function Rank(e: BsonElem): nat
  {
    match Operator(e)
    case Search => 0
    case Gte => 1
    case Lte => 2
    case In => 3
    case _ => 4
  }

  /** Ranks strictly increase along the filter. */
  predicate Ordered(f: Filter)
  {
    forall i, j :: 0 <= i < j < |f| ==> Rank(f[i]) < Rank(f[j])
  }

  predicate RanksBelow(f: Filter, r: nat)
  {
    forall i :: 0 <= i < |f| ==> Rank(f[i]) < r
  }

  /** A clause holds no entry, or one entry of rank `r`. */
  predicate ClauseOfRank(c: Filter, r: nat)
  {
    c == [] || (|c| == 1 && Rank(c[0]) == r)
  }

  lemma ClauseRanks(search: string, publishedAfter: string, publishedBefore: string,
                    authors: string)
    ensures ClauseOfRank(SearchClause(search), 0)
    ensures ClauseOfRank(YearClause(publishedAfter, Gte), 1)
    ensures ClauseOfRank(YearClause(publishedBefore, Lte), 2)
    ensures ClauseOfRank(AuthorsClause(authors), 3)
  {
  }

  lemma AppendClause(f: Filter, c: Filter, r: nat)
    requires Ordered(f) && RanksBelow(f, r) && ClauseOfRank(c, r)
    ensures Ordered(f + c) && RanksBelow(f + c, r + 1) && |f + c| <= |f| + 1
  {
    if c == [] {
      assert f + c == f;
    }
  }

  /** Entries come in the order search, published-after, published-before,
      authors, each at most once: so there are at most four. */
  lemma FilterOrder(params: Values)
    ensures var f := FilterFor(params);
      Ordered(f) && RanksBelow(f, 4) && |f| <= 4
  {
    var s, a, b, au := SearchClause(Get(params, "search")),
      YearClause(Get(params, "published-after"), Gte),
      YearClause(Get(params, "published-before"), Lte),
      AuthorsClause(Get(params, "authors"));
    ClauseRanks(Get(params, "search"), Get(params, "published-after"),
                Get(params, "published-before"), Get(params, "authors"));
    AppendClause([], s, 0);
    assert [] + s == s;
    AppendClause(s, a, 1);
    AppendClause(s + a, b, 2);
    AppendClause(s + a + b, au, 3);
  }

  /** No entry of `f` has key `k`. */
  predicate NoKey(f: Filter, k: Key)
  {
    forall i :: 0 <= i < |f| ==> f[i].key != k
  }

  lemma NoKeyAppend(f: Filter, g: Filter, k: Key)
    requires NoKey(f, k) && NoKey(g, k)
    ensures NoKey(f + g, k)
  {
  }

  /** A "$text" entry is present exactly when `search` is non-empty; it is
      then the first entry and searches for the string wrapped in double quotes. */
  lemma SearchEntry(search: string, publishedAfter: string, publishedBefore: string,
                    authors: string)
    ensures var f := FilterOf(search, publishedAfter, publishedBefore, authors);
      && ((exists i :: 0 <= i < |f| && f[i].key == Text) <==> search != "")
      && (search != "" ==>
            f[0] == BsonElem(Text, BDoc([BsonElem(Search, BStr("\"" + search + "\""))])))
  {
    var f := FilterOf(search, publishedAfter, publishedBefore, authors);
    var s, a, b, au := SearchClause(search), YearClause(publishedAfter, Gte),
      YearClause(publishedBefore, Lte), AuthorsClause(authors);
    assert f == s + a + b + au;
    if search != "" {
      assert f[0] == TextEntry(search);
    } else {
      assert NoKey(a, Text) && NoKey(b, Text) && NoKey(au, Text);
      NoKeyAppend(a, b, Text);
      NoKeyAppend(a + b, au, Text);
      assert f == a + b + au;
    }
  }

  /** In a filter made of clauses of ranks 0 to 3, an entry's rank says
      which clause it came from. */
  lemma EntryClause(s: Filter, a: Filter, b: Filter, au: Filter, e: BsonElem)
    requires ClauseOfRank(s, 0) && ClauseOfRank(a, 1) && ClauseOfRank(b, 2) && ClauseOfRank(au, 3)
    requires e in s + a + b + au
    ensures Rank(e) == 1 ==> e in a
    ensures Rank(e) == 2 ==> e in b
  {
    assert e in s || e in a || e in b || e in au;
  }

  /** The entries of a year bound's operator are exactly its clause's. */
  lemma YearClauseEntries(search: string, publishedAfter: string, publishedBefore: string,
                          authors: string, op: Key, e: BsonElem)
    requires op == Gte || op == Lte
    ensures var f := FilterOf(search, publishedAfter, publishedBefore, authors);
      e in f && Operator(e) == op <==>
        e in YearClause(if op == Gte then publishedAfter else publishedBefore, op)
  {
    var s, a, b, au := SearchClause(search), YearClause(publishedAfter, Gte),
      YearClause(publishedBefore, Lte), AuthorsClause(authors);
    ClauseRanks(search, publishedAfter, publishedBefore, authors);
    var f := FilterOf(search, publishedAfter, publishedBefore, authors);
    assert f == s + a + b + au;
    if e in f && Operator(e) == op {
      EntryClause(s, a, b, au, e);
    }
  }

  /** A year bound adds exactly the entry for the integer it parses to, and
      adds nothing when it does not parse (no error either). `op` is Gte for
      published-after and Lte for published-before. */
  lemma YearEntries(search: string, publishedAfter: string, publishedBefore: string,
                    authors: string, op: Key, year: int)
    requires op == Gte || op == Lte
    ensures var f := FilterOf(search, publishedAfter, publishedBefore, authors);
      var bound := Atoi(if op == Gte then publishedAfter else publishedBefore);
      && (YearEntry(op, year) in f <==> bound == Some(year))
      && ((exists i :: 0 <= i < |f| && Operator(f[i]) == op) <==> bound.Some?)
  {
    var f := FilterOf(search, publishedAfter, publishedBefore, authors);
    var raw := if op == Gte then publishedAfter else publishedBefore;
    var bound := Atoi(raw);
    var c := YearClause(raw, op);
    assert c == if bound.Some? then [YearEntry(op, bound.value)] else [];
    YearClauseEntries(search, publishedAfter, publishedBefore, authors, op, YearEntry(op, year));
    forall i | 0 <= i < |f| && Operator(f[i]) == op
      ensures bound.Some?
    {
      YearClauseEntries(search, publishedAfter, publishedBefore, authors, op, f[i]);
    }
    if bound.Some? {
      var e := YearEntry(op, bound.value);
      YearClauseEntries(search, publishedAfter, publishedBefore, authors, op, e);
      var i :| 0 <= i < |f| && f[i] == e;
      assert Operator(f[i]) == op;
    }
  }

  /** A year bound that does not parse has the same effect as an absent
      one, which reads as "". */
  lemma UnparsableYearIgnored(search: string, publishedAfter: string, publishedBefore: string,
                              authors: string)
    ensures Atoi(publishedAfter).None? ==>
      FilterOf(search, publishedAfter, publishedBefore, authors)
      == FilterOf(search, "", publishedBefore, authors)
    ensures Atoi(publishedBefore).None? ==>
      FilterOf(search, publishedAfter, publishedBefore, authors)
      == FilterOf(search, publishedAfter, "", authors)
  {
  }

  /** An "$in" entry is present exactly when `authors` is non-empty; it is the
      last entry, and its list is the comma-split of the raw value: one more
      piece than there are commas, empty pieces kept, joining back to the raw value. */
  lemma AuthorsEntries(search: string, publishedAfter: string, publishedBefore: string,
                       authors: string)
    ensures var f := FilterOf(search, publishedAfter, publishedBefore, authors);
      && ((exists i :: 0 <= i < |f| && f[i].key == Authors) <==> authors != "")
      && (authors != "" ==>
            var list := Split(authors, ',');
            && f[|f| - 1] == AuthorsEntry(list)
            && Join(list, ",") == authors
            && |list| == Count(authors, ',') + 1)
  {
    var f := FilterOf(search, publishedAfter, publishedBefore, authors);
    var s, a, b, au := SearchClause(search), YearClause(publishedAfter, Gte),
      YearClause(publishedBefore, Lte), AuthorsClause(authors);
    assert f == s + a + b + au;
    if authors != "" {
      JoinSplit(authors, ',');
      SplitCount(authors, ',');
      assert f[|f| - 1] == AuthorsEntry(Split(authors, ','));
    } else {
      assert au == [];
      assert NoKey(s, Authors) && NoKey(a, Authors) && NoKey(b, Authors);
      NoKeyAppend(s, a, Authors);
      NoKeyAppend(s + a, b, Authors);
      assert f == s + a + b;
    }
  }

  /** A query with none of the four filter parameters matches every book. */
  lemma NoParametersNoFilter(params: Values)
    requires forall k :: k in params ==> k != "search" && k != "published-after"
                                          && k != "published-before" && k != "authors"
    ensures FilterFor(params) == []
  {
    AtoiRejectsNoDigits("");
  }

  // ---------------------------------------------------------------------
  // getBooksHandler (main.go:99-189)
  // ---------------------------------------------------------------------

  /** The key the detail lookup uses: the parsed hex id, or the nil ObjectID
      that primitive.ObjectIDFromHex returns on failure. */
  datatype ObjectKey = HexId(hex: string) | NilObjectId

  /** The database calls a handler makes. */
  datatype Query =
    | FindBooks(filter: Filter, skip: int, limit: int)
    | FindBookById(key: ObjectKey)

  /** What collection.Find and reading its cursor produce: the query fails,
      a document on the cursor fails to decode, or all books are read. */
  datatype FindResult = FindFailed(reason: string) | DecodeFailed(reason: string) | Found(books: seq<Book>)

  /** What collection.FindOne(...).Decode produces. */
  datatype LookupResult = BookFound(book: Book) | NoDocuments | LookupFailed

  /** A handler run: the query it issued, if any, and its writes in order. */
  datatype Exchange = Exchange(query: Option<Query>, writes: seq<Write>)

  /** The rows of an envelope; a null `data` has none. */
  function Rows(data: Option<seq<Book>>): seq<Book>
  {
    data.GetOr([])
  }

  /** The listing envelope for the books found. */
  function PageOf(books: seq<Book>, offset: int, limit: int): (p: Page)
    ensures Rows(p.data) == books && p.totalCount == |Rows(p.data)|
    ensures p.data.None? <==> books == []
    ensures p.offset == offset && p.limit == limit
  {
    Page(if books == [] then None else Some(books), offset, limit, |books|)
  }

  /** The query a valid listing request issues. */
  function ListingQuery(params: Values): (q: Query)
    requires ValidationError(params).None?
    ensures q.FindBooks? && q.filter == FilterFor(params)
    ensures Atoi(Get(params, "offset")) == Some(q.skip) && q.skip >= 0
    ensures Atoi(Get(params, "limit")) == Some(q.limit) && 1 <= q.limit <= MaxLimit
  {
    FindBooks(FilterFor(params), Atoi(Get(params, "offset")).value, Atoi(Get(params, "limit")).value)
  }

  /** getBooksHandler: validate, build the filter, query, answer. */
  method GetBooksHandler(params: Values, find: Query -> FindResult) returns (ex: Exchange)
    ensures ex.query.None? <==> ValidationError(params).Some?
    ensures ValidationError(params).Some? ==>
      ex.writes == [HttpError(StatusBadRequest, "Validation failed: " + ValidationError(params).value)]
    ensures ValidationError(params).None? ==>
      && ex.query == Some(ListingQuery(params))
      && ex.writes == match find(ListingQuery(params))
         case FindFailed(reason) =>
           [HttpError(StatusInternalServerError, "Error fetching books: " + reason)]
         case DecodeFailed(reason) =>
           [HttpError(StatusInternalServerError, "Error decoding book: " + reason)]
         case Found(books) =>
           [PageWrite(PageOf(books, ListingQuery(params).skip, ListingQuery(params).limit))]
    ensures |ex.writes| == 1
    ensures StatusOf(ex.writes) == StatusBadRequest <==> ValidationError(params).Some?
  {
    var err := ValidateRequest(params);
    if err.Some? {
      ex := Exchange(None, [HttpError(StatusBadRequest, "Validation failed: " + err.value)]);
      return;
    }
    var offset := Atoi(Get(params, "offset")).value;
    var limit := Atoi(Get(params, "limit")).value;
    var filter := BuildFilter(params);
    var q := FindBooks(filter, offset, limit);
    var result := find(q);
    match result
    case FindFailed(reason) =>
      ex := Exchange(Some(q), [HttpError(StatusInternalServerError, "Error fetching books: " + reason)]);
    case DecodeFailed(reason) =>
      ex := Exchange(Some(q), [HttpError(StatusInternalServerError, "Error decoding book: " + reason)]);
    case Found(books) =>
      ex := Exchange(Some(q), [PageWrite(PageOf(books, offset, limit))]);
  }

  // ---------------------------------------------------------------------
  // getBookByIdHandler (main.go:191-232)
  // ---------------------------------------------------------------------

  const BooksPathPrefix := "/api/books/"
  const IdRequiredMessage := "Book ID is required"
  const InvalidIdMessage := "Invalid Book ID format"
  const NotFoundMessage := "Book not found"
  const InternalErrorMessage := "Internal server error"

  /** The book id: the request path without its "/api/books/" prefix. */
  function BookIdOf(path: string): string
  {
    TrimPrefix(path, BooksPathPrefix)
  }

  /** The reply to a lookup's outcome. */
  function LookupReply(r: LookupResult): (writes: seq<Write>)
    ensures |writes| == 1
    ensures writes[0].BookWrite? <==> r.BookFound?
    ensures r.BookFound? ==> writes[0].book == r.book
    ensures r.NoDocuments? ==> writes == [HttpError(StatusNotFound, NotFoundMessage)]
    ensures r.LookupFailed? ==> writes == [HttpError(StatusInternalServerError, InternalErrorMessage)]
    ensures StatusOf(writes) == match r
      case BookFound(_) => StatusOK
      case NoDocuments => StatusNotFound
      case LookupFailed => StatusInternalServerError
  {
    match r
    case BookFound(book) => [BookWrite(book)]
    case NoDocuments => [HttpError(StatusNotFound, NotFoundMessage)]
    case LookupFailed => [HttpError(StatusInternalServerError, InternalErrorMessage)]
  }

  /** getBookByIdHandler as written: after answering 400 for a malformed id
      it does not return, and looks up the nil ObjectID. `isObjectIdHex` stands
      for primitive.ObjectIDFromHex succeeding. */
  function GetBookByIdAsWritten(path: string, isObjectIdHex: string -> bool,
                                findOne: ObjectKey -> LookupResult): (ex: Exchange)
    ensures var id := BookIdOf(path);
      && (ex.query.None? <==> id == "")
      && (ex.query.None? ==> |ex.writes| == 1)
      && (ex.query.Some? ==>
            && ex.query.value.FindBookById?
            && ex.query.value.key == (if isObjectIdHex(id) then HexId(id) else NilObjectId)
            && |ex.writes| > 0
            && ex.writes[|ex.writes| - 1..] == LookupReply(findOne(ex.query.value.key)))
      && (id == "" || !isObjectIdHex(id) ==> StatusOf(ex.writes) == StatusBadRequest)
  {
    var id := BookIdOf(path);
    if id == "" then Exchange(None, [HttpError(StatusBadRequest, IdRequiredMessage)])
    else
      var key := if isObjectIdHex(id) then HexId(id) else NilObjectId;
      var formatWrites := if isObjectIdHex(id) then [] else [HttpError(StatusBadRequest, InvalidIdMessage)];
      Exchange(Some(FindBookById(key)), formatWrites + LookupReply(findOne(key)))
  }

  /** getBookByIdHandler with the return after the format error. */
  function GetBookById(path: string, isObjectIdHex: string -> bool,
                       findOne: ObjectKey -> LookupResult): (ex: Exchange)
    ensures var id := BookIdOf(path);
      && (ex.query.Some? <==> id != "" && isObjectIdHex(id))
      && (ex.query.Some? ==>
            ex.query == Some(FindBookById(HexId(id))) && ex.writes == LookupReply(findOne(HexId(id))))
      && |ex.writes| == 1
      && (ex.query.None? ==> StatusOf(ex.writes) == StatusBadRequest)
      && (id == "" ==> ex.writes == [HttpError(StatusBadRequest, IdRequiredMessage)])
      && (id != "" && !isObjectIdHex(id) ==> ex.writes == [HttpError(StatusBadRequest, InvalidIdMessage)])
  {
    var id := BookIdOf(path);
    if id == "" then Exchange(None, [HttpError(StatusBadRequest, IdRequiredMessage)])
    else if !isObjectIdHex(id) then Exchange(None, [HttpError(StatusBadRequest, InvalidIdMessage)])
    else Exchange(Some(FindBookById(HexId(id))), LookupReply(findOne(HexId(id))))
  }

  /** The id is what follows "/api/books/"; it is empty exactly for the bare
      prefix and for the empty path. */
  lemma BookIdOfPath(path: string, id: string)
    ensures BookIdOf(BooksPathPrefix + id) == id
    ensures BookIdOf(path) == "" <==> path == "" || path == BooksPathPrefix
  {
    assert (BooksPathPrefix + id)[..|BooksPathPrefix|] == BooksPathPrefix;
    if BookIdOf(path) == "" && path != "" {
      assert BooksPathPrefix <= path;
      assert path == BooksPathPrefix + "";
    }
  }

  /** An empty id is answered 400 "Book ID is required" and nothing is looked
      up, in both versions. */
  lemma EmptyIdRejected(path: string, isObjectIdHex: string -> bool,
                        findOne: ObjectKey -> LookupResult)
    requires BookIdOf(path) == ""
    ensures GetBookByIdAsWritten(path, isObjectIdHex, findOne)
         == GetBookById(path, isObjectIdHex, findOne)
         == Exchange(None, [HttpError(StatusBadRequest, IdRequiredMessage)])
  {
  }

  /** As written, a malformed id is answered 400 and then looked up anyway
      under the nil ObjectID, whose reply is appended to the same response:
      the status stays 400 whatever the lookup finds. */
  lemma AsWrittenLooksUpMalformedId(path: string, isObjectIdHex: string -> bool,
                                     findOne: ObjectKey -> LookupResult)
    requires BookIdOf(path) != "" && !isObjectIdHex(BookIdOf(path))
    ensures var ex := GetBookByIdAsWritten(path, isObjectIdHex, findOne);
      && ex.query == Some(FindBookById(NilObjectId))
      && ex.writes == [HttpError(StatusBadRequest, InvalidIdMessage)] + LookupReply(findOne(NilObjectId))
      && StatusOf(ex.writes) == StatusBadRequest
  {
  }

  /** The status of the corrected handler: 400 for a missing or malformed id,
      otherwise 200, 404 or 500 according to the lookup. */
  lemma GetBookByIdStatus(path: string, isObjectIdHex: string -> bool,
                          findOne: ObjectKey -> LookupResult)
    ensures var id := BookIdOf(path);
      StatusOf(GetBookById(path, isObjectIdHex, findOne).writes) ==
        if id == "" || !isObjectIdHex(id) then StatusBadRequest
        else match findOne(HexId(id))
          case BookFound(_) => StatusOK
          case NoDocuments => StatusNotFound
          case LookupFailed => StatusInternalServerError
  {
  }

  /** The two versions differ only on malformed ids. */
  lemma AsWrittenAgreesOnOtherIds(path: string, isObjectIdHex: string -> bool,
                                  findOne: ObjectKey -> LookupResult)
    requires BookIdOf(path) == "" || isObjectIdHex(BookIdOf(path))
    ensures GetBookByIdAsWritten(path, isObjectIdHex, findOne) == GetBookById(path, isObjectIdHex, findOne)
  {
  }
}
