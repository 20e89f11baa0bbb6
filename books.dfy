/**
 * The book review catalogue: the `books` and `reviews` lists, new ids as the
 * largest id plus one, adding a book, adding a review only for an existing
 * book, and the three queries (by release year, by AI metric below a
 * threshold, and books with their review counts).
 */
module Books {
  import opened Wrappers
  import opened Text

  /** A field of a book or review as read from the JSON file: missing, null, a string or an integer. */
  datatype Field = Absent | Null | Str(s: string) | Int(i: int)

  datatype Publisher = Publisher(name: string, location: string)

  datatype Book = Book(
    bookId: Field, title: string, aiMetric: Field, releaseYear: Field, author: string,
    genres: seq<string>, publisher: Publisher, pages: int, sales: seq<int>)

  datatype Review = Review(reviewId: Field, author: string, date: string, text: string, bookId: Field)

  /** Why an operation stops: a menu message, or the exception the source raises. */
  datatype BookError =
    | NoBooks       // "No books ..." message
    | UnknownBook   // "Invalid book ID."
    | BadYear       // "Invalid year."
    | BadNumber     // "Invalid number." on a threshold, or ValueError on pages or sales
    | MissingKey    // KeyError: an entry has no id
    | NotANumber    // ValueError or TypeError: an id is not an integer

  // ---------------------------------------------------------------- reading fields

  /** `str(v).strip()` of a field, with `""` for a missing one (`get(key, "")`). */
  function FieldText(f: Field): string {
    match f
    case Absent => ""
    case Null => "None"
    case Str(s) => Strip(s)
    case Int(i) => IntToString(i)
  }

  /** `int(v)` of an id field: KeyError when missing, TypeError on null, ValueError on a non-numeral. */
  function IdValue(f: Field): (r: Result<int, BookError>)
    ensures f.Int? ==> r == Ok(f.i)
    ensures f.Str? ==> (r.Ok? <==> ParseInt(f.s).Some?)
  {
    match f
    case Absent => Err(MissingKey)
    case Null => Err(NotANumber)
    case Int(i) => Ok(i)
    case Str(s) => if ParseInt(s).Some? then Ok(ParseInt(s).value) else Err(NotANumber)
  }

  /** `to_int(aiMetric)`: the metric as an integer, 101 when it is missing or malformed. */
  function Metric(f: Field): (m: int)
    ensures f.Int? ==> m == f.i
    ensures f.Absent? || f.Null? ==> m == 101
    ensures f.Str? && ParseInt(f.s).None? ==> m == 101
    ensures f.Str? && ParseInt(f.s).Some? ==> m == ParseInt(f.s).value
  {
    match f
    case Int(i) => i
    case Str(s) => if ParseInt(s).Some? then ParseInt(s).value else 101
    case _ => 101
  }

  // ---------------------------------------------------------------- new ids

  /** `max(int(id) for id in ids)`, raising at the first id that is not an integer. */
  function MaxId(ids: seq<Field>): (r: Result<int, BookError>)
    requires ids != []
    ensures r.Ok? <==> forall k | 0 <= k < |ids| :: IdValue(ids[k]).Ok?
    ensures r.Ok? ==> forall k | 0 <= k < |ids| :: IdValue(ids[k]).value <= r.value
    ensures r.Ok? ==> exists k | 0 <= k < |ids| :: IdValue(ids[k]).value == r.value
  {
    var first := IdValue(ids[0]);
    if first.Err? then Err(first.error)
    else if |ids| == 1 then first
    else
      var rest := MaxId(ids[1..]);
      assert forall k | 1 <= k < |ids| :: ids[k] == ids[1..][k - 1];
      if rest.Err? then rest
      else if rest.value < first.value then first else rest
  }

  /** The id for a new entry: one more than the largest id, or "1" for the first entry. */
  function NextId(ids: seq<Field>): (r: Result<string, BookError>)
    ensures ids == [] ==> r == Ok("1")
    ensures r.Err? <==> exists k | 0 <= k < |ids| :: IdValue(ids[k]).Err?
  {
    if ids == [] then Ok("1")
    else
      match MaxId(ids)
      case Err(e) => Err(e)
      case Ok(m) => Ok(IntToString(m + 1))
  }

  /** A new id reads back as an integer greater than every existing id. */
  lemma NextIdIsFresh(ids: seq<Field>)
    requires NextId(ids).Ok?
    ensures ParseInt(NextId(ids).value).Some?
    ensures forall k | 0 <= k < |ids| :: IdValue(ids[k]).Ok? && IdValue(ids[k]).value < ParseInt(NextId(ids).value).value
  {
    if ids == [] {
      assert ParseInt("1") == Some(1) by {
        ParseIntRoundTrip(1);
        assert IntToString(1) == "1";
      }
    } else {
      ParseIntRoundTrip(MaxId(ids).value + 1);
    }
  }

  function BookIds(books: seq<Book>): (r: seq<Field>)
    ensures |r| == |books| && forall k | 0 <= k < |books| :: r[k] == books[k].bookId
  {
    seq(|books|, k requires 0 <= k < |books| => books[k].bookId)
  }

  function ReviewIds(reviews: seq<Review>): (r: seq<Field>)
    ensures |r| == |reviews| && forall k | 0 <= k < |reviews| :: r[k] == reviews[k].reviewId
  {
    seq(|reviews|, k requires 0 <= k < |reviews| => reviews[k].reviewId)
  }

  // ---------------------------------------------------------------- adding entries

  /** `[int(part.strip()) for part in text.split(',')]`, raising at the first part that is not an integer. */
  function ParseInts(parts: seq<string>): (r: Result<seq<int>, BookError>)
    ensures r.Ok? <==> forall k | 0 <= k < |parts| :: ParseInt(parts[k]).Some?
    ensures r.Ok? ==> |r.value| == |parts| && forall k | 0 <= k < |parts| :: r.value[k] == ParseInt(parts[k]).value
  {
    if parts == [] then Ok([])
    else
      var rest := ParseInts(parts[1..]);
      assert forall k | 1 <= k < |parts| :: parts[k] == parts[1..][k - 1];
      if ParseInt(parts[0]).None? then Err(BadNumber)
      else if rest.Err? then rest
      else Ok([ParseInt(parts[0]).value] + rest.value)
  }

  /** `[genre.strip() for genre in text.split(',')]` */
  function Genres(text: string): (r: seq<string>)
    ensures |r| == |Split(text, ',')| >= 1
    ensures forall k | 0 <= k < |r| :: r[k] == Strip(Split(text, ',')[k]) && Trimmed(r[k])
  {
    var parts := Split(text, ',');
    seq(|parts|, k requires 0 <= k < |parts| => Strip(parts[k]))
  }

  /** Reading the entered book id back: `any(book['bookId'] == id for book in books)`, which raises KeyError at a book without an id before the first match. */
  function HasBook(books: seq<Book>, id: string): (r: Result<bool, BookError>)
    ensures r == Ok(true) ==> exists k | 0 <= k < |books| :: books[k].bookId == Str(id)
    ensures r == Ok(false) <==> forall k | 0 <= k < |books| :: !books[k].bookId.Absent? && books[k].bookId != Str(id)
  {
    if books == [] then Ok(false)
    else if books[0].bookId.Absent? then Err(MissingKey)
    else if books[0].bookId == Str(id) then Ok(true)
    else
      assert forall k | 1 <= k < |books| :: books[k] == books[1..][k - 1];
      HasBook(books[1..], id)
  }

  /** Every book has a `bookId` key. */
  predicate AllHaveIds(books: seq<Book>) {
    forall k | 0 <= k < |books| :: !books[k].bookId.Absent?
  }

  /** When every book has an id the search cannot fail, and it succeeds exactly when some book carries the entered id. */
  lemma {:induction false} HasBookTotal(books: seq<Book>, id: string)
    requires AllHaveIds(books)
    ensures HasBook(books, id).Ok?
    ensures HasBook(books, id).value <==> exists k | 0 <= k < |books| :: books[k].bookId == Str(id)
  {
    if books != [] && books[0].bookId != Str(id) {
      assert forall k | 1 <= k < |books| :: books[k] == books[1..][k - 1];
      HasBookTotal(books[1..], id);
      if exists k | 0 <= k < |books| :: books[k].bookId == Str(id) {
        var k :| 0 <= k < |books| && books[k].bookId == Str(id);
        assert books[1..][k - 1].bookId == Str(id);
      }
    }
  }

  /** The `books` and `reviews` lists of the program. */
  class Catalogue {
    var books: seq<Book>
    var reviews: seq<Review>

    /** The lists `load_data` read, or two empty lists when the file was missing or unreadable. */
    constructor (books: seq<Book>, reviews: seq<Review>)
      ensures this.books == books && this.reviews == reviews
    {
      this.books := books;
      this.reviews := reviews;
    }

    /**
     * `add_book`: the new book gets the next id and the entered fields, genres split at
     * commas and stripped; pages and sales must be integers. Exactly one book is appended.
     */
    method AddBook(title: string, aiMetric: string, releaseYear: string, author: string, genresText: string,
                   publisherName: string, publisherLocation: string, pagesText: string, salesText: string)
      returns (r: Outcome<BookError>)
      modifies this
      ensures reviews == old(reviews)
      ensures r.Pass? <==> (NextId(BookIds(old(books))).Ok? && ParseInt(pagesText).Some? &&
                            ParseInts(Split(salesText, ',')).Ok?)
      ensures r.Fail? ==> books == old(books)
      ensures r.Pass? ==> books == old(books) + [Book(
        Str(NextId(BookIds(old(books))).value), title, Str(aiMetric), Str(releaseYear), author,
        Genres(genresText), Publisher(publisherName, publisherLocation),
        ParseInt(pagesText).value, ParseInts(Split(salesText, ',')).value)]
    {
      var id := NextId(BookIds(books));
      if id.Err? {
        return Fail(id.error);
      }
      var pages := ParseInt(pagesText);
      if pages.None? {
        return Fail(BadNumber);
      }
      var sales := ParseInts(Split(salesText, ','));
      if sales.Err? {
        return Fail(sales.error);
      }
      var book := Book(Str(id.value), title, Str(aiMetric), Str(releaseYear), author,
        Genres(genresText), Publisher(publisherName, publisherLocation), pages.value, sales.value);
      books := books + [book];
      return Pass;
    }

    /**
     * `add_review`: nothing is added without books or when the entered id names no
     * book; otherwise one review with the next review id and today's date is appended.
     */
    method AddReview(bookId: string, author: string, text: string, today: string) returns (r: Outcome<BookError>)
      modifies this
      ensures books == old(books)
      ensures old(books) == [] ==> r == Fail(NoBooks)
      ensures old(books) != [] && !AllHaveIds(old(books)) ==> r == Fail(MissingKey)
      ensures HasBook(old(books), bookId) == Ok(false) ==> r.Fail?
      ensures r.Pass? <==> (AllHaveIds(old(books)) && HasBook(old(books), bookId) == Ok(true) &&
                            NextId(ReviewIds(old(reviews))).Ok?)
      ensures r.Fail? ==> reviews == old(reviews)
      ensures r.Pass? ==> reviews == old(reviews) + [
        Review(Str(NextId(ReviewIds(old(reviews))).value), author, today, text, Str(bookId))]
    {
      if books == [] {
        return Fail(NoBooks);
      }
      // the listing of the available books reads every book's id
      if !AllHaveIds(books) {
        return Fail(MissingKey);
      }
      var found := HasBook(books, bookId);
      HasBookTotal(books, bookId);
      if !found.value {
        return Fail(UnknownBook);
      }
      var id := NextId(ReviewIds(reviews));
      if id.Err? {
        return Fail(id.error);
      }
      reviews := reviews + [Review(Str(id.value), author, today, text, Str(bookId))];
      return Pass;
    }
  }

  // ---------------------------------------------------------------- queries

  /**
   * `books_by_year`: the entered year is stripped and must be a numeral; the matches
   * are the books whose release year reads the same, in list order.
   */
  function BooksByYear(books: seq<Book>, input: string): (r: Result<seq<Book>, BookError>)
    ensures books == [] ==> r == Err(NoBooks)
    ensures books != [] ==> (r == Err(BadYear) <==> !IsDecimal(Strip(input)))
    ensures r.Ok? ==> forall b :: b in r.value <==> b in books && FieldText(b.releaseYear) == Strip(input)
  {
    var year := Strip(input);
    if books == [] then Err(NoBooks)
    else if !IsDecimal(year) then Err(BadYear)
    else
      var matches := Select(books, (b: Book) => FieldText(b.releaseYear) == year);
      SelectMembers(books, (b: Book) => FieldText(b.releaseYear) == year);
      Ok(matches)
  }

  /**
   * `books_by_ai_metric`: the threshold must be an integer; the matches are the books
   * whose metric (101 when missing or malformed) is below it, in list order.
   */
  function BooksByAiMetric(books: seq<Book>, input: string): (r: Result<seq<Book>, BookError>)
    ensures books == [] ==> r == Err(NoBooks)
    ensures books != [] ==> (r == Err(BadNumber) <==> ParseInt(input).None?)
    ensures r.Ok? ==> forall b :: b in r.value <==> b in books && Metric(b.aiMetric) < ParseInt(input).value
  {
    if books == [] then Err(NoBooks)
    else if ParseInt(input).None? then Err(BadNumber)
    else
      var threshold := ParseInt(input).value;
      SelectMembers(books, (b: Book) => Metric(b.aiMetric) < threshold);
      Ok(Select(books, (b: Book) => Metric(b.aiMetric) < threshold))
  }

  /** A book whose metric is missing or malformed is only listed for thresholds above 101. */
  lemma MalformedMetricExcluded(books: seq<Book>, input: string, b: Book)
    requires BooksByAiMetric(books, input).Ok? && b in BooksByAiMetric(books, input).value
    requires b.aiMetric.Absent? || b.aiMetric.Null? || (b.aiMetric.Str? && ParseInt(b.aiMetric.s).None?)
    ensures ParseInt(input).value > 101
  {
  }

  /** Both filters keep the order of the list: filtering a concatenation filters each part. */
  lemma QueriesKeepOrder(a: seq<Book>, b: seq<Book>, year: string, threshold: int)
    ensures Select(a + b, (x: Book) => FieldText(x.releaseYear) == year) ==
      Select(a, (x: Book) => FieldText(x.releaseYear) == year) + Select(b, (x: Book) => FieldText(x.releaseYear) == year)
    ensures Select(a + b, (x: Book) => Metric(x.aiMetric) < threshold) ==
      Select(a, (x: Book) => Metric(x.aiMetric) < threshold) + Select(b, (x: Book) => Metric(x.aiMetric) < threshold)
  {
    SelectConcat(a, b, (x: Book) => FieldText(x.releaseYear) == year);
    SelectConcat(a, b, (x: Book) => Metric(x.aiMetric) < threshold);
  }

  /** The number of reviews whose stripped book id is `id`; an empty id counts no reviews. */
  function ReviewsOf(reviews: seq<Review>, id: string): nat {
    if id == "" then 0 else CountIf(reviews, (r: Review) => FieldText(r.bookId) == id)
  }

  /** The books with a positive count, in list order, each paired with its count. */
  function Tally(books: seq<Book>, count: string -> nat): seq<(Book, nat)> {
    if books == [] then []
    else
      var b := books[|books| - 1];
      var c := count(FieldText(b.bookId));
      Tally(books[..|books| - 1], count) + (if c > 0 then [(b, c)] else [])
  }

  /** A book is listed with count `c` exactly when it is in the list and has `c > 0` reviews. */
  lemma {:induction false} TallyMembers(books: seq<Book>, reviews: seq<Review>)
    ensures forall b, c :: (b, c) in Tally(books, id => ReviewsOf(reviews, id)) <==>
      b in books && c == ReviewsOf(reviews, FieldText(b.bookId)) && c > 0
  {
    if books != [] {
      TallyMembers(books[..|books| - 1], reviews);
      assert books == books[..|books| - 1] + [books[|books| - 1]];
    }
  }

  lemma {:induction false} TallySame(books: seq<Book>, f: string -> nat, g: string -> nat)
    requires forall id :: f(id) == g(id)
    ensures Tally(books, f) == Tally(books, g)
  {
    if books != [] {
      TallySame(books[..|books| - 1], f, g);
    }
  }

  /** `counts.get(id, 0)` */
  function Get(counts: map<string, nat>, id: string): nat {
    if id in counts then counts[id] else 0
  }

  /** The counting loop of `books_with_reviews`: one entry per non-empty stripped book id, holding its number of reviews. */
  method CountReviews(reviews: seq<Review>) returns (counts: map<string, nat>)
    ensures forall id :: id in counts <==> id != "" && ReviewsOf(reviews, id) > 0
    ensures forall id :: Get(counts, id) == ReviewsOf(reviews, id)
  {
    counts := map[];
    var k := 0;
    while k < |reviews|
      invariant 0 <= k <= |reviews|
      invariant forall id :: id in counts <==> id != "" && ReviewsOf(reviews[..k], id) > 0
      invariant forall id :: Get(counts, id) == ReviewsOf(reviews[..k], id)
    {
      var bid := FieldText(reviews[k].bookId);
      TakeSnoc(reviews, k);
      assert reviews[..k + 1][..k] == reviews[..k];
      if bid != "" {
        counts := counts[bid := Get(counts, bid) + 1];
      }
      k := k + 1;
    }
    assert reviews[..|reviews|] == reviews;
  }

  /** `books_with_reviews`: the books with at least one review, in list order, with their review counts. */
  method BooksWithReviews(books: seq<Book>, reviews: seq<Review>) returns (r: Result<seq<(Book, nat)>, BookError>)
    ensures books == [] ==> r == Err(NoBooks)
    ensures books != [] ==> r == Ok(Tally(books, id => ReviewsOf(reviews, id)))
  {
    if books == [] {
      return Err(NoBooks);
    }
    var counts := CountReviews(reviews);
    TallySame(books, id => Get(counts, id), id => ReviewsOf(reviews, id));
    return Ok(Tally(books, id => Get(counts, id)));
  }
}
