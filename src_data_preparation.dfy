/** `prepared_data(n)` of src/data_preparation.py: the same pipeline, plus two random feature
    matrices of width `n`. The random values are not modelled, only the shapes drawn and the
    error that numpy raises for a negative width. */
module SrcDataPreparation {
  import opened Wrappers
  import opened Seqs
  import opened Ratings
  import opened Frames
  import opened Columns
  import opened Pipeline

  /** The KeyError of the column drop, or numpy's ValueError for a negative dimension. */
  datatype Error = DropFailed(cause: DropError) | NegativeDimension(n: int)

  /** A `np.random.randn(rows, cols)` matrix, of which only the shape is modelled. */
  datatype Features = Features(rows: nat, cols: nat)

  /** The returned tuple `(prep_books, ratings, users, Y, R, user_features, book_features)`. */
  datatype Prepared<U> = Prepared(books: seq<string>, ratings: seq<Event>, users: U,
                                  y: Frame<real>, r: Frame<int>,
                                  userFeatures: Features, bookFeatures: Features)

  /** `np.random.randn(rows, n)`: fails for a negative `n`. */
  function RandomFeatures(rows: nat, n: int): (res: Result<Features, Error>)
    ensures res.Failure? <==> n < 0
    ensures res.Failure? ==> res.error == NegativeDimension(n)
    ensures res.Success? ==> res.value.rows == rows && res.value.cols == n
  {
    if n < 0 then Failure(NegativeDimension(n)) else Success(Features(rows, n))
  }

  /** The drop is checked first, then the feature width; on success the books columns lose the four
      dropped columns, ratings and users are returned as given, Y and R are the pipeline's, and the
      book features have one row per row of Y, the user features one row per column of Y, both of
      width `n`. */
  function PreparedData<U>(books: seq<string>, ratings: seq<Event>, users: U, n: int): (res: Result<Prepared<U>, Error>)
    ensures res.Failure? && res.error.DropFailed? <==> exists l :: l in BookColumnsDropped && l !in books
    ensures res.Failure? && res.error.NegativeDimension? <==>
      (forall l :: l in BookColumnsDropped ==> l in books) && n < 0
    ensures res.Success? ==> IsSubsequence(res.value.books, books)
    ensures res.Success? ==> forall c :: c in res.value.books <==> c in books && c !in BookColumnsDropped
    ensures res.Success? ==> forall c ::
      multiset(res.value.books)[c] == (if c in BookColumnsDropped then 0 else multiset(books)[c])
    ensures res.Success? ==> res.value.ratings == ratings && res.value.users == users
    ensures res.Success? ==> (res.value.y, res.value.r) == Interactions(ratings)
    ensures res.Success? ==> res.value.bookFeatures == Features(|res.value.y.rows|, n)
    ensures res.Success? ==> res.value.userFeatures == Features(|res.value.y.cols|, n)
  {
    match DropColumns(books, BookColumnsDropped)
    case Failure(err) => Failure(DropFailed(err))
    case Success(prepBooks) =>
      var (y, r) := Interactions(ratings);
      match RandomFeatures(|y.rows|, n)
      case Failure(err) => Failure(err)
      case Success(bookFeatures) =>
        var userFeatures := Features(|y.cols|, n);
        Success(Prepared(prepBooks, ratings, users, y, r, userFeatures, bookFeatures))
  }

  /** With the four columns present and `n` not negative the call succeeds, every row of Y is an ISBN with at least 20 events and every column a user with
      at least 100; each Y cell is the mean of that pair's ratings or missing when the pair was not
      kept; R has Y's shape and is 1 exactly where Y is present. */
  lemma PreparedMatrices<U>(books: seq<string>, ratings: seq<Event>, users: U, n: int, i: string, j: int)
    requires forall l :: l in BookColumnsDropped ==> l in books
    requires n >= 0
    ensures PreparedData(books, ratings, users, n).Success?
    ensures var p := PreparedData(books, ratings, users, n).value;
      && (i in p.y.rows ==> |Matching(ratings, IsbnOf, i)| >= MinBookRatings)
      && (j in p.y.cols ==> |Matching(ratings, UserOf, j)| >= MinUserRatings)
      && p.y.At(i, j) == (if j in ActiveUsers(ratings) && i in ActiveBooks(ratings) && Matching(ratings, PairOf, (i, j)) != []
                          then Some(MeanRating(Matching(ratings, PairOf, (i, j)))) else None)
      && p.r.Shape() == p.y.Shape()
      && (i in p.y.rows && j in p.y.cols ==> (p.r.At(i, j) == Some(1) <==> p.y.At(i, j).Some?))
      && (i in p.y.rows && j in p.y.cols ==> (p.r.At(i, j) == Some(0) <==> p.y.At(i, j) == None))
  {
    InteractionKeys(ratings);
    InteractionCell(ratings, i, j);
  }
}
