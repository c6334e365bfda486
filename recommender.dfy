/** The item-item recommendation engine: it numbers users and books densely, builds the summed
    user x book rating matrix, installs a book x book score matrix, and answers top-N queries. */
module Recommender {
  import opened Wrappers
  import opened Ids
  import opened Interaction
  import opened Ranking

  /** The number of recommendations returned when the caller does not say. */
  const DefaultTopN: int := 5

  /** A user identifier (`User-ID`, an integer column of the ratings file). */
  type UserId = int

  /** A book identifier: its ISBN. */
  type BookId = string

  /** One row of the cleaned ratings table: who rated which book, and how highly. */
  datatype Row = Row(user: UserId, book: BookId, rating: real)

  /** Why training fails: the similarity computation needs at least one book (and one user). */
  datatype TrainError = EmptyInput

  /** The `user_id` column. */
  function UserIds(df: seq<Row>): seq<UserId>
  {
    seq(|df|, k requires 0 <= k < |df| => df[k].user)
  }

  /** The `book_id` column. */
  function BookIds(df: seq<Row>): seq<BookId>
  {
    seq(|df|, k requires 0 <= k < |df| => df[k].book)
  }

  /** Every row's user and book have an index. */
  predicate Covers(df: seq<Row>, userMap: map<UserId, nat>, bookMap: map<BookId, nat>)
  {
    forall k :: 0 <= k < |df| ==> df[k].user in userMap && df[k].book in bookMap
  }

  /** The `(user_idx, book_idx, rating)` triple of every row, in row order. */
  function Triples(df: seq<Row>, userMap: map<UserId, nat>, bookMap: map<BookId, nat>): seq<Entry>
    requires Covers(df, userMap, bookMap)
  {
    seq(|df|, k requires 0 <= k < |df| => Entry(userMap[df[k].user], bookMap[df[k].book], df[k].rating))
  }

  /** Every row's ids are in the index maps built from the table's own columns, so every triple
      lands inside the distinct-users x distinct-books matrix. */
  lemma IndexMapsCover(df: seq<Row>)
    ensures Covers(df, IndexMap(UserIds(df)), IndexMap(BookIds(df)))
    ensures InShape(Triples(df, IndexMap(UserIds(df)), IndexMap(BookIds(df))), |Unique(UserIds(df))|, |Unique(BookIds(df))|)
  {
    IndexMapDense(UserIds(df));
    IndexMapDense(BookIds(df));
    forall k | 0 <= k < |df|
      ensures df[k].user in IndexMap(UserIds(df)) && df[k].book in IndexMap(BookIds(df))
    {
      assert UserIds(df)[k] == df[k].user && BookIds(df)[k] == df[k].book;
    }
  }

  /** The dense view of the interaction matrix `prepare_matrix` builds from the table. */
  function InteractionMatrix(df: seq<Row>): seq<seq<real>>
  {
    IndexMapsCover(df);
    var userMap, bookMap := IndexMap(UserIds(df)), IndexMap(BookIds(df));
    ToDense(Triples(df, userMap, bookMap), |Unique(UserIds(df))|, |Unique(BookIds(df))|)
  }

  /** The sum of the ratings that `user` gave `book` over all rows; 0 when there is none. */
  function RatingSum(df: seq<Row>, user: UserId, book: BookId): real
  {
    if df == [] then 0.0
    else
      var last := df[|df| - 1];
      RatingSum(df[..|df| - 1], user, book) + (if last.user == user && last.book == book then last.rating else 0.0)
  }

  /** The sum of every rating in the table. */
  function RatingTotal(df: seq<Row>): real
  {
    if df == [] then 0.0 else RatingTotal(df[..|df| - 1]) + df[|df| - 1].rating
  }

  /** Under injective maps, the entries landing on the cell of (user, book) are exactly the rows
      of that user and book. */
  lemma {:induction false} EntrySumIsRatingSum(
    df: seq<Row>, userMap: map<UserId, nat>, bookMap: map<BookId, nat>, user: UserId, book: BookId)
    requires Covers(df, userMap, bookMap) && Injective(userMap) && Injective(bookMap)
    requires user in userMap && book in bookMap
    ensures EntrySum(Triples(df, userMap, bookMap), userMap[user], bookMap[book]) == RatingSum(df, user, book)
  {
    if df != [] {
      var init := df[..|df| - 1];
      assert Triples(df, userMap, bookMap)[..|df| - 1] == Triples(init, userMap, bookMap);
      EntrySumIsRatingSum(init, userMap, bookMap, user, book);
    }
  }

  /** The entries carry every rating once. */
  lemma {:induction false} ValueSumIsRatingTotal(df: seq<Row>, userMap: map<UserId, nat>, bookMap: map<BookId, nat>)
    requires Covers(df, userMap, bookMap)
    ensures ValueSum(Triples(df, userMap, bookMap)) == RatingTotal(df)
  {
    if df != [] {
      var init := df[..|df| - 1];
      assert Triples(df, userMap, bookMap)[..|df| - 1] == Triples(init, userMap, bookMap);
      ValueSumIsRatingTotal(init, userMap, bookMap);
    }
  }

  /** The interaction matrix has one row per distinct user and one column per distinct book, and
      the cell of (user, book) holds the sum of that user's ratings of that book: duplicates add. */
  lemma InteractionMatrixEntry(df: seq<Row>, user: UserId, book: BookId)
    requires user in IndexMap(UserIds(df)) && book in IndexMap(BookIds(df))
    ensures IsShape(InteractionMatrix(df), |IndexMap(UserIds(df))|, |IndexMap(BookIds(df))|)
    ensures IndexMap(UserIds(df))[user] < |IndexMap(UserIds(df))| && IndexMap(BookIds(df))[book] < |IndexMap(BookIds(df))|
    ensures InteractionMatrix(df)[IndexMap(UserIds(df))[user]][IndexMap(BookIds(df))[book]] == RatingSum(df, user, book)
  {
    var userMap, bookMap := IndexMap(UserIds(df)), IndexMap(BookIds(df));
    IndexMapDense(UserIds(df));
    IndexMapDense(BookIds(df));
    IndexMapsCover(df);
    var es := Triples(df, userMap, bookMap);
    ToDenseEntry(es, |Unique(UserIds(df))|, |Unique(BookIds(df))|, userMap[user], bookMap[book]);
    EntrySumIsRatingSum(df, userMap, bookMap, user, book);
  }

  /** A (user, book) pair with no row has an empty cell. */
  lemma {:induction false} RatingSumAbsent(df: seq<Row>, user: UserId, book: BookId)
    requires forall k :: 0 <= k < |df| ==> df[k].user != user || df[k].book != book
    ensures RatingSum(df, user, book) == 0.0
  {
    if df != [] {
      RatingSumAbsent(df[..|df| - 1], user, book);
    }
  }

  /** No rating is lost or counted twice: the matrix total equals the sum of all ratings. */
  lemma InteractionMatrixTotal(df: seq<Row>)
    ensures Total(InteractionMatrix(df)) == RatingTotal(df)
  {
    IndexMapsCover(df);
    var userMap, bookMap := IndexMap(UserIds(df)), IndexMap(BookIds(df));
    ToDenseTotal(Triples(df, userMap, bookMap), |Unique(UserIds(df))|, |Unique(BookIds(df))|);
    ValueSumIsRatingTotal(df, userMap, bookMap);
  }

  /** Every index of `s` has an entry in the reverse map. */
  predicate AllMapped(s: seq<nat>, reverseBookMap: map<nat, BookId>)
  {
    forall p :: 0 <= p < |s| ==> s[p] in reverseBookMap
  }

  /** The ids a list of book indices stands for, through the reverse map. */
  function Labels(s: seq<nat>, reverseBookMap: map<nat, BookId>): seq<BookId>
    requires AllMapped(s, reverseBookMap)
  {
    seq(|s|, p requires 0 <= p < |s| => reverseBookMap[s[p]])
  }

  /** One step of the loop that appends ids: the next index adds its id unless it is `self`. */
  lemma LabelsStep(s: seq<nat>, j: nat, self: nat, reverseBookMap: map<nat, BookId>)
    requires j < |s| && AllMapped(ExcludeSelf(s, self), reverseBookMap)
    ensures AllMapped(ExcludeSelf(s[..j], self), reverseBookMap)
    ensures AllMapped(ExcludeSelf(s[..j + 1], self), reverseBookMap)
    ensures s[j] != self ==> s[j] in reverseBookMap
    ensures Labels(ExcludeSelf(s[..j + 1], self), reverseBookMap) ==
      Labels(ExcludeSelf(s[..j], self), reverseBookMap) + (if s[j] != self then [reverseBookMap[s[j]]] else [])
  {
    var sel := ExcludeSelf(s, self);
    ExcludeSelfPrefix(s, j, self);
    ExcludeSelfPrefix(s, j + 1, self);
    assert s[..j + 1][..j] == s[..j];
    var prev := ExcludeSelf(s[..j], self);
    var next := ExcludeSelf(s[..j + 1], self);
    assert forall p :: 0 <= p < |next| ==> next[p] == sel[p];
    assert next == prev + (if s[j] != self then [s[j]] else []);
    if s[j] != self {
      assert next[|prev|] == s[j];
    }
  }

  /** Reading selected indices back through the reverse map keeps what the selection promised,
      now stated about book ids: no `query`, no repeats, highest score first, none left out that
      scores higher. */
  lemma LabelsOfSelection(
    bookMap: map<BookId, nat>, reverseBookMap: map<nat, BookId>, scores: seq<real>, sel: seq<nat>, query: BookId)
    requires Injective(bookMap) && forall b :: b in bookMap ==> bookMap[b] < |scores|
    requires forall i :: 0 <= i < |scores| ==> i in reverseBookMap
    requires forall i :: i in reverseBookMap ==> reverseBookMap[i] in bookMap && bookMap[reverseBookMap[i]] == i
    requires query in bookMap
    requires forall p :: 0 <= p < |sel| ==> sel[p] < |scores| && sel[p] != bookMap[query]
    requires Distinct(sel) && NonIncreasing(sel, scores)
    requires forall x, y :: x in sel && 0 <= y < |scores| && y != bookMap[query] && y !in sel ==> scores[x] >= scores[y]
    ensures AllMapped(sel, reverseBookMap)
    ensures var recs := Labels(sel, reverseBookMap);
      && (forall p :: 0 <= p < |recs| ==> recs[p] in bookMap && bookMap[recs[p]] == sel[p])
      && query !in recs
      && Distinct(recs)
      && (forall x, y :: x in recs && y in bookMap && y != query && y !in recs ==>
            scores[bookMap[x]] >= scores[bookMap[y]])
  {
    var recs := Labels(sel, reverseBookMap);
    forall p | 0 <= p < |recs|
      ensures recs[p] in bookMap && bookMap[recs[p]] == sel[p]
    {
    }
    forall x, y | x in recs && y in bookMap && y != query && y !in recs
      ensures scores[bookMap[x]] >= scores[bookMap[y]]
    {
      var p :| 0 <= p < |recs| && recs[p] == x;
      assert bookMap[y] !in sel;
      assert sel[p] in sel;
    }
  }

  /** What `get_recommendations` may be called with: a square score matrix over the table's books
      and, for a known book, an argsort of its row. */
  predicate RecommendReady(df: seq<Row>, scores: seq<seq<real>>, bookIsbn: BookId, order: seq<nat>)
  {
    var bookMap := IndexMap(BookIds(df));
    && IsShape(scores, |bookMap|, |bookMap|)
    && (bookIsbn in bookMap ==> bookMap[bookIsbn] < |scores| && IsArgsort(order, scores[bookMap[bookIsbn]]))
  }

  /** The answer `get_recommendations` gives: `None` for an unknown ISBN, otherwise the ids of the
      selected indices other than the book's own, in selection order. */
  function Recommend(df: seq<Row>, scores: seq<seq<real>>, bookIsbn: BookId, topN: int, order: seq<nat>): (r: Option<seq<BookId>>)
    requires RecommendReady(df, scores, bookIsbn, order)
    ensures r.None? <==> bookIsbn !in IndexMap(BookIds(df))
  {
    var bookMap := IndexMap(BookIds(df));
    if bookIsbn !in bookMap then None
    else
      var sel := ExcludeSelf(TopIndices(order, topN), bookMap[bookIsbn]);
      SelectionIsMapped(df, scores, bookIsbn, topN, order);
      Some(Labels(sel, Invert(bookMap)))
  }

  /** Every selected index has an entry in the reverse map. */
  lemma SelectionIsMapped(df: seq<Row>, scores: seq<seq<real>>, bookIsbn: BookId, topN: int, order: seq<nat>)
    requires RecommendReady(df, scores, bookIsbn, order) && bookIsbn in IndexMap(BookIds(df))
    ensures Injective(IndexMap(BookIds(df)))
    ensures AllMapped(ExcludeSelf(TopIndices(order, topN), IndexMap(BookIds(df))[bookIsbn]), Invert(IndexMap(BookIds(df))))
  {
    var bookMap := IndexMap(BookIds(df));
    IndexMapInverse(BookIds(df));
    var scoresRow := scores[bookMap[bookIsbn]];
    TopIndicesSelection(order, scoresRow, topN, bookMap[bookIsbn]);
  }

  /** `None` exactly for an ISBN that is not in the book map; a known book always gets a list,
      empty when there is no other book. */
  lemma RecommendNotFound(df: seq<Row>, scores: seq<seq<real>>, bookIsbn: BookId, topN: int, order: seq<nat>)
    requires RecommendReady(df, scores, bookIsbn, order)
    ensures Recommend(df, scores, bookIsbn, topN, order).None? <==> bookIsbn !in IndexMap(BookIds(df))
    ensures bookIsbn in IndexMap(BookIds(df)) && |IndexMap(BookIds(df))| == 1 ==>
      Recommend(df, scores, bookIsbn, topN, order) == Some([])
  {
    var bookMap := IndexMap(BookIds(df));
    if bookIsbn in bookMap && |bookMap| == 1 {
      var self := bookMap[bookIsbn];
      assert self == 0 by {
        IndexMapDense(BookIds(df));
      }
      SoleIndexExcluded(order, scores[self], topN);
      SelectionIsMapped(df, scores, bookIsbn, topN, order);
      assert Labels([], Invert(bookMap)) == [];
    }
  }

  /** For a known book: the list never holds the book itself, holds only mapped books, none twice,
      best score first, and no other book left out scores higher than one in the list. */
  lemma RecommendRanked(df: seq<Row>, scores: seq<seq<real>>, bookIsbn: BookId, topN: int, order: seq<nat>)
    requires RecommendReady(df, scores, bookIsbn, order) && bookIsbn in IndexMap(BookIds(df))
    ensures var bookMap := IndexMap(BookIds(df));
      var recs := Recommend(df, scores, bookIsbn, topN, order).value;
      var row := scores[bookMap[bookIsbn]];
      && bookIsbn !in recs
      && Distinct(recs)
      && (forall y :: y in bookMap ==> bookMap[y] < |row|)
      && (forall p :: 0 <= p < |recs| ==> recs[p] in bookMap)
      && (forall p, q :: 0 <= p < q < |recs| ==> row[bookMap[recs[p]]] >= row[bookMap[recs[q]]])
      && (forall x, y :: x in recs && y in bookMap && y != bookIsbn && y !in recs ==>
            row[bookMap[x]] >= row[bookMap[y]])
  {
    var bookMap := IndexMap(BookIds(df));
    var row := scores[bookMap[bookIsbn]];
    var sel := ExcludeSelf(TopIndices(order, topN), bookMap[bookIsbn]);
    IndexMapInverse(BookIds(df));
    TopIndicesSelection(order, row, topN, bookMap[bookIsbn]);
    LabelsOfSelection(bookMap, Invert(bookMap), row, sel, bookIsbn);
  }

  /** For a known book, with `k` the number of positions the slice keeps (`min(top_n + 1, count)`
      when `top_n >= 0`): `k - 1` books when the book itself is among them, `k` otherwise. */
  lemma RecommendLength(df: seq<Row>, scores: seq<seq<real>>, bookIsbn: BookId, topN: int, order: seq<nat>)
    requires RecommendReady(df, scores, bookIsbn, order) && bookIsbn in IndexMap(BookIds(df))
    ensures var bookMap := IndexMap(BookIds(df));
      var recs := Recommend(df, scores, bookIsbn, topN, order).value;
      var selfKept := bookMap[bookIsbn] in TopIndices(order, topN);
      && |recs| == |order| - SliceStart(|order|, topN) - (if selfKept then 1 else 0)
      && (topN >= 0 ==>
            var k := if topN + 1 < |bookMap| then topN + 1 else |bookMap|;
            |recs| == if selfKept then k - 1 else k)
  {
    var bookMap := IndexMap(BookIds(df));
    TopIndicesSelection(order, scores[bookMap[bookIsbn]], topN, bookMap[bookIsbn]);
  }

  /** The recommender. Its fields start empty and are filled in by `PrepareMatrix` and `Train`. */
  class RecommenderEngine {
    var df: seq<Row>
    var userMap: map<UserId, nat>
    var bookMap: map<BookId, nat>
    var reverseBookMap: map<nat, BookId>
    var interactionMatrix: Option<seq<seq<real>>>
    var similarityMatrix: Option<seq<seq<real>>>

    /** `prepare_matrix` has run on the current table: maps and matrix are the ones derived from it. */
    ghost predicate Prepared()
      reads this`df, this`userMap, this`bookMap, this`reverseBookMap, this`interactionMatrix
    {
      && userMap == IndexMap(UserIds(df))
      && bookMap == IndexMap(BookIds(df))
      && Injective(bookMap)
      && reverseBookMap == Invert(bookMap)
      && interactionMatrix == Some(InteractionMatrix(df))
    }

    /** `train` has run after `prepare_matrix`: a square score matrix over the books is installed. */
    ghost predicate Trained()
      reads this
    {
      && Prepared()
      && similarityMatrix.Some?
      && IsShape(similarityMatrix.value, |bookMap|, |bookMap|)
      && (forall b :: b in bookMap ==> bookMap[b] < |bookMap|)
      && (forall i :: 0 <= i < |bookMap| ==> i in reverseBookMap)
    }

    /** A fresh engine holds the table and nothing else. */
    constructor (data: seq<Row>)
      ensures df == data
      ensures userMap == map[] && bookMap == map[] && reverseBookMap == map[]
      ensures interactionMatrix == None && similarityMatrix == None
    {
      df := data;
      userMap := map[];
      bookMap := map[];
      reverseBookMap := map[];
      interactionMatrix := None;
      similarityMatrix := None;
    }

    /** Numbers users and books in first-appearance order, builds the reverse book map and the
        summed interaction matrix. */
    method PrepareMatrix()
      modifies this
      ensures df == old(df) && similarityMatrix == old(similarityMatrix)
      ensures Prepared()
    {
      var uniqueUsers := Unique(UserIds(df));
      var uniqueBooks := Unique(BookIds(df));
      var users := Enumerate(uniqueUsers);
      var books := Enumerate(uniqueBooks);
      assert Injective(books) by {
        IndexMapDense(BookIds(df));
      }
      var reverse := Invert(books);
      assert Covers(df, users, books) && InShape(Triples(df, users, books), |uniqueUsers|, |uniqueBooks|) by {
        IndexMapsCover(df);
      }
      var entries := Triples(df, users, books);
      userMap, bookMap, reverseBookMap := users, books, reverse;
      interactionMatrix := Some(ToDense(entries, |uniqueUsers|, |uniqueBooks|));
    }

    /** Installs the book x book score matrix computed from the interaction matrix. With no book
        at all the similarity computation rejects its empty input, and nothing is installed. */
    method Train(scores: seq<seq<real>>) returns (r: Result<(), TrainError>)
      requires Prepared()
      requires IsShape(scores, |bookMap|, |bookMap|)
      modifies this`similarityMatrix
      ensures r.Err? <==> |bookMap| == 0
      ensures r.Err? ==> r.error == EmptyInput && similarityMatrix == old(similarityMatrix)
      ensures r.Ok? ==> similarityMatrix == Some(scores) && Trained()
    {
      if |bookMap| == 0 {
        return Err(EmptyInput);
      }
      similarityMatrix := Some(scores);
      IndexMapInverse(BookIds(df));
      r := Ok(());
    }

    /** The books most similar to `bookIsbn`, best first, without `bookIsbn` itself; `None` when the
        book is unknown. `order` is what `argsort` returned for the book's row of scores. */
    method GetRecommendations(bookIsbn: BookId, topN: int := DefaultTopN, order: seq<nat>) returns (r: Option<seq<BookId>>)
      requires Trained()
      requires bookIsbn in bookMap ==> IsArgsort(order, similarityMatrix.value[bookMap[bookIsbn]])
      ensures RecommendReady(df, similarityMatrix.value, bookIsbn, order)
      ensures r == Recommend(df, similarityMatrix.value, bookIsbn, topN, order)
    {
      if bookIsbn !in bookMap {
        return None;
      }
      var bookIdx := bookMap[bookIsbn];
      var simScores := similarityMatrix.value[bookIdx];
      var topIndices := TopIndices(order, topN);
      SelectionIsMapped(df, similarityMatrix.value, bookIsbn, topN, order);
      var results: seq<BookId> := [];
      for j := 0 to |topIndices|
        invariant AllMapped(ExcludeSelf(topIndices[..j], bookIdx), reverseBookMap)
        invariant results == Labels(ExcludeSelf(topIndices[..j], bookIdx), reverseBookMap)
      {
        var idx := topIndices[j];
        LabelsStep(topIndices, j, bookIdx, reverseBookMap);
        if idx != bookIdx {
          results := results + [reverseBookMap[idx]];
        }
      }
      assert topIndices[..|topIndices|] == topIndices;
      r := Some(results);
    }
  }
}
