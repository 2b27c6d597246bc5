/**
  The module-level state of the recommender (the trained autoencoder, the rating
  matrix and the restaurant table, all unset until training) and its two entry
  points, `train_autoencoder` and `get_recommendations`.

  The autoencoder itself is outside this model: a trained network is represented only
  by its width (the number of restaurants it reads and predicts), and the scores it
  predicts for a user's normalised row are handed to `GetRecommendations` as input.
 */
module Recommender {
  import opened RatingMatrix
  import opened Ranking

  datatype Option<T> = None | Some(value: T)

  /** One row of the restaurant table; its position is its restaurant index. */
  datatype Restaurant = Restaurant(id: int, name: string)

  /** A trained autoencoder: input and output layers of `width` units. */
  datatype Network = Network(width: nat)

  /** What reading the restaurant file and then the ratings file produced. */
  datatype Load =
    | RestaurantFileMissing
    | RatingsFileMissing(restaurants: seq<Restaurant>)
    | Loaded(restaurants: seq<Restaurant>, ratings: seq<Rating>)

  datatype TrainResult = FileNotFound | Trained

  /** numpy's `a[i]` on the first axis: `-n <= i < n`, negative indices count from the end. */
  function RowIndex(i: int, n: nat): (k: nat)
    requires -(n as int) <= i < n
    ensures k < n
    ensures i >= 0 ==> k == i
    ensures i < 0 ==> k + (-i) == n
  {
    if i >= 0 then i else n + i
  }

  /** `m[i]` as a list of ratings. */
  function UserRow(m: array2<int>, i: int): (row: seq<int>)
    requires -m.Length0 <= i < m.Length0
    reads m
    ensures |row| == m.Length1
    ensures forall r :: 0 <= r < |row| ==> row[r] == m[RowIndex(i, m.Length0), r]
  {
    var u := RowIndex(i, m.Length0);
    seq(m.Length1, r requires 0 <= r < m.Length1 reads m => m[u, r])
  }

  class RecommenderState {
    var autoencoder: Option<Network>
    var ratingMatrix: array2?<int>
    var restaurants: Option<seq<Restaurant>>

    /** The network and the matrix are set together, and the network is as wide as the matrix. */
    ghost predicate Valid()
      reads this
    {
      && (autoencoder.Some? <==> ratingMatrix != null)
      && (ratingMatrix != null ==> autoencoder.value.width == ratingMatrix.Length1)
    }

    /** All three pieces of state are set. */
    predicate IsTrained()
      reads this
    {
      autoencoder.Some? && ratingMatrix != null && restaurants.Some?
    }

    /** The process starts untrained. */
    constructor ()
      ensures Valid() && !IsTrained()
      ensures autoencoder == None && ratingMatrix == null && restaurants == None
    {
      autoencoder := None;
      ratingMatrix := null;
      restaurants := None;
    }

    /**
      `train_autoencoder`. The restaurant table is stored before the ratings file is
      read, so a missing ratings file replaces only the table; a missing restaurant
      file changes nothing. Otherwise the matrix and a network as wide as it replace the
      old ones.
     */
    method TrainAutoencoder(load: Load) returns (result: TrainResult)
      requires Valid()
      modifies this
      ensures Valid()
      ensures result == FileNotFound <==> !load.Loaded?
      ensures load.RestaurantFileMissing? ==>
        autoencoder == old(autoencoder) && ratingMatrix == old(ratingMatrix) && restaurants == old(restaurants)
      ensures load.RatingsFileMissing? ==>
        autoencoder == old(autoencoder) && ratingMatrix == old(ratingMatrix) && restaurants == Some(load.restaurants)
      ensures load.Loaded? ==>
        && IsTrained()
        && fresh(ratingMatrix)
        && restaurants == Some(load.restaurants)
        && ratingMatrix.Length0 == NumUsers(load.ratings)
        && ratingMatrix.Length1 == NumRestaurants(load.ratings)
        && (forall u, r :: 0 <= u < ratingMatrix.Length0 && 0 <= r < ratingMatrix.Length1 ==>
              ratingMatrix[u, r] == Cell(Writes(load.ratings), u, r))
        && autoencoder == Some(Network(NumRestaurants(load.ratings)))
    {
      if load.RestaurantFileMissing? {
        return FileNotFound;
      }
      restaurants := Some(load.restaurants);
      if load.RatingsFileMissing? {
        return FileNotFound;
      }
      var m := BuildMatrix(load.ratings);
      ratingMatrix := m;
      autoencoder := Some(Network(m.Length1));
      result := Trained;
    }

    /**
      `get_recommendations`: the untrained guard, then the user-index guard, then the
      ranking of `predicted` (the network's scores for the user's row, one per unit of
      its output layer) against the user's ratings. `top_n` defaults to 10. The
      recommendations are columns of the matrix the user rated below 4. Nothing changes.
     */
    method GetRecommendations(userId: int, predicted: seq<int>, topN: int := 10) returns (o: Outcome)
      requires Valid()
      requires IsTrained() ==> |predicted| == autoencoder.value.width
      ensures o.Untrained? <==> !IsTrained()
      ensures o.InvalidUser? <==>
        IsTrained() && !(-ratingMatrix.Length0 <= userId < ratingMatrix.Length0)
      ensures o.InvalidUser? ==> o.userId == userId
      ensures IsTrained() && -ratingMatrix.Length0 <= userId < ratingMatrix.Length0 ==>
        o == Recommend(UserRow(ratingMatrix, userId), predicted, topN)
      ensures o.Recommended? ==>
        && InRange(o.ranked, ratingMatrix.Length1)
        && forall i :: 0 <= i < |o.ranked| ==> UserRow(ratingMatrix, userId)[o.ranked[i]] < LikedThreshold
    {
      if !IsTrained() {
        return Untrained;
      }
      var m := ratingMatrix;
      if !(-m.Length0 <= userId < m.Length0) {
        return InvalidUser(userId);
      }
      var row := UserRow(m, userId);
      RecommendRanked(row, predicted, topN);
      o := Recommend(row, predicted, topN);
    }
  }

  /**
    A process from start: recommending before training, after a run whose ratings
    file is missing, and after training on three ratings (a 2 x 2 matrix).
   */
  method Session() {
    var s := new RecommenderState();
    var o := s.GetRecommendations(0, []);
    assert o == Untrained;
    var table := [Restaurant(10, "Trattoria"), Restaurant(20, "Osteria")];
    var t := s.TrainAutoencoder(RatingsFileMissing(table));
    assert t == FileNotFound && s.restaurants == Some(table);
    o := s.GetRecommendations(0, []);
    assert o == Untrained;
    var records := [Rating(1, 10, 5), Rating(1, 20, 2), Rating(2, 10, 3)];
    t := s.TrainAutoencoder(Loaded(table, records));
    ExampleMatrix(records);
    var m := s.ratingMatrix;
    assert m.Length0 == 2 && m.Length1 == 2;
    assert m[0, 0] == 5 && m[0, 1] == 2 && m[1, 0] == 3 && m[1, 1] == 0;
    o := s.GetRecommendations(2, [1, 7]);
    assert o == InvalidUser(2);
  }
}
