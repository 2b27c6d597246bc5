/**
  The dense user-by-restaurant rating matrix that training builds from the rating
  records: raw ids are replaced by their category codes, a zero matrix of
  (distinct users) x (distinct restaurants) is allocated, and every record is written
  into its cell in input order, so that a later record overwrites an earlier one.
 */
module RatingMatrix {
  import opened Encoding

  /** One row of the ratings table. */
  datatype Rating = Rating(userId: int, restaurantId: int, rating: int)

  /** One cell assignment of the fill loop: `matrix[row, col] = value`. */
  datatype Write = Write(row: nat, col: nat, value: int)

  function UserIds(records: seq<Rating>): (ids: seq<int>)
    ensures |ids| == |records| && forall i :: 0 <= i < |records| ==> ids[i] == records[i].userId
  {
    seq(|records|, i requires 0 <= i < |records| => records[i].userId)
  }

  function RestaurantIds(records: seq<Rating>): (ids: seq<int>)
    ensures |ids| == |records| && forall i :: 0 <= i < |records| ==> ids[i] == records[i].restaurantId
  {
    seq(|records|, i requires 0 <= i < |records| => records[i].restaurantId)
  }

  /** `num_users`: the number of distinct user codes; at least one user once there is a record. */
  function NumUsers(records: seq<Rating>): (n: nat)
    ensures n <= |records|
    ensures n == 0 <==> records == []
  {
    NUnique(Codes(UserIds(records)))
  }

  /** `num_restaurants`: the number of distinct restaurant codes; at least one once there is a record. */
  function NumRestaurants(records: seq<Rating>): (n: nat)
    ensures n <= |records|
    ensures n == 0 <==> records == []
  {
    NUnique(Codes(RestaurantIds(records)))
  }

  /**
    The cell writes of the fill loop, one per record, in input order: record i writes
    its rating at (its user code, its restaurant code), and every write is in bounds.
   */
  function Writes(records: seq<Rating>): (ws: seq<Write>)
    ensures |ws| == |records|
    ensures forall i :: 0 <= i < |ws| ==>
      ws[i].row == Codes(UserIds(records))[i] && ws[i].col == Codes(RestaurantIds(records))[i]
    ensures forall i :: 0 <= i < |ws| ==> ws[i].row < NumUsers(records) && ws[i].col < NumRestaurants(records)
    ensures forall i :: 0 <= i < |ws| ==> ws[i].value == records[i].rating
  {
    var uc, rc := Codes(UserIds(records)), Codes(RestaurantIds(records));
    CodesBelowCount(UserIds(records));
    CodesBelowCount(RestaurantIds(records));
    seq(|records|, i requires 0 <= i < |records| => Write(uc[i], rc[i], records[i].rating))
  }

  lemma CodesBelowCount(s: seq<int>)
    ensures forall i :: 0 <= i < |s| ==> Codes(s)[i] < NUnique(Codes(s))
  {
    CategoryCount(s);
  }

  predicate Hits(w: Write, u: int, r: int) {
    w.row == u && w.col == r
  }

  /**
    The value of cell (u, r) of a zero matrix after the writes `ws`, performed in order:
    0, or the value of some write to that cell.
   */
  function Cell(ws: seq<Write>, u: int, r: int): (v: int)
    ensures v == 0 || exists k :: 0 <= k < |ws| && Hits(ws[k], u, r) && ws[k].value == v
  {
    if ws == [] then 0
    else if Hits(ws[|ws| - 1], u, r) then ws[|ws| - 1].value
    else
      var init := ws[..|ws| - 1];
      assert forall k :: 0 <= k < |init| ==> init[k] == ws[k];
      Cell(init, u, r)
  }

  /** One more write changes only the cell it hits. */
  lemma CellStep(ws: seq<Write>, i: nat)
    requires i < |ws|
    ensures forall u, r :: Cell(ws[..i + 1], u, r) == if Hits(ws[i], u, r) then ws[i].value else Cell(ws[..i], u, r)
  {
    assert ws[..i + 1][..i] == ws[..i];
  }

  /** A cell no write hits is 0; otherwise it holds the value of the last write to it. */
  lemma {:induction false} LastWriteWins(ws: seq<Write>, u: int, r: int)
    ensures (forall k :: 0 <= k < |ws| ==> !Hits(ws[k], u, r)) ==> Cell(ws, u, r) == 0
    ensures forall k :: 0 <= k < |ws| && Hits(ws[k], u, r) &&
                        (forall k' :: k < k' < |ws| ==> !Hits(ws[k'], u, r)) ==>
                        Cell(ws, u, r) == ws[k].value
  {
    if ws != [] {
      var init := ws[..|ws| - 1];
      LastWriteWins(init, u, r);
      assert forall k :: 0 <= k < |init| ==> init[k] == ws[k];
    }
  }

  /**
    In terms of the raw ids: the cell of a record's user and restaurant codes holds the
    rating of the last record with the same user id and restaurant id.
   */
  lemma RecordCell(records: seq<Rating>, i: int, j: int)
    requires 0 <= i <= j < |records|
    requires records[j].userId == records[i].userId && records[j].restaurantId == records[i].restaurantId
    requires forall k :: j < k < |records| ==>
               records[k].userId != records[i].userId || records[k].restaurantId != records[i].restaurantId
    ensures Cell(Writes(records), Codes(UserIds(records))[i], Codes(RestaurantIds(records))[i]) == records[j].rating
  {
    var ws := Writes(records);
    var us, rs := UserIds(records), RestaurantIds(records);
    CodesPreserveOrder(us, i, j);
    CodesPreserveOrder(rs, i, j);
    forall k | j < k < |ws| ensures !Hits(ws[k], ws[i].row, ws[i].col) {
      CodesPreserveOrder(us, i, k);
      CodesPreserveOrder(rs, i, k);
    }
    LastWriteWins(ws, ws[i].row, ws[i].col);
  }

  /** A cell whose code pair belongs to no record is 0. */
  lemma EmptyCell(records: seq<Rating>, u: int, r: int)
    requires forall i :: 0 <= i < |records| ==>
               Codes(UserIds(records))[i] != u || Codes(RestaurantIds(records))[i] != r
    ensures Cell(Writes(records), u, r) == 0
  {
    LastWriteWins(Writes(records), u, r);
  }

  /** The matrix has one row per distinct user id and one column per distinct restaurant id. */
  lemma MatrixShape(records: seq<Rating>)
    ensures NumUsers(records) == NUnique(UserIds(records)) == |Categories(UserIds(records))|
    ensures NumRestaurants(records) == NUnique(RestaurantIds(records)) == |Categories(RestaurantIds(records))|
  {
    CategoryCount(UserIds(records));
    CategoryCount(RestaurantIds(records));
  }

  lemma ExampleUserCategories()
    ensures Categories([1, 1, 2]) == [1, 2]
  {
    assert [1, 1, 2][1..] == [1, 2] && [1, 2][1..] == [2] && [2][1..] == [];
    assert Categories([2]) == [2];
    assert Categories([1, 2]) == [1, 2];
  }

  lemma ExampleRestaurantCategories()
    ensures Categories([10, 20, 10]) == [10, 20]
  {
    assert [10, 20, 10][1..] == [20, 10] && [20, 10][1..] == [10] && [10][1..] == [];
    assert Categories([10]) == [10];
    assert Insert(20, [10]) == [10, 20];
    assert Categories([20, 10]) == [10, 20];
  }

  lemma ExampleUserCodes(us: seq<int>)
    requires us == [1, 1, 2]
    ensures Codes(us) == [0, 0, 1]
  {
    ExampleUserCategories();
    var uc := Codes(us);
    assert uc[0] == 0 && uc[1] == 0 && uc[2] == 1;
  }

  lemma ExampleRestaurantCodes(rs: seq<int>)
    requires rs == [10, 20, 10]
    ensures Codes(rs) == [0, 1, 0]
  {
    ExampleRestaurantCategories();
    var rc := Codes(rs);
    assert rc[0] == 0 && rc[1] == 1 && rc[2] == 0;
  }

  lemma ExampleIds(records: seq<Rating>)
    requires records == [Rating(1, 10, 5), Rating(1, 20, 2), Rating(2, 10, 3)]
    ensures UserIds(records) == [1, 1, 2] && RestaurantIds(records) == [10, 20, 10]
  {
  }

  lemma ExampleShape(records: seq<Rating>)
    requires records == [Rating(1, 10, 5), Rating(1, 20, 2), Rating(2, 10, 3)]
    ensures NumUsers(records) == 2 && NumRestaurants(records) == 2
  {
    ExampleIds(records);
    MatrixShape(records);
    ExampleUserCategories();
    ExampleRestaurantCategories();
  }

  lemma ExampleWrites(records: seq<Rating>)
    requires records == [Rating(1, 10, 5), Rating(1, 20, 2), Rating(2, 10, 3)]
    ensures Writes(records) == [Write(0, 0, 5), Write(0, 1, 2), Write(1, 0, 3)]
  {
    ExampleUserCodes(UserIds(records));
    ExampleRestaurantCodes(RestaurantIds(records));
  }

  lemma ExampleCells(ws: seq<Write>)
    requires ws == [Write(0, 0, 5), Write(0, 1, 2), Write(1, 0, 3)]
    ensures Cell(ws, 0, 0) == 5 && Cell(ws, 0, 1) == 2 && Cell(ws, 1, 0) == 3 && Cell(ws, 1, 1) == 0
  {
    assert ws[..2] == [Write(0, 0, 5), Write(0, 1, 2)];
    assert ws[..2][..1] == [Write(0, 0, 5)];
    assert ws[..2][..1][..0] == [];
    assert Cell(ws[..2][..1], 0, 0) == 5;
    assert Cell(ws[..2][..1], 1, 1) == 0;
    assert Cell(ws[..2], 1, 1) == 0;
  }

  /**
    Users 1 and 2, restaurants 10 and 20: the ratings (1, 10, 5), (1, 20, 2), (2, 10, 3)
    give the 2 x 2 matrix [[5, 2], [3, 0]].
   */
  lemma ExampleMatrix(records: seq<Rating>)
    requires records == [Rating(1, 10, 5), Rating(1, 20, 2), Rating(2, 10, 3)]
    ensures NumUsers(records) == 2 && NumRestaurants(records) == 2
    ensures var ws := Writes(records);
      Cell(ws, 0, 0) == 5 && Cell(ws, 0, 1) == 2 && Cell(ws, 1, 0) == 3 && Cell(ws, 1, 1) == 0
  {
    ExampleShape(records);
    ExampleWrites(records);
    ExampleCells(Writes(records));
  }

  /**
    Allocates the zero matrix of `NumUsers(records)` x `NumRestaurants(records)` and fills
    it record by record.
   */
  method BuildMatrix(records: seq<Rating>) returns (m: array2<int>)
    ensures fresh(m)
    ensures m.Length0 == NumUsers(records) && m.Length1 == NumRestaurants(records)
    ensures forall u, r :: 0 <= u < m.Length0 && 0 <= r < m.Length1 ==> m[u, r] == Cell(Writes(records), u, r)
  {
    var ws := Writes(records);
    m := new int[NumUsers(records), NumRestaurants(records)]((u, r) => 0);
    Fill(m, ws);
  }

  /** The fill loop: performs the writes `ws` on the zero matrix `m`, in order. */
  method Fill(m: array2<int>, ws: seq<Write>)
    requires forall u, r :: 0 <= u < m.Length0 && 0 <= r < m.Length1 ==> m[u, r] == 0
    requires forall i :: 0 <= i < |ws| ==> ws[i].row < m.Length0 && ws[i].col < m.Length1
    modifies m
    ensures forall u, r :: 0 <= u < m.Length0 && 0 <= r < m.Length1 ==> m[u, r] == Cell(ws, u, r)
  {
    var i := 0;
    while i < |ws|
      invariant 0 <= i <= |ws|
      invariant forall u, r :: 0 <= u < m.Length0 && 0 <= r < m.Length1 ==> m[u, r] == Cell(ws[..i], u, r)
    {
      m[ws[i].row, ws[i].col] := ws[i].value;
      CellStep(ws, i);
      i := i + 1;
    }
    assert ws[..i] == ws;
  }
}
