/**
 * Coordinates of the Minesweeper grid and the 8-connected neighbourhood of a tile.
 * Tiles are addressed by a linear index in row-major order: the tile at row i,
 * column j of a board `width` columns wide has index j + i * width.
 */
module Grid {

  /** Linear index of the tile at row `i`, column `j`: row `i` fills the indices from i * width up to (i + 1) * width. */
  function PairToIndex(width: nat, i: nat, j: nat): (id: nat)
    ensures i * width <= id
    ensures j < width ==> id < (i + 1) * width
  {
    j + i * width
  }

  /** Row and column of a linear index: the column is the remainder, the row the quotient. */
  function IndexToPair(width: nat, id: nat): (p: (nat, nat))
    requires width > 0
    ensures p.1 < width
    ensures PairToIndex(width, p.0, p.1) == id
  {
    (id / width, id % width)
  }

  lemma MulMonotone(a: nat, b: nat, w: nat)
    requires a <= b
    ensures a * w <= b * w
  {
  }

  /** Coordinates survive a trip through the linear index when the column fits in a row. */
  lemma PairRoundTrip(width: nat, i: nat, j: nat)
    requires j < width
    ensures IndexToPair(width, PairToIndex(width, i, j)) == (i, j)
  {
    var n := PairToIndex(width, i, j);
    var p := IndexToPair(width, n);
    if p.0 < i {
      MulMonotone(p.0 + 1, i, width);
    } else if p.0 > i {
      MulMonotone(i + 1, p.0, width);
    }
  }

  /** A linear index below width * height survives the trip through (row, column), and its row is below height. */
  lemma IndexRoundTrip(width: nat, height: nat, id: nat)
    requires width > 0 && id < width * height
    ensures IndexToPair(width, id).0 < height
    ensures PairToIndex(width, IndexToPair(width, id).0, IndexToPair(width, id).1) == id
  {
    var p := IndexToPair(width, id);
    if p.0 >= height {
      MulMonotone(height, p.0, width);
    }
  }

  /** The tile at row i < height and column j < width lies on the board. */
  lemma PairInBoard(width: nat, height: nat, i: nat, j: nat)
    requires i < height && j < width
    ensures PairToIndex(width, i, j) < width * height
  {
    MulMonotone(i + 1, height, width);
  }

  /** Row and column offsets of the eight neighbours, in the order the source pushes them. */
  const Offsets: seq<(int, int)> := [(1, 0), (-1, 0), (0, 1), (0, -1), (-1, 1), (1, -1), (1, 1), (-1, -1)]

  /**
   * The guard the source puts on a step of `d` from coordinate `x`: a step forward
   * needs x + 1 < bound, a step back needs x > 0, staying put needs nothing.
   */
  predicate CanStep(x: nat, d: int, bound: nat)
  {
    if d == 1 then x + 1 < bound else if d == -1 then x > 0 else d == 0
  }

  /** The indices of the cells reached from (i, j) by the offsets whose guards pass, in order. */
  function Candidates(width: nat, height: nat, i: nat, j: nat, offsets: seq<(int, int)>): (r: seq<nat>)
    ensures |r| <= |offsets|
  {
    if offsets == [] then []
    else
      var d := offsets[0];
      (if CanStep(i, d.0, height) && CanStep(j, d.1, width)
       then [PairToIndex(width, i + d.0, j + d.1)]
       else [])
      + Candidates(width, height, i, j, offsets[1..])
  }

  /** The neighbours of tile `id`: at most eight indices. */
  function Neighbours(width: nat, height: nat, id: nat): (ns: seq<nat>)
    requires width > 0
    ensures |ns| <= 8
  {
    var p := IndexToPair(width, id);
    Candidates(width, height, p.0, p.1, Offsets)
  }

  /** Two distinct tiles whose rows differ by at most one and whose columns differ by at most one. */
  predicate Adjacent(width: nat, a: nat, b: nat)
    requires width > 0
  {
    var pa := IndexToPair(width, a);
    var pb := IndexToPair(width, b);
    a != b && -1 <= pa.0 - pb.0 <= 1 && -1 <= pa.1 - pb.1 <= 1
  }

  predicate Distinct<T(==)>(s: seq<T>)
  {
    forall a, b :: 0 <= a < b < |s| ==> s[a] != s[b]
  }

  /** Every candidate is the cell at an offset of the list whose guards pass. */
  lemma {:induction false} CandidateOffset(width: nat, height: nat, i: nat, j: nat, offsets: seq<(int, int)>, n: nat)
    requires j < width
    requires n in Candidates(width, height, i, j, offsets)
    ensures var p := IndexToPair(width, n);
      && (p.0 - i, p.1 - j) in offsets
      && CanStep(i, p.0 - i, height) && CanStep(j, p.1 - j, width)
  {
    var d := offsets[0];
    var head := if CanStep(i, d.0, height) && CanStep(j, d.1, width)
                then [PairToIndex(width, i + d.0, j + d.1)] else [];
    if n in head {
      PairRoundTrip(width, i + d.0, j + d.1);
    } else {
      CandidateOffset(width, height, i, j, offsets[1..], n);
    }
  }

  /** Every offset of the list whose guards pass contributes its cell. */
  lemma {:induction false} OffsetCandidate(width: nat, height: nat, i: nat, j: nat, offsets: seq<(int, int)>, d: (int, int))
    requires d in offsets && CanStep(i, d.0, height) && CanStep(j, d.1, width)
    ensures PairToIndex(width, i + d.0, j + d.1) in Candidates(width, height, i, j, offsets)
  {
    if d != offsets[0] {
      OffsetCandidate(width, height, i, j, offsets[1..], d);
    }
  }

  /** Distinct offsets yield distinct cells. */
  lemma {:induction false} CandidatesDistinct(width: nat, height: nat, i: nat, j: nat, offsets: seq<(int, int)>)
    requires j < width && Distinct(offsets)
    ensures Distinct(Candidates(width, height, i, j, offsets))
  {
    if offsets != [] {
      var d := offsets[0];
      var tail := Candidates(width, height, i, j, offsets[1..]);
      assert Distinct(offsets[1..]) by {
        forall a, b | 0 <= a < b < |offsets| - 1 ensures offsets[1..][a] != offsets[1..][b] {
          assert offsets[1..][a] == offsets[a + 1] && offsets[1..][b] == offsets[b + 1];
        }
      }
      CandidatesDistinct(width, height, i, j, offsets[1..]);
      if CanStep(i, d.0, height) && CanStep(j, d.1, width) {
        var n := PairToIndex(width, i + d.0, j + d.1);
        if n in tail {
          CandidateOffset(width, height, i, j, offsets[1..], n);
          PairRoundTrip(width, i + d.0, j + d.1);
          assert false;
        }
        var r := [n] + tail;
        assert Candidates(width, height, i, j, offsets) == r;
        forall a, b | 0 <= a < b < |r| ensures r[a] != r[b] {
          if a == 0 {
            assert r[b] == tail[b - 1];
          } else {
            assert r[a] == tail[a - 1] && r[b] == tail[b - 1];
          }
        }
      }
    }
  }

  /** The offsets in the table are exactly the eight non-zero steps of at most one row and one column. */
  lemma OffsetsAreTheEightSteps(d: (int, int))
    ensures d in Offsets <==> d != (0, 0) && -1 <= d.0 <= 1 && -1 <= d.1 <= 1
  {
  }

  /** For a coordinate within bounds, the source's guard holds exactly when the step stays within bounds. */
  lemma CanStepInRange(x: nat, d: int, bound: nat)
    requires x < bound && -1 <= d <= 1
    ensures CanStep(x, d, bound) <==> 0 <= x + d < bound
  {
  }

  /** Each neighbour of a tile on the board is on the board and adjacent to it. */
  lemma NeighbourIsAdjacent(width: nat, height: nat, id: nat, n: nat)
    requires width > 0 && id < width * height
    requires n in Neighbours(width, height, id)
    ensures n < width * height && Adjacent(width, id, n)
  {
    var p := IndexToPair(width, id);
    var q := IndexToPair(width, n);
    IndexRoundTrip(width, height, id);
    CandidateOffset(width, height, p.0, p.1, Offsets, n);
    OffsetsAreTheEightSteps((q.0 as int - p.0, q.1 as int - p.1));
    PairInBoard(width, height, q.0, q.1);
  }

  /** Each tile on the board adjacent to a tile on the board is among its neighbours. */
  lemma AdjacentIsNeighbour(width: nat, height: nat, id: nat, n: nat)
    requires width > 0 && id < width * height
    requires n < width * height && Adjacent(width, id, n)
    ensures n in Neighbours(width, height, id)
  {
    var p := IndexToPair(width, id);
    var q := IndexToPair(width, n);
    var d: (int, int) := (q.0 as int - p.0, q.1 as int - p.1);
    IndexRoundTrip(width, height, id);
    IndexRoundTrip(width, height, n);
    OffsetsAreTheEightSteps(d);
    CanStepInRange(p.0, d.0, height);
    CanStepInRange(p.1, d.1, width);
    OffsetCandidate(width, height, p.0, p.1, Offsets, d);
  }

  /**
   * For a tile on the board, `Neighbours` holds exactly the tiles on the board adjacent to it:
   * none equals the tile itself, each is at most one row and one column away, and every such tile is there.
   */
  lemma NeighboursSpec(width: nat, height: nat, id: nat, n: nat)
    requires width > 0 && id < width * height
    ensures n in Neighbours(width, height, id) <==> n < width * height && Adjacent(width, id, n)
  {
    if n in Neighbours(width, height, id) {
      NeighbourIsAdjacent(width, height, id, n);
    }
    if n < width * height && Adjacent(width, id, n) {
      AdjacentIsNeighbour(width, height, id, n);
    }
  }

  /** Every neighbour of a tile on the board is on the board. */
  lemma NeighboursBounded(width: nat, height: nat, id: nat)
    requires width > 0 && id < width * height
    ensures forall n :: n in Neighbours(width, height, id) ==> n < width * height
  {
    forall n | n in Neighbours(width, height, id) ensures n < width * height {
      NeighboursSpec(width, height, id, n);
    }
  }

  /** No tile is listed twice among the neighbours, whatever the index. */
  lemma NeighboursDistinct(width: nat, height: nat, id: nat)
    requires width > 0
    ensures Distinct(Neighbours(width, height, id))
  {
    var p := IndexToPair(width, id);
    CandidatesDistinct(width, height, p.0, p.1, Offsets);
  }

  /** Neighbourhood is symmetric on the board. */
  lemma NeighboursSymmetric(width: nat, height: nat, a: nat, b: nat)
    requires width > 0 && a < width * height
    requires b in Neighbours(width, height, a)
    ensures a in Neighbours(width, height, b)
  {
    NeighboursSpec(width, height, a, b);
    NeighboursSpec(width, height, b, a);
  }
}
