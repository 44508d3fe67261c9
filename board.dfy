/**
 * The tiles of a Minesweeper board, counting over them, and the classification of a
 * tile as a mine or as the number of mined tiles around it.
 */
module Board {
  import opened Grid

  /** One cell: whether it holds a mine, is still hidden, carries a flag, and its index. */
  datatype Tile = Tile(mined: bool, hidden: bool, marked: bool, id: nat)

  /** What a tile shows once revealed. The source stores the hint in a byte; it never exceeds 8. */
  datatype MineOrHint = Hint(h: nat) | Mine

  /** The three per-tile flags, so that one count serves all of them. */
  datatype Flag = Mined | Hidden | Marked

  predicate Has(t: Tile, f: Flag)
  {
    match f
    case Mined => t.mined
    case Hidden => t.hidden
    case Marked => t.marked
  }

  /** The number of tiles of `b` that carry flag `f`. */
  function Count(b: seq<Tile>, f: Flag): (n: nat)
    ensures n <= |b|
  {
    if b == [] then 0 else (if Has(b[0], f) then 1 else 0) + Count(b[1..], f)
  }

  /** Replacing one tile changes the count by what the old and the new tile contribute. */
  lemma {:induction false} CountUpdate(b: seq<Tile>, k: nat, t: Tile, f: Flag)
    requires k < |b|
    ensures Count(b[k := t], f) == Count(b, f) - (if Has(b[k], f) then 1 else 0) + (if Has(t, f) then 1 else 0)
  {
    if k == 0 {
      assert b[k := t][1..] == b[1..];
    } else {
      assert b[k := t][1..] == b[1..][k - 1 := t];
      CountUpdate(b[1..], k - 1, t, f);
    }
  }

  /** A board on which a flag holds at fewer places has no larger count. */
  lemma {:induction false} CountMonotone(b: seq<Tile>, c: seq<Tile>, f: Flag)
    requires |b| == |c|
    requires forall k :: 0 <= k < |c| && Has(c[k], f) ==> Has(b[k], f)
    ensures Count(c, f) <= Count(b, f)
  {
    if b != [] {
      assert forall k :: 0 <= k < |c| - 1 && Has(c[1..][k], f) ==> Has(b[1..][k], f) by {
        forall k | 0 <= k < |c| - 1 && Has(c[1..][k], f) ensures Has(b[1..][k], f) {
          assert c[1..][k] == c[k + 1] && b[1..][k] == b[k + 1];
        }
      }
      CountMonotone(b[1..], c[1..], f);
    }
  }

  /** Boards on which a flag holds at the same places have the same count. */
  lemma CountSame(b: seq<Tile>, c: seq<Tile>, f: Flag)
    requires |b| == |c|
    requires forall k :: 0 <= k < |c| ==> Has(c[k], f) == Has(b[k], f)
    ensures Count(c, f) == Count(b, f)
  {
    CountMonotone(b, c, f);
    CountMonotone(c, b, f);
  }

  /** A flag that holds nowhere counts zero. */
  lemma {:induction false} CountNone(b: seq<Tile>, f: Flag)
    requires forall k :: 0 <= k < |b| ==> !Has(b[k], f)
    ensures Count(b, f) == 0
  {
    if b != [] {
      assert forall k :: 0 <= k < |b| - 1 ==> b[1..][k] == b[k + 1];
      CountNone(b[1..], f);
    }
  }

  /** The indices a sampler without replacement returns: distinct, each below `n`. */
  predicate Sample(sample: seq<nat>, n: nat)
  {
    Distinct(sample) && forall s :: s in sample ==> s < n
  }

  /**
   * When the mined tiles are exactly the entries of a sample of distinct indices on the board,
   * the board holds as many mines as the sample has entries.
   */
  lemma {:induction false} CountSampled(b: seq<Tile>, sample: seq<nat>)
    requires Sample(sample, |b|)
    requires forall k :: 0 <= k < |b| ==> (b[k].mined <==> k in sample)
    ensures Count(b, Mined) == |sample|
    decreases |sample|
  {
    if sample == [] {
      CountNone(b, Mined);
    } else {
      var last := sample[|sample| - 1];
      var rest := sample[..|sample| - 1];
      assert last in sample;
      assert sample == rest + [last];
      var c := b[last := b[last].(mined := false)];
      CountUpdate(b, last, b[last].(mined := false), Mined);
      assert last !in rest;
      assert Distinct(rest) by {
        forall a, a' | 0 <= a < a' < |rest| ensures rest[a] != rest[a'] {
          assert rest[a] == sample[a] && rest[a'] == sample[a'];
        }
      }
      forall k | 0 <= k < |c| ensures c[k].mined <==> k in rest {
        if k != last {
          assert k in sample <==> k in rest;
        }
      }
      forall s | s in rest ensures s < |c| {
        assert s in sample;
      }
      CountSampled(c, rest);
    }
  }

  /** Every index of `ns` addresses a tile of `b`. */
  predicate OnBoard(b: seq<Tile>, ns: seq<nat>)
  {
    forall a :: 0 <= a < |ns| ==> ns[a] < |b|
  }

  /** The number of mined tiles among the indices `ns`, accumulated one index at a time. */
  function CountMined(b: seq<Tile>, ns: seq<nat>): (c: nat)
    requires OnBoard(b, ns)
    ensures c <= |ns|
  {
    if ns == [] then 0 else (if b[ns[0]].mined then 1 else 0) + CountMined(b, ns[1..])
  }

  /** The set of mined tiles among the indices `ns`. */
  function MinedAmong(b: seq<Tile>, ns: seq<nat>): set<nat>
  {
    set n | n in ns && n < |b| && b[n].mined
  }

  /** Over distinct indices, the accumulated count is the number of mined tiles among them. */
  lemma {:induction false} CountMinedIsCard(b: seq<Tile>, ns: seq<nat>)
    requires OnBoard(b, ns) && Distinct(ns)
    ensures CountMined(b, ns) == |MinedAmong(b, ns)|
  {
    if ns != [] {
      var tail := ns[1..];
      assert Distinct(tail) by {
        forall a, a' | 0 <= a < a' < |tail| ensures tail[a] != tail[a'] {
          assert tail[a] == ns[a + 1] && tail[a'] == ns[a' + 1];
        }
      }
      CountMinedIsCard(b, tail);
      assert ns[0] !in tail;
      var head := if b[ns[0]].mined then {ns[0]} else {};
      assert MinedAmong(b, ns) == head + MinedAmong(b, tail);
      assert head !! MinedAmong(b, tail);
    }
  }

  /** Two boards with their mines in the same places. */
  predicate SameMines(b: seq<Tile>, c: seq<Tile>)
  {
    |b| == |c| && forall k :: 0 <= k < |b| ==> b[k].mined == c[k].mined
  }

  lemma {:induction false} CountMinedFrame(b: seq<Tile>, c: seq<Tile>, ns: seq<nat>)
    requires SameMines(b, c) && OnBoard(b, ns)
    ensures CountMined(b, ns) == CountMined(c, ns)
  {
    if ns != [] {
      CountMinedFrame(b, c, ns[1..]);
    }
  }

  /**
   * The classification of tile `id` (mine_or_hint): Mine exactly when the tile is mined;
   * otherwise the number of mined tiles among its neighbours, which is at most 8.
   */
  function Classify(b: seq<Tile>, width: nat, height: nat, id: nat): (r: MineOrHint)
    requires |b| == width * height && id < |b|
    ensures r.Mine? <==> b[id].mined
    ensures r.Hint? ==> r.h == |MinedAmong(b, Neighbours(width, height, id))| && r.h <= 8
  {
    NeighboursOnBoard(b, width, height, id);
    var ns := Neighbours(width, height, id);
    CountMinedIsCard(b, ns);
    if !b[id].mined then Hint(CountMined(b, ns)) else Mine
  }

  /** The neighbours of a tile of a width * height board are distinct tiles of that board. */
  lemma NeighboursOnBoard(b: seq<Tile>, width: nat, height: nat, id: nat)
    requires |b| == width * height && id < |b|
    ensures width > 0
    ensures OnBoard(b, Neighbours(width, height, id)) && Distinct(Neighbours(width, height, id))
  {
    NeighboursBounded(width, height, id);
    NeighboursDistinct(width, height, id);
    var ns := Neighbours(width, height, id);
    forall a | 0 <= a < |ns| ensures ns[a] < |b| {
      assert ns[a] in ns;
    }
  }

  /** The mined tiles of the board at most one row and one column away from tile `id`. */
  function AdjacentMines(b: seq<Tile>, width: nat, id: nat): set<nat>
    requires width > 0
  {
    set n: nat | n < |b| && Adjacent(width, id, n) && b[n].mined
  }

  /** The hint of a safe tile counts exactly the mined tiles adjacent to it by coordinates. */
  lemma HintCountsAdjacentMines(b: seq<Tile>, width: nat, height: nat, id: nat)
    requires width > 0 && |b| == width * height && id < |b| && !b[id].mined
    ensures Classify(b, width, height, id) == Hint(|AdjacentMines(b, width, id)|)
  {
    var ns := Neighbours(width, height, id);
    forall n | n in MinedAmong(b, ns) ensures n in AdjacentMines(b, width, id) {
      NeighboursSpec(width, height, id, n);
    }
    forall n | n in AdjacentMines(b, width, id) ensures n in MinedAmong(b, ns) {
      NeighboursSpec(width, height, id, n);
    }
    assert MinedAmong(b, ns) == AdjacentMines(b, width, id);
  }

  /** The classification reads only the mine layout. */
  lemma ClassifyFrame(b: seq<Tile>, c: seq<Tile>, width: nat, height: nat)
    requires SameMines(b, c) && |b| == width * height
    ensures forall k :: 0 <= k < |b| ==> Classify(b, width, height, k) == Classify(c, width, height, k)
  {
    forall k | 0 <= k < |b| ensures Classify(b, width, height, k) == Classify(c, width, height, k) {
      NeighboursOnBoard(b, width, height, k);
      CountMinedFrame(b, c, Neighbours(width, height, k));
    }
  }

  /** Tile `k` is on the board and has no mined neighbour (and is not itself mined). */
  predicate ZeroHint(b: seq<Tile>, width: nat, height: nat, k: nat)
  {
    |b| == width * height && k < |b| && Classify(b, width, height, k) == Hint(0)
  }

  /** Every neighbour of tile `k` is on the board and revealed. */
  predicate NeighboursRevealed(b: seq<Tile>, width: nat, height: nat, k: nat)
  {
    width > 0 && forall n :: n in Neighbours(width, height, k) ==> n < |b| && !b[n].hidden
  }

  /** No neighbour of a zero-hint tile is mined. */
  lemma ZeroHintNeighbourSafe(b: seq<Tile>, width: nat, height: nat, id: nat, n: nat)
    requires ZeroHint(b, width, height, id)
    requires n in Neighbours(width, height, id)
    ensures n < |b| && !b[n].mined
  {
    NeighboursBounded(width, height, id);
    assert n !in MinedAmong(b, Neighbours(width, height, id));
  }

  /** A neighbour of a mine is a mine or has a hint of at least one. */
  lemma MineNeighbourNotZero(b: seq<Tile>, width: nat, height: nat, id: nat, n: nat)
    requires |b| == width * height && id < |b| && b[id].mined
    requires n in Neighbours(width, height, id)
    ensures !ZeroHint(b, width, height, n)
  {
    NeighboursBounded(width, height, id);
    NeighboursSymmetric(width, height, id, n);
    if !b[n].mined {
      assert id in MinedAmong(b, Neighbours(width, height, n));
    }
  }

  /** The tile a fresh board holds at index `id`: hidden, unmarked, unmined. */
  function EmptyTile(id: nat): Tile
  {
    Tile(false, true, false, id)
  }

  /**
   * gen_empty: a board of width * height tiles, built one tile at a time; the tile at position k
   * has index k and is hidden, unmarked and unmined, so the board holds no mine and no flag.
   */
  method GenEmpty(width: nat, height: nat) returns (b: seq<Tile>)
    ensures |b| == width * height
    ensures forall k :: 0 <= k < |b| ==> b[k].id == k && b[k].hidden && !b[k].marked && !b[k].mined
    ensures Count(b, Mined) == 0 && Count(b, Marked) == 0 && Count(b, Hidden) == |b|
  {
    b := [];
    for id := 0 to width * height
      invariant |b| == id
      invariant forall k :: 0 <= k < id ==> b[k] == EmptyTile(k)
    {
      b := b + [EmptyTile(id)];
    }
    CountNone(b, Mined);
    CountNone(b, Marked);
    CountAll(b, Hidden);
  }

  /** A flag that holds everywhere counts every tile. */
  lemma {:induction false} CountAll(b: seq<Tile>, f: Flag)
    requires forall k :: 0 <= k < |b| ==> Has(b[k], f)
    ensures Count(b, f) == |b|
  {
    if b != [] {
      assert forall k :: 0 <= k < |b| - 1 ==> b[1..][k] == b[k + 1];
      CountAll(b[1..], f);
    }
  }

  /** Every tile sits at its own index, and only a hidden tile carries a flag. */
  predicate WellFormed(b: seq<Tile>)
  {
    forall k :: 0 <= k < |b| ==> b[k].id == k && (b[k].marked ==> b[k].hidden)
  }

  /** Two boards with the same mines and the same indices: only `hidden` and `marked` may differ. */
  predicate SameLayout(b: seq<Tile>, c: seq<Tile>)
  {
    |b| == |c| && forall k :: 0 <= k < |b| ==> b[k].mined == c[k].mined && b[k].id == c[k].id
  }

  /** reveal_all_mines on one tile: a mined tile without a flag is revealed, any other is left alone. */
  function ShowMine(t: Tile): Tile
  {
    if t.mined && !t.marked then t.(hidden := false) else t
  }

  /** The board after reveal_all_mines. */
  function MinesShown(b: seq<Tile>): seq<Tile>
  {
    seq(|b|, k requires 0 <= k < |b| => ShowMine(b[k]))
  }

  /**
   * reveal_all_mines reveals exactly the mined tiles without a flag: every other tile and every
   * other field is kept, so flags, their count and the layout are unchanged.
   */
  lemma MinesShownSpec(b: seq<Tile>)
    ensures SameLayout(b, MinesShown(b))
    ensures forall k :: 0 <= k < |b| ==>
      MinesShown(b)[k].marked == b[k].marked &&
      MinesShown(b)[k].hidden == (b[k].hidden && !(b[k].mined && !b[k].marked))
    ensures WellFormed(b) ==> WellFormed(MinesShown(b))
    ensures Count(MinesShown(b), Marked) == Count(b, Marked)
  {
    CountSame(b, MinesShown(b), Marked);
  }

  /** Revealing all mines twice is the same as revealing them once. */
  lemma MinesShownIdempotent(b: seq<Tile>)
    ensures MinesShown(MinesShown(b)) == MinesShown(b)
  {
  }
}
