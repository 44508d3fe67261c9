/**
 * The game-state engine: a board of tiles plus the progress of the game, changed in place by
 * marking, unmarking and guessing, with the recursive cascade that opens empty regions.
 */
module Engine {
  import opened Grid
  import opened Board

  datatype Winstate = Won | Lost | InProgress

  /** The messages of the update loop that reach the engine; a Reset carries the sampler's draw. */
  datatype Message =
    | Reset(sample: seq<nat>)
    | MarkedPressed(id: nat)
    | MarkedRightClick(id: nat)
    | EmptyPressed(id: nat)
    | HiddenRightClick(id: nat)

  /** The win test of guess: every tile without a mine is revealed. */
  predicate AllSafeRevealed(b: seq<Tile>)
  {
    forall k :: 0 <= k < |b| && !b[k].mined ==> !b[k].hidden
  }

  /**
   * Board `c` follows from board `b` by revealing tiles: mines and indices are kept, no tile is
   * hidden again, and a flag survives exactly on the flagged tiles that are still hidden.
   */
  predicate Reveals(b: seq<Tile>, c: seq<Tile>)
  {
    SameLayout(b, c) &&
    forall k :: 0 <= k < |b| ==> (c[k].hidden ==> b[k].hidden) && c[k].marked == (b[k].marked && c[k].hidden)
  }

  /** Every neighbour of tile `id` that has no mined neighbour is revealed. */
  predicate NeighboursZeroRevealed(b: seq<Tile>, width: nat, height: nat, id: nat)
  {
    width > 0 &&
    forall n :: n in Neighbours(width, height, id) && ZeroHint(b, width, height, n) ==> !b[n].hidden
  }

  /** Every neighbour of tile `id` that holds no mine is revealed. */
  predicate NeighboursSafeRevealed(b: seq<Tile>, width: nat, height: nat, id: nat)
  {
    width > 0 &&
    forall n :: n in Neighbours(width, height, id) ==> n < |b| && (!b[n].mined ==> !b[n].hidden)
  }

  /** Each zero-hint tile revealed between `b` and `c` has all its neighbours revealed in `c`. */
  predicate ZeroTilesOpened(b: seq<Tile>, c: seq<Tile>, width: nat, height: nat)
  {
    |b| == |c| &&
    forall k :: 0 <= k < |c| && b[k].hidden && !c[k].hidden && ZeroHint(c, width, height, k) ==>
      NeighboursRevealed(c, width, height, k)
  }

  /** Between `b` and `c` no mined tile changed at all. */
  predicate MinesUntouched(b: seq<Tile>, c: seq<Tile>)
  {
    |b| == |c| && forall k :: 0 <= k < |c| && c[k].mined ==> c[k] == b[k]
  }

  /**
   * A chain the cascade from `id` can travel: `p` starts at a neighbour of `id`, each of its
   * tiles is a neighbour of the one before, and every one of them has a zero hint.
   */
  ghost predicate ZeroChain(b: seq<Tile>, width: nat, height: nat, id: nat, p: seq<nat>)
  {
    && width > 0 && |p| > 0 && p[0] in Neighbours(width, height, id)
    && (forall i :: 0 <= i < |p| ==> ZeroHint(b, width, height, p[i]))
    && (forall i :: 0 < i < |p| ==> p[i] in Neighbours(width, height, p[i - 1]))
  }

  /**
   * The tiles the cascade from `id` may reveal on a board with the mines of `b`: a neighbour of
   * `id` that passes one of the loop's three tests (it has a zero hint; `check` is set and it is
   * safe; `id` has a zero hint), or a neighbour of the last tile of a zero chain from `id`.
   */
  ghost predicate MayReveal(b: seq<Tile>, width: nat, height: nat, id: nat, check: bool, k: nat)
  {
    width > 0 &&
    (|| (k in Neighbours(width, height, id) &&
         (ZeroHint(b, width, height, k) || (check && k < |b| && !b[k].mined) || ZeroHint(b, width, height, id)))
     || exists p :: ReachedBy(b, width, height, id, p, k))
  }

  /** Tile `k` neighbours the last tile of the zero chain `p` from `id`. */
  ghost predicate ReachedBy(b: seq<Tile>, width: nat, height: nat, id: nat, p: seq<nat>, k: nat)
  {
    ZeroChain(b, width, height, id, p) && k in Neighbours(width, height, p[|p| - 1])
  }

  /** Every tile hidden in `b1` and revealed in `c` is one the cascade from `id` may reveal on the mines of `b`. */
  ghost predicate RevealedWithin(b: seq<Tile>, b1: seq<Tile>, c: seq<Tile>, width: nat, height: nat, id: nat, check: bool)
  {
    |b1| == |c| &&
    forall k :: 0 <= k < |c| && b1[k].hidden && !c[k].hidden ==> MayReveal(b, width, height, id, check, k)
  }

  /** What a cascade from a zero-hint neighbour `z` of `id` may reveal, the cascade from `id` may reveal too. */
  lemma ChainExtends(b: seq<Tile>, width: nat, height: nat, id: nat, check: bool, z: nat, k: nat)
    requires width > 0 && z in Neighbours(width, height, id) && ZeroHint(b, width, height, z)
    requires MayReveal(b, width, height, z, true, k)
    ensures MayReveal(b, width, height, id, check, k)
  {
    if k in Neighbours(width, height, z) {
      assert ReachedBy(b, width, height, id, [z], k);
    } else {
      var p :| ReachedBy(b, width, height, z, p, k);
      ChainPrepend(b, width, height, id, z, p);
      assert ([z] + p)[|p|] == p[|p| - 1];
      assert ReachedBy(b, width, height, id, [z] + p, k);
    }
  }

  /** A zero chain from a zero-hint neighbour `z` of `id`, with `z` put in front, is a zero chain from `id`. */
  lemma ChainPrepend(b: seq<Tile>, width: nat, height: nat, id: nat, z: nat, p: seq<nat>)
    requires width > 0 && z in Neighbours(width, height, id) && ZeroHint(b, width, height, z)
    requires ZeroChain(b, width, height, z, p)
    ensures ZeroChain(b, width, height, id, [z] + p)
  {
    var q := [z] + p;
    forall i | 0 < i < |q| ensures q[i] in Neighbours(width, height, q[i - 1]) {
      assert q[i] == p[i - 1];
    }
  }

  /** What the cascade may reveal depends only on where the mines are. */
  lemma MayRevealFrame(b: seq<Tile>, c: seq<Tile>, width: nat, height: nat, id: nat, check: bool, k: nat)
    requires SameMines(b, c) && |b| == width * height
    requires MayReveal(c, width, height, id, check, k)
    ensures MayReveal(b, width, height, id, check, k)
  {
    ClassifyFrame(b, c, width, height);
    if exists p :: ReachedBy(c, width, height, id, p, k) {
      var p :| ReachedBy(c, width, height, id, p, k);
      ZeroChainFrame(b, c, width, height, id, p);
      assert ReachedBy(b, width, height, id, p, k);
    }
  }

  lemma ZeroChainFrame(b: seq<Tile>, c: seq<Tile>, width: nat, height: nat, id: nat, p: seq<nat>)
    requires SameMines(b, c) && |b| == width * height
    requires ZeroChain(c, width, height, id, p)
    ensures ZeroChain(b, width, height, id, p)
  {
    ClassifyFrame(b, c, width, height);
  }

  /** Board `b` after unmark_and_unhide on tile `t`. */
  function Open(b: seq<Tile>, t: nat): seq<Tile>
    requires t < |b|
  {
    b[t := b[t].(marked := false, hidden := false)]
  }

  lemma MinesUntouchedTrans(a: seq<Tile>, b: seq<Tile>, c: seq<Tile>)
    requires MinesUntouched(a, b) && MinesUntouched(b, c)
    ensures MinesUntouched(a, c)
  {
  }

  lemma RevealsTrans(a: seq<Tile>, b: seq<Tile>, c: seq<Tile>)
    requires Reveals(a, b) && Reveals(b, c)
    ensures Reveals(a, c)
  {
  }

  lemma NeighboursRevealedMonotone(b: seq<Tile>, c: seq<Tile>, width: nat, height: nat, k: nat)
    requires Reveals(b, c) && NeighboursRevealed(b, width, height, k)
    ensures NeighboursRevealed(c, width, height, k)
  {
  }

  /** Revealing tiles is transitive, and so is opening the neighbourhood of every zero-hint tile revealed. */
  lemma OpenedCompose(a: seq<Tile>, b: seq<Tile>, c: seq<Tile>, width: nat, height: nat)
    requires |a| == width * height && Reveals(a, b) && Reveals(b, c)
    requires ZeroTilesOpened(a, b, width, height) && ZeroTilesOpened(b, c, width, height)
    ensures Reveals(a, c) && ZeroTilesOpened(a, c, width, height)
  {
    RevealsTrans(a, b, c);
    ClassifyFrame(b, c, width, height);
    forall k | 0 <= k < |c| && a[k].hidden && !c[k].hidden && ZeroHint(c, width, height, k)
      ensures NeighboursRevealed(c, width, height, k)
    {
      if !b[k].hidden {
        NeighboursRevealedMonotone(b, c, width, height, k);
      }
    }
  }

  /** Opening a tile of a well-formed board reveals it and keeps the board well formed. */
  lemma OpenReveals(b: seq<Tile>, t: nat)
    requires WellFormed(b) && t < |b|
    ensures Reveals(b, Open(b, t)) && WellFormed(Open(b, t))
  {
  }

  /** reveal_all_mines on a well-formed board reveals tiles and leaves every safe tile alone. */
  lemma ShownReveals(b: seq<Tile>)
    requires WellFormed(b)
    ensures Reveals(b, MinesShown(b)) && WellFormed(MinesShown(b))
    ensures forall k :: 0 <= k < |b| && !b[k].mined ==> MinesShown(b)[k] == b[k]
  {
  }

  /** Opening one tile reveals it; it leaves no obligation when it was open already or has a mined neighbour. */
  lemma OpenOne(b: seq<Tile>, t: nat, width: nat, height: nat)
    requires |b| == width * height && WellFormed(b) && t < |b| && !b[t].mined
    requires !b[t].hidden || !ZeroHint(b, width, height, t)
    ensures Reveals(b, Open(b, t)) && MinesUntouched(b, Open(b, t))
    ensures ZeroTilesOpened(b, Open(b, t), width, height)
  {
    ClassifyFrame(b, Open(b, t), width, height);
  }

  /** Opening a tile and then cascading from it opens the neighbourhood of every zero-hint tile revealed. */
  lemma OpenThenCascade(b: seq<Tile>, c: seq<Tile>, t: nat, width: nat, height: nat)
    requires |b| == width * height && WellFormed(b) && t < |b|
    requires Reveals(Open(b, t), c) && ZeroTilesOpened(Open(b, t), c, width, height)
    requires ZeroHint(c, width, height, t) ==> NeighboursRevealed(c, width, height, t)
    ensures Reveals(b, c) && ZeroTilesOpened(b, c, width, height)
  {
    RevealsTrans(b, Open(b, t), c);
  }

  /** reveal_all_mines reveals only mines, so it leaves no zero-hint tile with a hidden neighbour behind. */
  lemma ShowStep(b: seq<Tile>, width: nat, height: nat)
    requires |b| == width * height && WellFormed(b)
    ensures Reveals(b, MinesShown(b)) && ZeroTilesOpened(b, MinesShown(b), width, height)
    ensures forall k :: 0 <= k < |b| && !b[k].mined ==> MinesShown(b)[k] == b[k]
  {
    MinesShownSpec(b);
    ClassifyFrame(b, MinesShown(b), width, height);
  }

  /** Revealing more tiles keeps the zero-hint neighbours of a tile revealed. */
  lemma ZeroNeighboursMonotone(b: seq<Tile>, c: seq<Tile>, width: nat, height: nat, id: nat)
    requires |b| == width * height && Reveals(b, c) && NeighboursZeroRevealed(b, width, height, id)
    ensures NeighboursZeroRevealed(c, width, height, id)
  {
    ClassifyFrame(b, c, width, height);
  }

  /** What the cascade's loop has established once it has visited every neighbour of `id`. */
  lemma CascadeDone(b0: seq<Tile>, b: seq<Tile>, width: nat, height: nat, id: nat, check: bool)
    requires |b0| == width * height && id < |b0| && Reveals(b0, b)
    requires width > 0 && OnBoard(b0, Neighbours(width, height, id))
    requires var ns := Neighbours(width, height, id);
      && (forall s :: 0 <= s < |ns| ==> ZeroHint(b0, width, height, ns[s]) ==> !b[ns[s]].hidden)
      && (check ==> forall s :: 0 <= s < |ns| ==> !b0[ns[s]].mined ==> !b[ns[s]].hidden)
      && (ZeroHint(b0, width, height, id) ==> forall s :: 0 <= s < |ns| ==> !b[ns[s]].hidden)
    ensures NeighboursZeroRevealed(b, width, height, id)
    ensures check ==> NeighboursSafeRevealed(b, width, height, id)
    ensures ZeroHint(b, width, height, id) ==> NeighboursRevealed(b, width, height, id)
  {
    NeighboursOnBoard(b0, width, height, id);
    ClassifyFrame(b0, b, width, height);
    var ns := Neighbours(width, height, id);
    forall n | n in ns ensures exists s :: 0 <= s < |ns| && ns[s] == n {
      var s :| 0 <= s < |ns| && ns[s] == n;
    }
  }

  /**
   * The boards of one guess on tile `id`: `b0` before it, `b3` after the cascade, `b` at the end.
   * Guess reveals tiles only, the guessed tile among them, and a guess on a mine changes no safe tile.
   */
  lemma GuessReveals(b0: seq<Tile>, b3: seq<Tile>, b: seq<Tile>, id: nat)
    requires WellFormed(b0) && id < |b0| && !b0[id].marked
    requires var b2 := if b0[id].mined then MinesShown(Open(b0, id)) else Open(b0, id);
      Reveals(b2, b3) && MinesUntouched(b2, b3) && (b0[id].mined ==> b3 == b2)
    requires b == if AllSafeRevealed(b3) then MinesShown(b3) else b3
    ensures Reveals(b0, b) && !b[id].hidden
    ensures AllSafeRevealed(b) == AllSafeRevealed(b3)
    ensures b0[id].mined ==> forall k :: 0 <= k < |b| && !b[k].mined ==> b[k] == b0[k]
  {
    var b1 := Open(b0, id);
    var b2 := if b0[id].mined then MinesShown(b1) else b1;
    OpenReveals(b0, id);
    ShownReveals(b1);
    RevealsTrans(b0, b1, b2);
    RevealsTrans(b0, b2, b3);
    assert WellFormed(b3);
    ShownReveals(b3);
    RevealsTrans(b0, b3, b);
    assert AllSafeRevealed(b) == AllSafeRevealed(b3) by {
      forall k | 0 <= k < |b| && !b[k].mined ensures b[k] == b3[k] { }
    }
  }

  /** Which mines a guess leaves hidden: those hidden before, other than `id`, and flagged before the guess once the game has ended. */
  lemma GuessHidesMines(b0: seq<Tile>, b3: seq<Tile>, b: seq<Tile>, id: nat)
    requires WellFormed(b0) && id < |b0| && !b0[id].marked
    requires var b2 := if b0[id].mined then MinesShown(Open(b0, id)) else Open(b0, id);
      Reveals(b2, b3) && MinesUntouched(b2, b3) && (b0[id].mined ==> b3 == b2)
    requires b == if AllSafeRevealed(b3) then MinesShown(b3) else b3
    ensures var ended := b0[id].mined || AllSafeRevealed(b3);
      forall k :: 0 <= k < |b| && b[k].mined ==>
        b[k].hidden == (b0[k].hidden && k != id && (b0[k].marked || !ended))
  {
    var b1 := Open(b0, id);
    var b2 := if b0[id].mined then MinesShown(b1) else b1;
    MinesShownSpec(b1);
    MinesShownSpec(b3);
    var ended := b0[id].mined || AllSafeRevealed(b3);
    forall k | 0 <= k < |b| && b[k].mined
      ensures b[k].hidden == (b0[k].hidden && k != id && (b0[k].marked || !ended))
    {
      assert b3[k] == b2[k];
      if k != id {
        assert b1[k] == b0[k];
      }
    }
  }

  /** After a guess on `id`, its zero-hint neighbours are revealed and so is the neighbourhood of every zero-hint tile the guess revealed. */
  lemma GuessOpens(b0: seq<Tile>, b3: seq<Tile>, b: seq<Tile>, width: nat, height: nat, id: nat)
    requires |b0| == width * height && WellFormed(b0) && id < |b0| && !b0[id].marked
    requires var b2 := if b0[id].mined then MinesShown(Open(b0, id)) else Open(b0, id);
      && Reveals(b2, b3) && MinesUntouched(b2, b3) && ZeroTilesOpened(b2, b3, width, height)
      && (b0[id].mined ==> b3 == b2)
    requires NeighboursZeroRevealed(b3, width, height, id)
    requires ZeroHint(b3, width, height, id) ==> NeighboursRevealed(b3, width, height, id)
    requires b == if AllSafeRevealed(b3) then MinesShown(b3) else b3
    ensures NeighboursZeroRevealed(b, width, height, id)
    ensures ZeroTilesOpened(b0, b, width, height)
  {
    var b1 := Open(b0, id);
    var b2 := if b0[id].mined then MinesShown(b1) else b1;
    if b0[id].mined {
      ShowStep(b1, width, height);
    } else {
      assert Reveals(b1, b2) && ZeroTilesOpened(b1, b2, width, height);
    }
    OpenedCompose(b1, b2, b3, width, height);
    OpenThenCascade(b0, b3, id, width, height);
    if AllSafeRevealed(b3) {
      ShowStep(b3, width, height);
    } else {
      assert Reveals(b3, b) && ZeroTilesOpened(b3, b, width, height);
    }
    ZeroNeighboursMonotone(b3, b, width, height, id);
    OpenedCompose(b0, b3, b, width, height);
  }

  /** A guess on `id` reveals no safe tile other than `id` that the cascade from `id` may not reveal. */
  lemma GuessBounded(b0: seq<Tile>, b3: seq<Tile>, b: seq<Tile>, width: nat, height: nat, id: nat)
    requires |b0| == width * height && id < |b0|
    requires var b2 := if b0[id].mined then MinesShown(Open(b0, id)) else Open(b0, id);
      SameLayout(b2, b3) && RevealedWithin(b2, b2, b3, width, height, id, false)
    requires b == if AllSafeRevealed(b3) then MinesShown(b3) else b3
    ensures forall k :: 0 <= k < |b| && b0[k].hidden && !b[k].hidden && !b[k].mined ==>
      k == id || MayReveal(b0, width, height, id, false, k)
  {
    var b1 := Open(b0, id);
    var b2 := if b0[id].mined then MinesShown(b1) else b1;
    forall k | 0 <= k < |b| && b0[k].hidden && !b[k].hidden && !b[k].mined && k != id
      ensures MayReveal(b0, width, height, id, false, k)
    {
      assert b[k] == b3[k];
      assert b2[k] == b0[k];
      MayRevealFrame(b0, b2, width, height, id, false, k);
    }
  }

  /**
   * What a guess on tile `id` promises, from board `b0`, ended flag `e0` and outcome `w0` to
   * board `b`, `e` and `w`. Tiles are only revealed, `id` among them. A mine stays hidden exactly
   * when it was hidden, is not `id`, and was flagged before the guess or the game goes on. The safe tiles revealed
   * besides `id` are ones the cascade from `id` may reveal; a guess on a mine changes no safe tile.
   * A mine ends the game, as won if every safe tile is now revealed and as lost otherwise; every
   * safe tile revealed ends it as won; otherwise the flag and outcome are kept. The zero-hint
   * neighbours of `id` and the neighbourhood of every zero-hint tile revealed end up revealed.
   */
  ghost predicate Guessed(b0: seq<Tile>, b: seq<Tile>, width: nat, height: nat, id: nat,
                          e0: bool, w0: Winstate, e: bool, w: Winstate)
  {
    && id < |b0| && Reveals(b0, b) && !b[id].hidden
    && (var ended := b0[id].mined || AllSafeRevealed(b);
        forall k :: 0 <= k < |b| && b[k].mined ==> b[k].hidden == (b0[k].hidden && k != id && (b0[k].marked || !ended)))
    && (forall k :: 0 <= k < |b| && b0[k].hidden && !b[k].hidden && !b[k].mined ==>
          k == id || MayReveal(b0, width, height, id, false, k))
    && (b0[id].mined ==> forall k :: 0 <= k < |b| && !b[k].mined ==> b[k] == b0[k])
    && (b0[id].mined ==> e && w == (if AllSafeRevealed(b) then Won else Lost))
    && (AllSafeRevealed(b) ==> e && w == Won)
    && (!b0[id].mined && !AllSafeRevealed(b) ==> e == e0 && w == w0)
    && NeighboursZeroRevealed(b, width, height, id)
    && ZeroTilesOpened(b0, b, width, height)
  }

  /** What the cascade's loop keeps from board `b0` to board `b` once it has visited the first `t` neighbours of `id`. */
  ghost predicate Swept(b0: seq<Tile>, b: seq<Tile>, width: nat, height: nat, id: nat, check: bool, t: nat)
  {
    && |b0| == width * height && id < |b0| && width > 0
    && OnBoard(b0, Neighbours(width, height, id)) && t <= |Neighbours(width, height, id)|
    && Reveals(b0, b) && MinesUntouched(b0, b) && ZeroTilesOpened(b0, b, width, height)
    && Count(b, Hidden) <= Count(b0, Hidden)
    && var ns := Neighbours(width, height, id);
    && (forall s :: 0 <= s < t ==> ZeroHint(b0, width, height, ns[s]) ==> !b[ns[s]].hidden)
    && (check ==> forall s :: 0 <= s < t ==> !b0[ns[s]].mined ==> !b[ns[s]].hidden)
    && (ZeroHint(b0, width, height, id) ==> forall s :: 0 <= s < t ==> !b[ns[s]].hidden)
    && (b0[id].mined && !check ==> b == b0)
    && RevealedWithin(b0, b0, b, width, height, id, check)
  }

  /** What one visit of the hidden neighbour `tile2` of `id` does, from board `b1` to board `b`, when the cascade started at `b0`. */
  ghost predicate Visited(b0: seq<Tile>, b1: seq<Tile>, b: seq<Tile>, width: nat, height: nat, id: nat, tile2: nat, check: bool)
  {
    && id < |b0| && tile2 < |b0|
    && Reveals(b0, b) && MinesUntouched(b0, b) && Reveals(b1, b)
    && Count(b, Hidden) <= Count(b0, Hidden)
    && (ZeroHint(b0, width, height, tile2) ==> !b[tile2].hidden)
    && (check && !b0[tile2].mined ==> !b[tile2].hidden)
    && (ZeroHint(b0, width, height, id) ==> !b[tile2].hidden)
    && ZeroTilesOpened(b0, b, width, height)
    && (b0[id].mined && !check ==> b == b1)
    && RevealedWithin(b0, b1, b, width, height, id, check)
    && (!ZeroHint(b0, width, height, tile2) && !(check && !b0[tile2].mined) && !ZeroHint(b0, width, height, id) ==> b == b1)
  }

  /** One turn of the cascade's loop extends what it has swept by one neighbour. */
  lemma SweepStep(b0: seq<Tile>, b1: seq<Tile>, b: seq<Tile>, width: nat, height: nat, id: nat, check: bool, t: nat)
    requires Swept(b0, b1, width, height, id, check, t) && t < |Neighbours(width, height, id)|
    requires var tile2 := Neighbours(width, height, id)[t];
      if b1[tile2].hidden then Visited(b0, b1, b, width, height, id, tile2, check) else b == b1
    ensures Swept(b0, b, width, height, id, check, t + 1)
  {
  }

  /** Opening `t` on board `b1` and cascading from it reveals `t` and otherwise what the cascade from `t` may reveal. */
  lemma CascadeFromBounded(b0: seq<Tile>, b1: seq<Tile>, b: seq<Tile>, width: nat, height: nat, t: nat)
    requires |b0| == width * height && SameMines(b0, b1) && t < |b1|
    requires RevealedWithin(Open(b1, t), Open(b1, t), b, width, height, t, true)
    ensures forall k :: 0 <= k < |b| && b1[k].hidden && !b[k].hidden ==>
      k == t || MayReveal(b0, width, height, t, true, k)
  {
    forall k | 0 <= k < |b| && b1[k].hidden && !b[k].hidden && k != t
      ensures MayReveal(b0, width, height, t, true, k)
    {
      MayRevealFrame(b0, Open(b1, t), width, height, t, true, k);
    }
  }

  /**
   * A visit of neighbour `tile2` of `id` reveals only what the cascade from `id` may reveal:
   * `b1` before it, `b3` after the first half, `b` at the end.
   */
  lemma VisitBounded(b0: seq<Tile>, b1: seq<Tile>, b3: seq<Tile>, b: seq<Tile>, width: nat, height: nat, id: nat, tile2: nat, check: bool)
    requires |b0| == width * height && width > 0 && tile2 in Neighbours(width, height, id)
    requires |b1| == |b0| && |b3| == |b0| && tile2 < |b0| && b1[tile2].hidden
    requires forall k :: 0 <= k < |b3| && b1[k].hidden && !b3[k].hidden ==>
      k == tile2 || (ZeroHint(b0, width, height, tile2) && MayReveal(b0, width, height, tile2, true, k))
    requires !ZeroHint(b0, width, height, tile2) && !(check && !b0[tile2].mined) ==> b3 == b1
    requires b == b3 || (ZeroHint(b0, width, height, id) && b == Open(b3, tile2))
    ensures RevealedWithin(b0, b1, b, width, height, id, check)
  {
    forall k | 0 <= k < |b| && b1[k].hidden && !b[k].hidden
      ensures MayReveal(b0, width, height, id, check, k)
    {
      if k != tile2 {
        ChainExtends(b0, width, height, id, check, tile2, k);
      }
    }
  }

  class Game {
    var board: seq<Tile>
    var hasEnded: bool
    var winstate: Winstate
    var markedCount: nat
    // The configuration the menu holds and Reset reuses.
    var width: nat
    var height: nat
    var mineCount: nat

    /** The object invariant: a width * height board of well-formed tiles, at least as many counted flags as placed ones. */
    ghost predicate Valid()
      reads this
    {
      && |board| == width * height
      && WellFormed(board)
      && Count(board, Marked) <= markedCount
      && (hasEnded ==> winstate != InProgress)
    }

    /** How far marked_count exceeds the number of flagged tiles: zero while the count is kept exactly. */
    ghost function Surplus(): nat
      reads this
      requires Valid()
    {
      markedCount - Count(board, Marked)
    }

    /**
     * A game as the menu starts it: a fresh width * height board with mines on the sampled
     * tiles, nothing flagged, in progress.
     */
    constructor Start(width: nat, height: nat, mineCount: nat, sample: seq<nat>)
      requires |sample| == mineCount && Sample(sample, width * height)
      ensures Valid() && Surplus() == 0
      ensures this.width == width && this.height == height && this.mineCount == mineCount
      ensures forall k :: 0 <= k < |board| ==> board[k] == Tile(k in sample, true, false, k)
      ensures Count(board, Mined) == mineCount
      ensures !hasEnded && winstate == InProgress && markedCount == 0
    {
      this.width, this.height, this.mineCount := width, height, mineCount;
      var b := GenEmpty(width, height);
      board := b;
      hasEnded, winstate, markedCount := false, InProgress, 0;
      new;
      SetMines(sample);
      CountSampled(board, sample);
    }

    /** set_mines: the sampled tiles become mined; nothing else changes. */
    method SetMines(sample: seq<nat>)
      requires Valid() && forall s :: s in sample ==> s < |board|
      modifies this`board
      ensures Valid() && Surplus() == old(Surplus())
      ensures |board| == |old(board)|
      ensures forall k :: 0 <= k < |board| ==> board[k] == old(board[k]).(mined := old(board[k]).mined || k in sample)
    {
      ghost var b0 := board;
      for i := 0 to |sample|
        invariant |board| == |b0|
        invariant forall k :: 0 <= k < |board| ==> board[k] == b0[k].(mined := b0[k].mined || k in sample[..i])
      {
        var id := sample[i];
        assert id in sample;
        assert sample[..i + 1] == sample[..i] + [id];
        board := board[id := board[id].(mined := true)];
      }
      assert sample[..|sample|] == sample;
      CountSame(b0, board, Marked);
    }

    /** reveal_all_mines: every mined tile without a flag is revealed. */
    method RevealAllMines()
      requires Valid()
      modifies this`board
      ensures Valid() && Surplus() == old(Surplus())
      ensures board == MinesShown(old(board))
    {
      ghost var b0 := board;
      for k := 0 to |board|
        invariant |board| == |b0|
        invariant forall j :: 0 <= j < k ==> board[j] == ShowMine(b0[j])
        invariant forall j :: k <= j < |board| ==> board[j] == b0[j]
      {
        if board[k].mined && !board[k].marked {
          board := board[k := board[k].(hidden := false)];
        }
      }
      assert board == MinesShown(b0);
      MinesShownSpec(b0);
    }

    /** mark: flags a hidden, unflagged tile and counts the flag. */
    method Mark(id: nat)
      requires Valid() && id < |board| && board[id].hidden && !board[id].marked
      modifies this`board, this`markedCount
      ensures Valid() && Surplus() == old(Surplus())
      ensures markedCount == old(markedCount) + 1
      ensures board == old(board)[id := old(board[id]).(marked := true)]
    {
      markedCount := markedCount + 1;
      board := board[id := board[id].(marked := true)];
      CountUpdate(old(board), id, board[id], Marked);
    }

    /** unmark: removes the flag of a flagged tile and uncounts it. */
    method Unmark(id: nat)
      requires Valid() && id < |board| && board[id].marked
      modifies this`board, this`markedCount
      ensures Valid() && Surplus() == old(Surplus())
      ensures markedCount == old(markedCount) - 1
      ensures board == old(board)[id := old(board[id]).(marked := false)]
    {
      CountUpdate(board, id, board[id].(marked := false), Marked);
      markedCount := markedCount - 1;
      board := board[id := board[id].(marked := false)];
    }

    /** unmark_and_unhide: removes a flag if there is one (uncounting it) and reveals the tile. */
    method UnmarkAndUnhide(t: nat)
      requires Valid() && t < |board|
      modifies this`board, this`markedCount
      ensures Valid() && Surplus() == old(Surplus())
      ensures board == Open(old(board), t)
      ensures Count(board, Hidden) == old(Count(board, Hidden)) - (if old(board[t].hidden) then 1 else 0)
    {
      if board[t].marked {
        Unmark(t);
      }
      board := board[t := board[t].(hidden := false)];
      var revealed := old(board[t]).(marked := false, hidden := false);
      assert board == old(board)[t := revealed];
      CountUpdate(old(board), t, revealed, Marked);
      CountUpdate(old(board), t, revealed, Hidden);
    }

    /**
     * reveal_empty_and_neighbouring_tiles: for each hidden neighbour of `id`, reveal it when it has
     * no mined neighbour (and recurse from it), when `check` is set and it holds no mine, or when
     * `id` itself has no mined neighbour. It recurses only from a tile it has just revealed, so
     * the number of hidden tiles falls at every recursive call.
     */
    method RevealEmptyAndNeighbouring(id: nat, check: bool)
      requires Valid() && id < |board|
      modifies this`board, this`markedCount
      decreases Count(board, Hidden), 2
      ensures Valid() && Surplus() == old(Surplus())
      ensures Reveals(old(board), board) && MinesUntouched(old(board), board)
      ensures Count(board, Hidden) <= old(Count(board, Hidden))
      ensures NeighboursZeroRevealed(board, width, height, id)
      ensures check ==> NeighboursSafeRevealed(board, width, height, id)
      ensures ZeroHint(board, width, height, id) ==> NeighboursRevealed(board, width, height, id)
      ensures ZeroTilesOpened(old(board), board, width, height)
      ensures old(board[id].mined) && !check ==> board == old(board)
      ensures RevealedWithin(old(board), old(board), board, width, height, id, check)
    {
      NeighboursOnBoard(board, width, height, id);
      var ns := Neighbours(width, height, id);
      ghost var b0 := board;
      for t := 0 to |ns|
        invariant Valid() && Surplus() == old(Surplus())
        invariant Swept(b0, board, width, height, id, check, t)
      {
        var tile2 := ns[t];
        ghost var b1 := board;
        if board[tile2].hidden {
          VisitNeighbour(id, tile2, check, b0);
        }
        SweepStep(b0, b1, board, width, height, id, check, t);
      }
      CascadeDone(b0, board, width, height, id, check);
    }

    /** The body of the cascade's loop for one neighbour `tile2` of `id`, still hidden. */
    method VisitNeighbour(id: nat, tile2: nat, check: bool, ghost b0: seq<Tile>)
      requires Valid() && id < |board| && tile2 < |board| && board[tile2].hidden
      requires tile2 in Neighbours(width, height, id)
      requires Reveals(b0, board) && MinesUntouched(b0, board) && Count(board, Hidden) <= Count(b0, Hidden)
      requires ZeroTilesOpened(b0, board, width, height)
      modifies this`board, this`markedCount
      decreases Count(b0, Hidden), 1
      ensures Valid() && Surplus() == old(Surplus())
      ensures Visited(b0, old(board), board, width, height, id, tile2, check)
    {
      ghost var b1 := board;
      if b0[id].mined {
        MineNeighbourNotZero(b0, width, height, id, tile2);
      }
      OpenNeighbour(tile2, check, b0);
      ghost var b3 := board;
      ClassifyFrame(b0, b3, width, height);
      var c0 := Classify(board, width, height, id);
      if c0.Hint? && c0.h == 0 {
        ZeroHintNeighbourSafe(b0, width, height, id, tile2);
        UnmarkAndUnhide(tile2);
        OpenOne(b3, tile2, width, height);
        OpenedCompose(b0, b3, board, width, height);
        MinesUntouchedTrans(b0, b3, board);
        RevealsTrans(b1, b3, board);
      }
      VisitBounded(b0, b1, b3, board, width, height, id, tile2, check);
    }

    /**
     * The first half of a visit: a hidden neighbour without mined neighbours is revealed and the
     * cascade continues from it; with `check`, a hidden neighbour with a positive hint is revealed.
     */
    method OpenNeighbour(tile2: nat, check: bool, ghost b0: seq<Tile>)
      requires Valid() && tile2 < |board| && board[tile2].hidden
      requires Reveals(b0, board) && MinesUntouched(b0, board) && Count(board, Hidden) <= Count(b0, Hidden)
      requires ZeroTilesOpened(b0, board, width, height)
      modifies this`board, this`markedCount
      decreases Count(b0, Hidden), 0
      ensures Valid() && Surplus() == old(Surplus())
      ensures Reveals(b0, board) && MinesUntouched(b0, board) && Reveals(old(board), board)
      ensures Count(board, Hidden) <= Count(b0, Hidden)
      ensures ZeroTilesOpened(b0, board, width, height)
      ensures ZeroHint(b0, width, height, tile2) ==> !board[tile2].hidden
      ensures check && !b0[tile2].mined ==> !board[tile2].hidden
      ensures forall k :: 0 <= k < |board| && old(board)[k].hidden && !board[k].hidden ==>
        k == tile2 || (ZeroHint(b0, width, height, tile2) && MayReveal(b0, width, height, tile2, true, k))
      ensures !ZeroHint(b0, width, height, tile2) && !(check && !b0[tile2].mined) ==> board == old(board)
    {
      ghost var b1 := board;
      ClassifyFrame(b0, b1, width, height);
      var c := Classify(board, width, height, tile2);
      if c.Hint? {
        if c.h == 0 {
          UnmarkAndUnhide(tile2);
          RevealEmptyAndNeighbouring(tile2, true);
          OpenThenCascade(b1, board, tile2, width, height);
          OpenedCompose(b0, b1, board, width, height);
          MinesUntouchedTrans(b1, Open(b1, tile2), board);
          MinesUntouchedTrans(b0, b1, board);
          CascadeFromBounded(b0, b1, board, width, height, tile2);
        } else if check {
          UnmarkAndUnhide(tile2);
          OpenOne(b1, tile2, width, height);
          OpenedCompose(b0, b1, board, width, height);
          MinesUntouchedTrans(b0, b1, board);
        }
      }
    }

    /**
     * guess: reveals tile `id`; a mine ends the game as lost and reveals the unflagged mines;
     * the cascade then runs from `id`; if afterwards every safe tile is revealed, the game ends
     * as won (even after a loss in the same guess) and the unflagged mines are revealed.
     */
    method Guess(id: nat)
      requires Valid() && id < |board| && !board[id].marked
      modifies this`board, this`markedCount, this`winstate, this`hasEnded
      ensures Valid() && Surplus() == old(Surplus())
      ensures Guessed(old(board), board, width, height, id, old(hasEnded), old(winstate), hasEnded, winstate)
    {
      StepOn(id);
      RevealEmptyAndNeighbouring(id, false);
      ghost var b3 := board;
      CheckWon();
      GuessReveals(old(board), b3, board, id);
      GuessHidesMines(old(board), b3, board, id);
      GuessOpens(old(board), b3, board, width, height, id);
      GuessBounded(old(board), b3, board, width, height, id);
    }

    /** The first half of guess: tile `id` is revealed; a mine ends the game as lost and reveals the unflagged mines. */
    method StepOn(id: nat)
      requires Valid() && id < |board| && !board[id].marked
      modifies this`board, this`winstate, this`hasEnded
      ensures Valid() && Surplus() == old(Surplus()) && markedCount == old(markedCount)
      ensures old(board[id].mined) ==> board == MinesShown(Open(old(board), id)) && hasEnded && winstate == Lost
      ensures !old(board[id].mined) ==>
        board == Open(old(board), id) && hasEnded == old(hasEnded) && winstate == old(winstate)
    {
      board := board[id := board[id].(hidden := false)];
      assert board == Open(old(board), id);
      CountUpdate(old(board), id, board[id], Marked);
      if board[id].mined {
        RevealAllMines();
        winstate := Lost;
        hasEnded := true;
      }
    }

    /** The win test closing guess: once every safe tile is revealed the game ends as won and the unflagged mines are revealed. */
    method CheckWon()
      requires Valid()
      modifies this`board, this`winstate, this`hasEnded
      ensures Valid() && Surplus() == old(Surplus())
      ensures AllSafeRevealed(old(board)) ==> board == MinesShown(old(board)) && hasEnded && winstate == Won
      ensures !AllSafeRevealed(old(board)) ==>
        board == old(board) && hasEnded == old(hasEnded) && winstate == old(winstate)
    {
      if AllSafeRevealed(board) {
        RevealAllMines();
        winstate := Won;
        hasEnded := true;
      }
    }

    /**
     * The Reset arm of update: a fresh board with mines on the sampled tiles and the game no
     * longer ended. winstate and marked_count keep their values.
     */
    method Reset(sample: seq<nat>)
      requires Valid() && |sample| == mineCount && Sample(sample, width * height)
      modifies this`board, this`hasEnded
      ensures Valid() && Surplus() == markedCount
      ensures forall k :: 0 <= k < |board| ==> board[k] == Tile(k in sample, true, false, k)
      ensures Count(board, Mined) == mineCount && Count(board, Marked) == 0
      ensures !hasEnded
    {
      var b := GenEmpty(width, height);
      board := b;
      SetMines(sample);
      hasEnded := false;
      CountSampled(board, sample);
    }

    /** Reset as evidently intended: also clears the flag count and the outcome of the previous game. */
    method Restart(sample: seq<nat>)
      requires Valid() && |sample| == mineCount && Sample(sample, width * height)
      modifies this`board, this`hasEnded, this`winstate, this`markedCount
      ensures Valid() && Surplus() == 0
      ensures forall k :: 0 <= k < |board| ==> board[k] == Tile(k in sample, true, false, k)
      ensures Count(board, Mined) == mineCount
      ensures !hasEnded && winstate == InProgress && markedCount == 0
    {
      Reset(sample);
      winstate := InProgress;
      markedCount := 0;
    }

    /** What the playfield can send in the current state: it offers each action only on tiles in these states. */
    predicate Admissible(msg: Message)
      reads this
    {
      match msg
      case Reset(sample) => |sample| == mineCount && Sample(sample, width * height)
      case MarkedPressed(id) => id < |board| && board[id].marked
      case MarkedRightClick(id) => id < |board| && board[id].marked
      case EmptyPressed(id) => id < |board| && board[id].hidden && !board[id].marked
      case HiddenRightClick(id) => id < |board| && board[id].hidden && !board[id].marked
    }

    /**
     * The game arms of update: Reset always starts a fresh board, keeping the outcome and the flag
     * count as written; the tile messages are ignored once the game has ended, and otherwise
     * unmark, guess or mark the tile.
     */
    method Update(msg: Message)
      requires Valid() && Admissible(msg)
      modifies this`board, this`markedCount, this`winstate, this`hasEnded
      ensures Valid()
      ensures !msg.Reset? ==> Surplus() == old(Surplus())
      ensures msg.Reset? ==>
        && !hasEnded && winstate == old(winstate) && markedCount == old(markedCount) && Surplus() == old(markedCount)
        && (forall k :: 0 <= k < |board| ==> board[k] == Tile(k in msg.sample, true, false, k))
        && Count(board, Mined) == mineCount
      ensures old(hasEnded) && !msg.Reset? ==>
        board == old(board) && markedCount == old(markedCount) && winstate == old(winstate) && hasEnded
      ensures !old(hasEnded) && (msg.MarkedPressed? || msg.MarkedRightClick?) ==>
        board == old(board)[msg.id := old(board[msg.id]).(marked := false)] && markedCount == old(markedCount) - 1
        && hasEnded == old(hasEnded) && winstate == old(winstate)
      ensures !old(hasEnded) && msg.HiddenRightClick? ==>
        board == old(board)[msg.id := old(board[msg.id]).(marked := true)] && markedCount == old(markedCount) + 1
        && hasEnded == old(hasEnded) && winstate == old(winstate)
      ensures !old(hasEnded) && msg.EmptyPressed? ==>
        Guessed(old(board), board, width, height, msg.id, false, old(winstate), hasEnded, winstate)
    {
      match msg
      case Reset(sample) =>
        Reset(sample);
      case MarkedPressed(id) =>
        if !hasEnded { Unmark(id); }
      case MarkedRightClick(id) =>
        if !hasEnded { Unmark(id); }
      case EmptyPressed(id) =>
        if !hasEnded { Guess(id); }
      case HiddenRightClick(id) =>
        if !hasEnded { Mark(id); }
    }
  }

  /** Marking a hidden, unflagged tile and then unmarking it restores the board and the count. */
  method MarkThenUnmark(g: Game, id: nat)
    requires g.Valid() && id < |g.board| && g.board[id].hidden && !g.board[id].marked
    modifies g`board, g`markedCount
    ensures g.board == old(g.board) && g.markedCount == old(g.markedCount)
  {
    g.Mark(id);
    g.Unmark(id);
    assert g.board == old(g.board)[id := old(g.board[id])];
  }

  /** On a board whose every tile is mined, a guess loses and then wins at once: Won overwrites Lost. */
  method GuessOnAllMines(g: Game, id: nat)
    requires g.Valid() && id < |g.board| && !g.board[id].marked
    requires forall k :: 0 <= k < |g.board| ==> g.board[k].mined
    modifies g`board, g`markedCount, g`winstate, g`hasEnded
    ensures g.hasEnded && g.winstate == Won
  {
    g.Guess(id);
    assert AllSafeRevealed(g.board);
  }

  /**
   * On a board at least two tiles wide and high whose only mine is tile width + 1, the diagonal
   * neighbour of corner tile 0 (the centre of a 3 x 3 board, say), the cascade from 0 may reveal
   * nothing: tile 0 and each of its neighbours has the mine as a neighbour or is the mine.
   */
  lemma NothingBesideCornerMine(b: seq<Tile>, width: nat, height: nat, k: nat)
    requires width >= 2 && height >= 2 && |b| == width * height
    requires forall j :: 0 <= j < |b| ==> (b[j].mined <==> j == width + 1)
    ensures !MayReveal(b, width, height, 0, false, k)
  {
    var m := width + 1;
    MulMonotone(2, height, width);
    PairRoundTrip(width, 0, 0);
    PairRoundTrip(width, 1, 1);
    AdjacentIsNeighbour(width, height, m, 0);
    MineNeighbourNotZero(b, width, height, m, 0);
    forall n | n in Neighbours(width, height, 0) ensures !ZeroHint(b, width, height, n) {
      NeighbourIsAdjacent(width, height, 0, n);
      if n != m {
        AdjacentIsNeighbour(width, height, m, n);
        MineNeighbourNotZero(b, width, height, m, n);
      }
    }
  }

  /** Guessing the corner tile beside the only mine reveals that tile and nothing else, and the game goes on. */
  method GuessBesideCornerMine(g: Game)
    requires g.Valid() && g.width >= 2 && g.height >= 2
    requires forall k :: 0 <= k < |g.board| ==>
      g.board[k].hidden && !g.board[k].marked && (g.board[k].mined <==> k == g.width + 1)
    modifies g`board, g`markedCount, g`winstate, g`hasEnded
    ensures g.board == old(g.board)[0 := old(g.board[0]).(hidden := false)]
    ensures g.hasEnded == old(g.hasEnded) && g.winstate == old(g.winstate)
    ensures g.markedCount == old(g.markedCount)
  {
    ghost var b0 := g.board;
    MulMonotone(2, g.height, g.width);
    g.Guess(0);
    NothingBesideCornerMine(b0, g.width, g.height, 1);
    assert !AllSafeRevealed(g.board);
    forall k | 0 < k < |g.board| ensures g.board[k] == b0[k] {
      NothingBesideCornerMine(b0, g.width, g.height, k);
    }
    assert g.board == b0[0 := b0[0].(hidden := false)];
    CountSame(b0, g.board, Marked);
  }

  /** A 3 x 3 game with its mine in the centre: guessing corner tile 0 reveals tile 0 only. */
  method GuessCornerOfThreeByThree() returns (b: seq<Tile>, ended: bool)
    ensures |b| == 9 && forall k :: 0 <= k < 9 ==> b[k] == Tile(k == 4, k != 0, false, k)
    ensures !ended
  {
    var g := new Game.Start(3, 3, 1, [4]);
    GuessBesideCornerMine(g);
    b, ended := g.board, g.hasEnded;
  }

  /**
   * A witness that Reset keeps stale state: on a board one row high with a mine on tile 0, flag
   * tile 1, step on the mine, then reset. The counter still shows one flag although no tile is
   * flagged, and the new game still reads as lost although it is in progress.
   */
  method StaleStateAfterReset(width: nat) returns (shownFlags: nat, flaggedTiles: nat, state: Winstate, ended: bool)
    requires width >= 2
    ensures shownFlags == 1 && flaggedTiles == 0
    ensures state == Lost && !ended
  {
    var g := new Game.Start(width, 1, 1, [0]);
    g.Mark(1);
    ghost var b1 := g.board;
    g.Guess(0);
    ghost var b2 := g.board;
    assert b2[1] == b1[1];
    assert !AllSafeRevealed(b2);
    CountSame(b1, b2, Marked);
    g.Reset([0]);
    shownFlags, flaggedTiles, state, ended := g.markedCount, Count(g.board, Marked), g.winstate, g.hasEnded;
  }
}
