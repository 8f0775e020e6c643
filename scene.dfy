/** The grid scene as an object: the fields its handlers overwrite and the
    handlers themselves, each proved to perform the matching transition of
    module Elimination and to keep the round invariant. */
module Scene {
  import Draw
  import Punishments
  import Layout
  import opened Elimination

  /** One tile image. Its identity is the object's identity, as for the image
      objects the scene creates; row and column are where the layout put it. */
  class Tile {
    const row: int
    const col: int

    constructor (row: int, col: int)
      ensures this.row == row && this.col == col
    {
      this.row := row;
      this.col := col;
    }
  }

  /** Tile k of the array sits in row k / size and column k % size. */
  ghost predicate RowMajor(tiles: seq<Tile>, size: int)
    requires |tiles| == Layout.TileCount(size)
  {
    forall k :: 0 <= k < |tiles| ==> tiles[k].row == k / size && tiles[k].col == k % size
  }

  class GridScene {
    var size: int
    var drinkingMode: bool
    var forbiddenIndex: int
    var tiles: seq<Tile>
    var score: int
    /** Input enabled or not, and what the overlays show. */
    var phase: Phase
    /** The score when the current round was created. */
    ghost var roundStartScore: int

    /** The field initialisers. */
    constructor ()
      ensures size == 4 && !drinkingMode && forbiddenIndex == 0
      ensures tiles == [] && score == 0 && phase == Active
    {
      size := 4;
      drinkingMode := false;
      forbiddenIndex := 0;
      tiles := [];
      score := 0;
      phase := Active;
      roundStartScore := 0;
    }

    /** The round state held in the fields. */
    function State(): Round<Tile>
      reads this
    {
      Round(tiles, forbiddenIndex, score, phase)
    }

    /** The round invariant for a round of `size` x `size` tiles. It holds from
        the first Create on; the constructor's state (size 4, no tiles) is not
        yet a laid-out round. */
    ghost predicate Valid()
      reads this
    {
      Inv(State(), Layout.TileCount(size), roundStartScore)
    }

    /** create, run on first entry and on every restart: take the configuration,
        lay out a fresh grid and draw the forbidden index over it. The score is
        not reset. */
    method Create(size: int, drinkingMode: bool, r: int)
      requires Draw.IsDraw(Layout.TileCount(size), r)
      modifies this
      ensures Valid()
      ensures this.size == size && this.drinkingMode == drinkingMode
      ensures |tiles| == Layout.TileCount(size) && RowMajor(tiles, size)
      ensures forall k :: 0 <= k < |tiles| ==> fresh(tiles[k])
      ensures State() == Start(old(State()), tiles, r)
      ensures score == old(score) == roundStartScore
    {
      phase := Active;
      this.size := size;
      this.drinkingMode := drinkingMode;
      LayoutGrid();
      PickForbidden(r);
      roundStartScore := score;
      StartEstablishesInv(old(State()), tiles, r);
    }

    /** layoutGrid: drop the old tiles, then push one new tile per cell, row by
        row and within a row column by column. */
    method LayoutGrid()
      modifies this`tiles
      ensures |tiles| == Layout.TileCount(size) && RowMajor(tiles, size)
      ensures forall k :: 0 <= k < |tiles| ==> fresh(tiles[k])
      ensures Distinct(tiles)
    {
      tiles := [];
      var r := 0;
      while r < size
        invariant 0 <= r <= (if size > 0 then size else 0)
        invariant |tiles| == r * size
        invariant forall k :: 0 <= k < |tiles| ==> tiles[k].row == k / size && tiles[k].col == k % size
        invariant forall k :: 0 <= k < |tiles| ==> fresh(tiles[k])
        invariant Distinct(tiles)
      {
        var c := 0;
        while c < size
          invariant 0 <= c <= size
          invariant |tiles| == r * size + c
          invariant forall k :: 0 <= k < |tiles| ==> tiles[k].row == k / size && tiles[k].col == k % size
          invariant forall k :: 0 <= k < |tiles| ==> fresh(tiles[k])
          invariant Distinct(tiles)
        {
          Layout.RowMajorSlot(size, r, c);
          var img := new Tile(r, c);
          tiles := tiles + [img];
          c := c + 1;
        }
        r := r + 1;
      }
    }

    /** pickForbidden: a new forbidden index drawn over the whole array. */
    method PickForbidden(r: int)
      requires Draw.IsDraw(|tiles|, r)
      modifies this`forbiddenIndex
      ensures forbiddenIndex == r
    {
      forbiddenIndex := r;
    }

    /** The pointer-down listener of a tile: it reaches onTileClick only while
        input is enabled. */
    method TapTile(t: Tile, r: int)
      requires Valid() && TapDrawOk(State(), t, drinkingMode, r)
      modifies this`tiles, this`forbiddenIndex, this`score, this`phase
      ensures Valid()
      ensures State() == Tap(old(State()), t, drinkingMode, r)
    {
      if InputEnabled(phase) {
        OnTileClick(t, r);
      }
      TapPreservesInv(old(State()), t, drinkingMode, r, Layout.TileCount(size), roundStartScore);
    }

    /** onTileClick: find the tile, lose on the forbidden index, otherwise remove
        it at once or after the punishment prompt. */
    method OnTileClick(t: Tile, r: int)
      requires InputEnabled(phase) && TapDrawOk(State(), t, drinkingMode, r)
      modifies this`tiles, this`forbiddenIndex, this`score, this`phase
      ensures State() == Tap(old(State()), t, drinkingMode, r)
    {
      var index := IndexOf(tiles, t);
      if index == -1 {
        return;
      }
      if index == forbiddenIndex {
        GameOver();
        return;
      }
      if drinkingMode {
        ShowDrinkingPunishment(index, r);
      } else {
        RemoveTileAndContinue(index, r);
      }
    }

    /** showDrinkingPunishment: input off, a prompt drawn from the catalog, and
        the removal of `index` deferred until the prompt is acknowledged. */
    method ShowDrinkingPunishment(index: nat, r: int)
      requires Draw.IsDraw(|Punishments.Catalog|, r)
      modifies this`phase
      ensures phase == AwaitingAck(index, Punishments.Pick(r)) && !InputEnabled(phase)
    {
      phase := AwaitingAck(index, Punishments.Pick(r));
    }

    /** The prompt's OK handler: input back on, then the deferred removal. */
    method AcknowledgePunishment(r: int)
      requires Valid() && AckDrawOk(State(), r)
      modifies this`tiles, this`forbiddenIndex, this`score, this`phase
      ensures Valid()
      ensures State() == Acknowledge(old(State()), r)
    {
      if phase.AwaitingAck? {
        var index := phase.index;
        phase := Active;
        RemoveTileAndContinue(index, r);
      }
      AckPreservesInv(old(State()), r, Layout.TileCount(size), roundStartScore);
    }

    /** removeTileAndContinue, with the animation's completion run at once. */
    method RemoveTileAndContinue(index: nat, r: int)
      requires index < |tiles| && RedrawOk(|tiles| - 1, r)
      modifies this`tiles, this`forbiddenIndex, this`score, this`phase
      ensures State() == Remove(old(State()), index, r)
    {
      score := score + 1;
      tiles := tiles[..index] + tiles[index + 1..];
      if forbiddenIndex > index {
        forbiddenIndex := forbiddenIndex - 1;
      }
      if |tiles| > 1 {
        forbiddenIndex := r;
      } else if |tiles| == 1 {
        GameWin();
      }
    }

    /** gameOver: input off, the loss overlay. */
    method GameOver()
      modifies this`phase
      ensures phase == Lost && !InputEnabled(phase)
    {
      phase := Lost;
    }

    /** gameWin: input off, the win overlay. */
    method GameWin()
      modifies this`phase
      ensures phase == Won && !InputEnabled(phase)
    {
      phase := Won;
    }
  }
}
