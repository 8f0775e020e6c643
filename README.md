# Grid elimination round of the AngryFriend party game

AngryFriend shows a square grid of face tiles. One tile is secretly forbidden.
Every tap on another tile scores a point and removes that tile. After each
removal the forbidden tile is drawn afresh among the tiles still left. Tapping
the forbidden tile loses the round. When only one tile is left, the round is
won. In drinking mode each safe tap first shows a randomly chosen punishment
prompt, with input switched off. The tile is removed only when the player
presses OK.

This project models that round as kept by the `GridScene` scene
(`src/scenes/GridScene.ts`). It has five modules:

- `Draw` (draw.dfy): the random source. Each `Phaser.Math.Between(0, n - 1)`
  becomes a value `r` injected by the caller. `IsDraw(n, r)` says which values
  are possible: `0 <= r < n`, and exactly `0` when `n == 0`, since the formula
  then reduces to `floor(random * 0)`.
- `Punishments` (punishments.dfy): the constant 52-entry `DRINKING_PUNISHMENTS`
  catalog, and the pick of one prompt.
- `Layout` (layout.dfy): the integer layout arithmetic. It covers the number of
  tiles the nested row/column loop creates, row-major slot decoding, and the
  `tileSize` formula with its fit and maximality property.
- `Elimination` (round.dfy): the round as values. A `Round` holds the tiles, the
  forbidden index, the score and a `Phase` (`Active`, `AwaitingAck`, `Won`,
  `Lost`). The module defines the transitions (`Start`, `Tap`, `Acknowledge`,
  `Remove`) and the round invariant `Inv`. The lemmas state what each tap does
  and that every sequence of events keeps the invariant.
- `Scene` (scene.dfy): the class `GridScene` with the source's fields. Tiles
  are objects (`Tile`), as the source's image objects are: `indexOf` compares
  identities, and a new layout allocates fresh ones. Each handler is a method.
  Its `ensures` ties the new fields to the matching `Elimination` transition of
  the old fields and re-establishes `Valid()`.

`Phase` also stands for Phaser's `input.enabled`. Input is on exactly in
`Active`. A tap while input is off never reaches `onTileClick`, so the model
ignores it.

### Where the code and its description differ (the model follows the code)

- `create` never resets `score`. Only the field initialiser sets it. A restart
  reuses the scene object, so the score carries over into the next round. The
  invariant therefore measures points scored since the round's start
  (`roundStartScore`), not the total.
- The grid size is never validated:
  - a size of 1 is accepted and gives a round that cannot be won;
  - for a size of 0 or less the source hands a non-finite or negative tile
    size to the texture code, which is not modelled; the model then lays out
    no tiles and takes the draw 0 by convention.
- There are no error values. A tap on a tile that is no longer in the array
  returns silently. A catalog pick out of range cannot happen, because the
  catalog is a non-empty constant.

## Model

| member | source | states |
|---|---|---|
| `Draw.IsDraw` | src/scenes/GridScene.ts:296 | no ensures (a predicate): the values `Phaser.Math.Between(0, n - 1)` can return, used as the precondition of every draw at lines 296, 347 and 389 |
| `Punishments.Pick` | src/scenes/GridScene.ts:345-348 | the prompt picked by any in-range draw is an entry of the catalog |
| `Punishments.CatalogSize` | src/scenes/GridScene.ts:11-83 | the catalog has 52 prompts, so a valid draw is exactly an integer in [0, 51] |
| `Layout.RowMajorSlot` | src/scenes/GridScene.ts:252-253 | the tile of row r and column c is pushed as element r*size+c, which is below size*size and decodes back to (r, c) |
| `Layout.SlotCell` | src/scenes/GridScene.ts:252-253 | every slot k < size*size decodes to a row and a column inside the grid |
| `Layout.TileCount` | src/scenes/GridScene.ts:251-252 | the nested loop creates at least one tile exactly when the size is positive; its value is size*size then and 0 otherwise |
| `Layout.GridWidth` | src/scenes/GridScene.ts:236 | no ensures; the width left after the side margins, whose meaning TileSize states |
| `Layout.GridHeight` | src/scenes/GridScene.ts:237 | no ensures; the height left under the topbar and above the bottom margin, whose meaning TileSize states |
| `Layout.Extent` | src/scenes/GridScene.ts:247-248 | no ensures; totalW and totalH, the span of size tiles and their gaps, bounded by TileSize |
| `Layout.TileSize` | src/scenes/GridScene.ts:239-248 | the tile side is the largest integer for which the grid, gaps included, fits into both gridW and gridH |
| `Layout.DefaultCanvasTileSize` | src/scenes/GridScene.ts:231-248 | on the 360x640 canvas a 4x4 grid gets 78-pixel tiles and fills gridW exactly |
| `Elimination.IndexOf` | src/scenes/GridScene.ts:318-319 | -1 exactly when the tile is absent; otherwise the first position holding it |
| `Elimination.IndexOfDistinct` | src/scenes/GridScene.ts:318-321 | with distinct handles, indexOf of the tile at k is k |
| `Elimination.Splice` | src/scenes/GridScene.ts:382 | one element shorter; the others keep their relative order; the multiset loses exactly the removed element |
| `Elimination.SpliceDistinct` | src/scenes/GridScene.ts:382 | splicing keeps handles distinct and the removed tile is gone |
| `Elimination.ShiftDown` | src/scenes/GridScene.ts:384-386 | the index drops by one or stays; for an index other than the removed one, it stays on the same side of the removed position (ShiftKeepsForbidden states the rest) |
| `Elimination.ShiftKeepsForbidden` | src/scenes/GridScene.ts:382-386 | after splice(index, 1) the decrement keeps the forbidden index in bounds and on the same tile |
| `Elimination.Start` | src/scenes/GridScene.ts:143-144 | the new round holds the laid-out tiles, keeps the score, has input on, and for a non-empty grid a forbidden index in bounds |
| `Elimination.Remove` | src/scenes/GridScene.ts:368-398 | one tile fewer and score +1; the tiles before the index stay and the ones after it move up by one; the phase stays or becomes Won (RemoveOutcome and RemovePreservesInv state the rest) |
| `Elimination.Tap` | src/scenes/GridScene.ts:317-338 | reached from the pointer-down listener at line 289 while input is on; score plus tiles left is conserved; the score rises by at most one, and it rises exactly when the tile array changes |
| `Elimination.Acknowledge` | src/scenes/GridScene.ts:359-364 | score plus tiles left is conserved; a pending prompt scores one point; with no prompt pending nothing changes |
| `Elimination.StartEstablishesInv` | src/scenes/GridScene.ts:143-144 | a new round on distinct tiles satisfies the invariant, keeps the old score, enables input and has its forbidden index in [0, n-1] |
| `Elimination.RemoveOutcome` | src/scenes/GridScene.ts:368-398 | score +1 and exactly the tapped tile leaves, with the order kept; more than one tile left means a re-drawn forbidden index; won exactly when one tile is left, which is then the tile that was forbidden, at index 0 |
| `Elimination.RemovePreservesInv` | src/scenes/GridScene.ts:368-398 | a removal from an active round keeps the invariant |
| `Elimination.TapPreservesInv` | src/scenes/GridScene.ts:317-338 | every tap keeps the invariant |
| `Elimination.AckPreservesInv` | src/scenes/GridScene.ts:359-364 | every acknowledgement keeps the invariant |
| `Elimination.StaleTapIsNoOp` | src/scenes/GridScene.ts:318-319 | a tap on a tile not in the array changes nothing |
| `Elimination.DisabledInputIgnoresTaps` | src/scenes/GridScene.ts:342 | with input off, taps change nothing; a won or lost round also ignores acknowledgements |
| `Elimination.ForbiddenTapLoses` | src/scenes/GridScene.ts:321-327 | tapping the forbidden tile gives Lost with input off, and tiles, score and forbidden index unchanged |
| `Elimination.ClassicSafeTap` | src/scenes/GridScene.ts:335-336 | classic safe tap: score +1, one tile fewer, the tapped tile gone and the rest in their order; a repeated tap on it is a no-op |
| `Elimination.DrinkingSafeTap` | src/scenes/GridScene.ts:331-334 | drinking safe tap: input off and a catalog prompt shown, with tiles, score and forbidden index untouched; acknowledging gives exactly the classic tap's state |
| `Elimination.RunPreservesInv` | src/scenes/GridScene.ts:317-401 | any sequence of taps and acknowledgements keeps the invariant |
| `Elimination.RoundInvariant` | src/scenes/GridScene.ts:143-144 | throughout a round, points since the start plus tiles left equal the tiles laid out; the array never empties; the forbidden index stays in bounds; a won round has one tile |
| `Elimination.ClassicRoundToLoss` | src/scenes/GridScene.ts:321-336 | 4x4 classic: one safe tap gives score 1 and 15 tiles; tapping the new forbidden tile then loses with score 1 |
| `Elimination.DrinkingRoundFirstPoint` | src/scenes/GridScene.ts:331-334 | 2x2 drinking: the tap waits with score 0 and 4 tiles; OK gives score 1 and 3 tiles |
| `Elimination.DrinkingRoundSecondPoint` | src/scenes/GridScene.ts:331-334 | the next tap and OK give score 2 and 2 tiles |
| `Elimination.DrinkingRoundToWin` | src/scenes/GridScene.ts:388-394 | the last safe tap and OK win the round with score 3; the forbidden tile survives |
| `Scene.Tile.constructor` | src/scenes/GridScene.ts:257-260 | a tile remembers the row and column it was created for |
| `Scene.GridScene.constructor` | src/scenes/GridScene.ts:86-93 | field initialisers: size 4, classic mode, forbidden index 0, no tiles, score 0 |
| `Scene.GridScene.Create` | src/scenes/GridScene.ts:115-145 | stores size and mode; size*size fresh tiles in row-major order; forbidden index drawn over them; score kept; input on; invariant established |
| `Scene.GridScene.LayoutGrid` | src/scenes/GridScene.ts:227-293 | the old tiles are dropped; exactly TileCount(size) fresh, distinct tiles; tile k sits at row k / size and column k % size |
| `Scene.GridScene.PickForbidden` | src/scenes/GridScene.ts:295-298 | the forbidden index becomes the draw over the whole array |
| `Scene.GridScene.TapTile` | src/scenes/GridScene.ts:289 | a pointer-down performs the Tap transition, and only while input is on; the invariant is kept |
| `Scene.GridScene.OnTileClick` | src/scenes/GridScene.ts:317-338 | lookup, loss on the forbidden index, otherwise direct removal or the prompt, as Tap says |
| `Scene.GridScene.ShowDrinkingPunishment` | src/scenes/GridScene.ts:340-356 | input off and the prompt for the draw on screen, holding the captured index |
| `Scene.GridScene.AcknowledgePunishment` | src/scenes/GridScene.ts:357-365 | OK re-enables input and runs the deferred removal of the captured index; the invariant is kept |
| `Scene.GridScene.RemoveTileAndContinue` | src/scenes/GridScene.ts:368-401 | score +1, splice, shift, then re-draw or win, as Remove says |
| `Scene.GridScene.GameOver` | src/scenes/GridScene.ts:450-457 | phase Lost, input off |
| `Scene.GridScene.GameWin` | src/scenes/GridScene.ts:459-466 | phase Won, input off |

## Left out

- Texture styling is not modelled: the canvas avatar drawing, its gradients, shadows and cache, and the choice of head image. It is floating-point rendering through foreign APIs.
- Hover, press, removal and ripple tweens, and the camera flash and shake, are not modelled. They are animation only. A removal is atomic: the tween's completion runs at once.
- The 200 ms gap between `score += 1` and the splice is not modelled. Input is on during it in both modes (in drinking mode the OK handler re-enables input before the removal starts), so a tap in the gap can score again and capture an index that the deferred splice then applies to the shortened array. That is a timing race.
- The forbidden-tile marker (`applyMarker`, `hideMarker`) is not modelled. Neither are the DOM overlays, the topbar text and the retry/menu buttons. Only the phase and the input flag they imply are kept.
- Pixel positions of tiles (`startX`, `startY`, `x`, `y`) are not modelled. They involve `Math.round` and half-pixel centres. Tiles keep their row and column instead.
- Only the range of each random draw is modelled, not its uniformity.
- Restarts assume that Phaser re-enables input when a scene starts; `create` itself never sets `input.enabled`.
- The defaults `data.size ?? 4` and `data.drinkingMode ?? false` are not modelled. Every caller passes both, so `Create` takes them as arguments. Sizes are integers (`parseInt` of a button attribute); a `NaN` size is not modelled.
- Layout.TileSize: defined for size > 0 only. For other sizes the source divides by zero or by a negative number, and no tiles are laid out then anyway.
- Elimination.Acknowledge: requires the index captured at tap time to lie inside the array. `Inv` guarantees this. JavaScript's out-of-range `splice` is therefore not modelled.
- The menu scene, the unused `GameScene`, the boot scene, `main.ts` and the build and deployment configuration are not modelled. They are DOM wiring, file loading, framework bootstrap and configuration, with no invariants of their own.
