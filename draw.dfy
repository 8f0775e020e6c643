/** The random source. Every call of Phaser.Math.Between(0, n - 1) in the scene is
    replaced by a value `r` that the caller injects; this module says which values
    such a call can return. Probabilities are not modelled. */
module Draw {

  /** `r` is a possible result of Phaser.Math.Between(0, n - 1), which computes
      floor(random * n + 0): any integer in [0, n) when n > 0, and always 0 when
      n == 0. The model reaches n == 0 only for a grid size of 0 or less, where
      it lays out no tiles and takes the draw 0 by convention. */
  predicate IsDraw(n: nat, r: int) {
    if n == 0 then r == 0 else 0 <= r < n
  }
}
