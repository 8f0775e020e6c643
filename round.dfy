/** The elimination round as values: the state the scene keeps, the transitions
    its event handlers perform, and the invariant every reachable state keeps.
    The tile handle type T is left open; the scene instantiates it with the
    tile objects it creates. */
module Elimination {
  import Draw
  import Punishments

  /** Where the round stands. `Active` is the only phase in which the scene's
      input is enabled; `AwaitingAck` remembers the index captured when the safe
      tap happened and the prompt on screen. */
  datatype Phase =
    | Active
    | AwaitingAck(index: nat, punishment: string)
    | Won
    | Lost

  /** input.enabled, as each phase leaves it. */
  predicate InputEnabled(p: Phase) {
    p.Active?
  }

  /** The scene's round state: the live tiles in creation order, the forbidden
      position (an index into `tiles`, not a tile identity), the score and the phase. */
  datatype Round<T> = Round(tiles: seq<T>, forbidden: int, score: int, phase: Phase)

  /** No tile handle occurs twice. */
  ghost predicate Distinct<T>(s: seq<T>) {
    forall i, j :: 0 <= i < j < |s| ==> s[i] != s[j]
  }

  // ---------------------------------------------------------------------------
  // Array operations the handlers use

  /** Array.prototype.indexOf: the first position holding x, or -1. */
  function IndexOf<T(==)>(s: seq<T>, x: T): (i: int)
    ensures -1 <= i < |s|
    ensures i == -1 <==> x !in s
    ensures 0 <= i ==> s[i] == x && x !in s[..i]
  {
    if |s| == 0 then -1
    else if s[0] == x then 0
    else
      var j := IndexOf(s[1..], x);
      assert j >= 0 ==> s[..j + 1] == [s[0]] + s[1..][..j];
      if j == -1 then -1 else j + 1
  }

  /** In a sequence without repetitions, indexOf finds each element at its own position. */
  lemma IndexOfDistinct<T>(s: seq<T>, k: nat)
    requires Distinct(s) && k < |s|
    ensures IndexOf(s, s[k]) == k
  {
  }

  /** Array.prototype.splice(i, 1): the element at i is dropped and the others
      keep their relative order. */
  function Splice<T>(s: seq<T>, i: nat): (r: seq<T>)
    requires i < |s|
    ensures |r| == |s| - 1
    ensures forall k :: 0 <= k < |r| ==> r[k] == s[if k < i then k else k + 1]
    ensures multiset(r) + multiset{s[i]} == multiset(s)
  {
    assert s == s[..i] + [s[i]] + s[i + 1..];
    s[..i] + s[i + 1..]
  }

  /** Removing one element of a repetition-free sequence leaves one without
      repetitions, and the removed handle is no longer in it. */
  lemma SpliceDistinct<T>(s: seq<T>, i: nat)
    requires i < |s| && Distinct(s)
    ensures Distinct(Splice(s, i)) && s[i] !in Splice(s, i)
  {
    var r := Splice(s, i);
    forall a, b | 0 <= a < b < |r|
      ensures r[a] != r[b]
    {
      var a', b' := if a < i then a else a + 1, if b < i then b else b + 1;
      assert r[a] == s[a'] && r[b] == s[b'] && a' < b';
    }
  }

  /** The correction `if (forbiddenIndex > index) forbiddenIndex--` made after splice(index, 1). */
  function ShiftDown(f: int, index: nat): (r: int)
    ensures r == f || r == f - 1
    ensures f != index ==> (r < index <==> f < index)
  {
    if f > index then f - 1 else f
  }

  /** After the splice the shifted index still designates the tile that was
      forbidden before it, and still lies inside the shortened array. */
  lemma ShiftKeepsForbidden<T>(s: seq<T>, index: nat, f: int)
    requires index < |s| && 0 <= f < |s| && f != index
    ensures 0 <= ShiftDown(f, index) < |s| - 1
    ensures Splice(s, index)[ShiftDown(f, index)] == s[f]
  {
  }

  // ---------------------------------------------------------------------------
  // Transitions

  /** The one draw a removal makes: a new forbidden index among the tiles that
      remain, when more than one remains. */
  predicate RedrawOk(remaining: int, r: int) {
    remaining > 1 ==> Draw.IsDraw(remaining, r)
  }

  /** create after the new tiles are laid out: a fresh array, the forbidden index
      drawn over it, input enabled. The score is the one the scene already had. */
  function Start<T>(s: Round<T>, tiles: seq<T>, r: int): (s': Round<T>)
    requires Draw.IsDraw(|tiles|, r)
    ensures s'.tiles == tiles && s'.score == s.score && InputEnabled(s'.phase)
    ensures |tiles| > 0 ==> 0 <= s'.forbidden < |tiles|
  {
    Round(tiles, r, s.score, Active)
  }

  /** removeTileAndContinue, with the removal animation completing at once:
      score + 1, splice, shift the forbidden index, then re-draw it when more than
      one tile is left or declare the round won when exactly one is. */
  function Remove<T>(s: Round<T>, index: nat, r: int): (s': Round<T>)
    requires index < |s.tiles|
    requires RedrawOk(|s.tiles| - 1, r)
    ensures |s'.tiles| == |s.tiles| - 1 && s'.score == s.score + 1
    ensures s'.tiles[..index] == s.tiles[..index] && s'.tiles[index..] == s.tiles[index + 1..]
    ensures s'.phase == Won || s'.phase == s.phase
  {
    var tiles := Splice(s.tiles, index);
    var f := ShiftDown(s.forbidden, index);
    var score := s.score + 1;
    if |tiles| > 1 then Round(tiles, r, score, s.phase)
    else if |tiles| == 1 then Round(tiles, f, score, Won)
    else Round(tiles, f, score, s.phase)
  }

  /** The draw a tap on t makes, if it makes one: a prompt for a safe tap in
      drinking mode, a new forbidden index for a safe tap in classic mode. */
  predicate TapDrawOk<T(==)>(s: Round<T>, t: T, drinking: bool, r: int) {
    var index := IndexOf(s.tiles, t);
    (InputEnabled(s.phase) && index != -1 && index != s.forbidden) ==>
      if drinking then Draw.IsDraw(|Punishments.Catalog|, r) else RedrawOk(|s.tiles| - 1, r)
  }

  /** A pointer-down on tile t. With input disabled the handler does not run.
      Otherwise onTileClick: a tile no longer in the array is ignored, the tile at
      the forbidden index loses the round, any other tile is removed at once in
      classic mode or held behind a punishment prompt in drinking mode. */
  function Tap<T(==)>(s: Round<T>, t: T, drinking: bool, r: int): (s': Round<T>)
    requires TapDrawOk(s, t, drinking, r)
    ensures s'.score + |s'.tiles| == s.score + |s.tiles|
    ensures s.score <= s'.score <= s.score + 1
    ensures s'.tiles == s.tiles <==> s'.score == s.score
  {
    if !InputEnabled(s.phase) then s
    else
      var index := IndexOf(s.tiles, t);
      if index == -1 then s
      else if index == s.forbidden then s.(phase := Lost)
      else if drinking then s.(phase := AwaitingAck(index, Punishments.Pick(r)))
      else Remove(s, index, r)
  }

  /** The OK button of the punishment prompt may be pressed: the captured index
      is a position of the array, and the removal's draw is in range. */
  predicate AckDrawOk<T>(s: Round<T>, r: int) {
    s.phase.AwaitingAck? ==> s.phase.index < |s.tiles| && RedrawOk(|s.tiles| - 1, r)
  }

  /** The OK handler: re-enable input, then run the deferred removal with the
      index captured at tap time. Without a prompt on screen there is no handler. */
  function Acknowledge<T>(s: Round<T>, r: int): (s': Round<T>)
    requires AckDrawOk(s, r)
    ensures s'.score + |s'.tiles| == s.score + |s.tiles|
    ensures s'.score == (if s.phase.AwaitingAck? then s.score + 1 else s.score)
    ensures !s.phase.AwaitingAck? ==> s' == s
  {
    match s.phase
    case AwaitingAck(index, _) => Remove(s.(phase := Active), index, r)
    case _ => s
  }

  // ---------------------------------------------------------------------------
  // The round invariant

  /** What holds in every state of a round that started with `count` tiles and
      score `base`: the handles are distinct; the points scored and the tiles
      left add up to the tiles laid out; the array never empties; the forbidden
      index is inside it; a pending removal names a live, non-forbidden
      position and a catalog prompt; a won round has one tile left. */
  ghost predicate Inv<T>(s: Round<T>, count: nat, base: int) {
    && Distinct(s.tiles)
    && base <= s.score
    && (s.score - base) + |s.tiles| == count
    && (count > 0 ==> |s.tiles| >= 1)
    && (if |s.tiles| == 0 then s.forbidden == 0 else 0 <= s.forbidden < |s.tiles|)
    && (s.phase.AwaitingAck? ==>
          && s.phase.index < |s.tiles|
          && s.phase.index != s.forbidden
          && s.phase.punishment in Punishments.Catalog)
    && (s.phase.Won? ==> |s.tiles| == 1)
  }

  /** Starting a round on distinct fresh tiles establishes the invariant with the
      carried-over score as base; the forbidden index lies in [0, |tiles| - 1]. */
  lemma StartEstablishesInv<T>(s: Round<T>, tiles: seq<T>, r: int)
    requires Distinct(tiles) && Draw.IsDraw(|tiles|, r)
    ensures var s' := Start(s, tiles, r);
      && Inv(s', |tiles|, s.score)
      && s'.tiles == tiles && s'.score == s.score && s'.phase == Active
      && (|tiles| > 0 ==> 0 <= s'.forbidden <= |tiles| - 1)
  {
  }

  /** A removal of a non-forbidden live position from an active round: the score
      goes up by exactly one, exactly that tile leaves and the rest keep their
      order; with more than one tile left the forbidden index is the new draw,
      and the round is won exactly when one tile is left, which is then the tile
      that was forbidden. */
  lemma RemoveOutcome<T>(s: Round<T>, index: nat, r: int)
    requires s.phase == Active
    requires 0 <= s.forbidden < |s.tiles| && index < |s.tiles| && index != s.forbidden
    requires RedrawOk(|s.tiles| - 1, r)
    ensures var s' := Remove(s, index, r);
      && s'.score == s.score + 1
      && |s'.tiles| == |s.tiles| - 1 >= 1
      && (forall k :: 0 <= k < |s'.tiles| ==> s'.tiles[k] == s.tiles[if k < index then k else k + 1])
      && multiset(s'.tiles) + multiset{s.tiles[index]} == multiset(s.tiles)
      && (|s'.tiles| > 1 ==> s'.forbidden == r && s'.phase == Active)
      && (s'.phase == Won <==> |s'.tiles| == 1)
      && (|s'.tiles| == 1 ==> s'.forbidden == 0 && s'.tiles[0] == s.tiles[s.forbidden])
  {
    ShiftKeepsForbidden(s.tiles, index, s.forbidden);
  }

  /** Removal from an active state keeps the invariant. */
  lemma RemovePreservesInv<T>(s: Round<T>, index: nat, r: int, count: nat, base: int)
    requires Inv(s, count, base) && s.phase == Active
    requires index < |s.tiles| && index != s.forbidden && RedrawOk(|s.tiles| - 1, r)
    ensures Inv(Remove(s, index, r), count, base)
  {
    SpliceDistinct(s.tiles, index);
    RemoveOutcome(s, index, r);
  }

  /** Every tap keeps the invariant. */
  lemma TapPreservesInv<T>(s: Round<T>, t: T, drinking: bool, r: int, count: nat, base: int)
    requires Inv(s, count, base) && TapDrawOk(s, t, drinking, r)
    ensures Inv(Tap(s, t, drinking, r), count, base)
  {
    var index := IndexOf(s.tiles, t);
    if InputEnabled(s.phase) && index != -1 && index != s.forbidden && !drinking {
      RemovePreservesInv(s, index, r, count, base);
    }
  }

  /** Every acknowledgement keeps the invariant. */
  lemma AckPreservesInv<T>(s: Round<T>, r: int, count: nat, base: int)
    requires Inv(s, count, base) && AckDrawOk(s, r)
    ensures Inv(Acknowledge(s, r), count, base)
  {
    if s.phase.AwaitingAck? {
      RemovePreservesInv(s.(phase := Active), s.phase.index, r, count, base);
    }
  }

  // ---------------------------------------------------------------------------
  // Properties of single taps

  /** A tap on a tile that is not (or no longer) in the array changes nothing. */
  lemma StaleTapIsNoOp<T>(s: Round<T>, t: T, drinking: bool, r: int)
    requires t !in s.tiles
    ensures TapDrawOk(s, t, drinking, r) && Tap(s, t, drinking, r) == s
  {
  }

  /** With input disabled (prompt on screen, round won or lost) taps change
      nothing, and a finished round ignores acknowledgements too. */
  lemma DisabledInputIgnoresTaps<T>(s: Round<T>, t: T, drinking: bool, r: int)
    requires !InputEnabled(s.phase)
    ensures TapDrawOk(s, t, drinking, r) && Tap(s, t, drinking, r) == s
    ensures (s.phase.Won? || s.phase.Lost?) ==> AckDrawOk(s, r) && Acknowledge(s, r) == s
  {
  }

  /** Tapping the tile at the forbidden index loses the round: input goes off,
      tiles, score and forbidden index stay as they were. */
  lemma ForbiddenTapLoses<T>(s: Round<T>, drinking: bool, r: int)
    requires InputEnabled(s.phase) && Distinct(s.tiles) && 0 <= s.forbidden < |s.tiles|
    ensures var s' := Tap(s, s.tiles[s.forbidden], drinking, r);
      && s' == s.(phase := Lost)
      && !InputEnabled(s'.phase)
      && s'.tiles == s.tiles && s'.score == s.score && s'.forbidden == s.forbidden
  {
    IndexOfDistinct(s.tiles, s.forbidden);
  }

  /** A safe tap in classic mode: score + 1, the tapped tile leaves the array,
      the others keep their order, and a second tap on it is a no-op. */
  lemma ClassicSafeTap<T>(s: Round<T>, t: T, r: int, r2: int, drinking2: bool)
    requires InputEnabled(s.phase) && Distinct(s.tiles) && 0 <= s.forbidden < |s.tiles|
    requires t in s.tiles && t != s.tiles[s.forbidden]
    requires RedrawOk(|s.tiles| - 1, r)
    ensures TapDrawOk(s, t, false, r)
    ensures var s' := Tap(s, t, false, r);
      && s'.score == s.score + 1
      && |s'.tiles| == |s.tiles| - 1
      && t !in s'.tiles
      && multiset(s'.tiles) + multiset{t} == multiset(s.tiles)
      && (exists i :: 0 <= i < |s.tiles| && s.tiles[i] == t && s'.tiles == s.tiles[..i] + s.tiles[i + 1..])
      && Tap(s', t, drinking2, r2) == s'
  {
    var i := IndexOf(s.tiles, t);
    SpliceDistinct(s.tiles, i);
    RemoveOutcome(s, i, r);
  }

  /** A safe tap in drinking mode turns input off and puts a catalog prompt on
      screen without touching tiles, score or forbidden index; acknowledging it
      then leaves exactly the state the classic tap would have produced. */
  lemma DrinkingSafeTap<T>(s: Round<T>, t: T, rp: int, r: int)
    requires InputEnabled(s.phase) && Distinct(s.tiles) && 0 <= s.forbidden < |s.tiles|
    requires t in s.tiles && t != s.tiles[s.forbidden]
    requires Draw.IsDraw(|Punishments.Catalog|, rp) && RedrawOk(|s.tiles| - 1, r)
    ensures TapDrawOk(s, t, true, rp) && TapDrawOk(s, t, false, r)
    ensures var s' := Tap(s, t, true, rp);
      && s'.phase.AwaitingAck? && !InputEnabled(s'.phase)
      && s'.phase.punishment in Punishments.Catalog
      && s'.tiles == s.tiles && s'.score == s.score && s'.forbidden == s.forbidden
      && AckDrawOk(s', r)
      && Acknowledge(s', r) == Tap(s, t, false, r)
  {
  }

  // ---------------------------------------------------------------------------
  // Whole rounds

  /** An input event of the round: a tap on a tile, or a press of the prompt's
      OK button, each with the draw it may make. */
  datatype Event<T> = Tapped(tile: T, draw: int) | Acknowledged(draw: int)

  predicate StepOk<T(==)>(s: Round<T>, drinking: bool, e: Event<T>) {
    match e
    case Tapped(t, r) => TapDrawOk(s, t, drinking, r)
    case Acknowledged(r) => AckDrawOk(s, r)
  }

  function Step<T(==)>(s: Round<T>, drinking: bool, e: Event<T>): Round<T>
    requires StepOk(s, drinking, e)
  {
    match e
    case Tapped(t, r) => Tap(s, t, drinking, r)
    case Acknowledged(r) => Acknowledge(s, r)
  }

  /** Every event of the sequence gets a draw in range in the state it meets. */
  predicate RunOk<T(==)>(s: Round<T>, drinking: bool, es: seq<Event<T>>)
    decreases |es|
  {
    |es| == 0 || (StepOk(s, drinking, es[0]) && RunOk(Step(s, drinking, es[0]), drinking, es[1..]))
  }

  /** The state after the events es. */
  function Run<T(==)>(s: Round<T>, drinking: bool, es: seq<Event<T>>): Round<T>
    requires RunOk(s, drinking, es)
    decreases |es|
  {
    if |es| == 0 then s else Run(Step(s, drinking, es[0]), drinking, es[1..])
  }

  /** Any sequence of events keeps the invariant. */
  lemma {:induction false} RunPreservesInv<T>(s: Round<T>, drinking: bool, es: seq<Event<T>>, count: nat, base: int)
    requires Inv(s, count, base) && RunOk(s, drinking, es)
    ensures Inv(Run(s, drinking, es), count, base)
    decreases |es|
  {
    if |es| > 0 {
      match es[0] {
        case Tapped(t, r) => TapPreservesInv(s, t, drinking, r, count, base);
        case Acknowledged(r) => AckPreservesInv(s, r, count, base);
      }
      RunPreservesInv(Step(s, drinking, es[0]), drinking, es[1..], count, base);
    }
  }

  /** Throughout a round started on n distinct tiles: points scored since the
      start plus tiles left is n, at least one tile is left as long as n > 0,
      the forbidden index is inside the array, and a won round has one tile. */
  lemma RoundInvariant<T>(s0: Round<T>, tiles: seq<T>, r: int, drinking: bool, es: seq<Event<T>>)
    requires Distinct(tiles) && Draw.IsDraw(|tiles|, r)
    requires RunOk(Start(s0, tiles, r), drinking, es)
    ensures var s := Run(Start(s0, tiles, r), drinking, es);
      && (s.score - s0.score) + |s.tiles| == |tiles|
      && s0.score <= s.score
      && (|tiles| > 0 ==> 1 <= |s.tiles| && 0 <= s.forbidden < |s.tiles|)
      && (s.phase.Won? ==> |s.tiles| == 1)
  {
    StartEstablishesInv(s0, tiles, r);
    RunPreservesInv(Start(s0, tiles, r), drinking, es, |tiles|, s0.score);
  }

  // ---------------------------------------------------------------------------
  // Two rounds played out, with integers as tile handles

  /** A 4 x 4 classic round: one safe tap scores a point and leaves 15 tiles,
      then a tap on the newly forbidden tile loses with the score frozen at 1. */
  lemma ClassicRoundToLoss()
    ensures var s0 := Start(Round([], 0, 0, Active), seq(16, i => i), 5);
      var s1 := Tap(s0, 2, false, 7);
      var s2 := Tap(s1, 8, false, 0);
      && s1.score == 1 && |s1.tiles| == 15 && s1.forbidden == 7 && s1.tiles[7] == 8
      && s2.phase == Lost && s2.score == 1 && |s2.tiles| == 15
  {
    var s0 := Start(Round([], 0, 0, Active), seq(16, i => i), 5);
    assert IndexOf(s0.tiles, 2) == 2 by { IndexOfDistinct(s0.tiles, 2); }
    var s1 := Tap(s0, 2, false, 7);
    assert s1.tiles[7] == 8;
    assert IndexOf(s1.tiles, 8) == 7 by { SpliceDistinct(s0.tiles, 2); IndexOfDistinct(s1.tiles, 7); }
  }

  /** The start of a 2 x 2 round in drinking mode: the safe tap waits for its
      prompt with score and tiles untouched, and the acknowledgement scores the
      point and removes the tile. */
  lemma DrinkingRoundFirstPoint()
    ensures Start(Round([], 0, 0, Active), [10, 11, 12, 13], 3)
         == Round([10, 11, 12, 13], 3, 0, Active)
    ensures Tap(Round([10, 11, 12, 13], 3, 0, Active), 10, true, 20)
         == Round([10, 11, 12, 13], 3, 0, AwaitingAck(0, Punishments.Pick(20)))
    ensures Acknowledge(Round([10, 11, 12, 13], 3, 0, AwaitingAck(0, Punishments.Pick(20))), 1)
         == Round([11, 12, 13], 1, 1, Active)
  {
    assert Splice([10, 11, 12, 13], 0) == [11, 12, 13];
  }

  /** The same round one point later: the forbidden index is re-drawn over the
      three tiles left, and the next safe tap removes the first of them. */
  lemma DrinkingRoundSecondPoint()
    ensures Tap(Round([11, 12, 13], 1, 1, Active), 11, true, 0)
         == Round([11, 12, 13], 1, 1, AwaitingAck(0, Punishments.Pick(0)))
    ensures Acknowledge(Round([11, 12, 13], 1, 1, AwaitingAck(0, Punishments.Pick(0))), 0)
         == Round([12, 13], 0, 2, Active)
  {
    assert Splice([11, 12, 13], 0) == [12, 13];
  }

  /** The last safe tap of the round wins it: the survivor is the tile forbidden
      last, and no draw is made over a single tile. */
  lemma DrinkingRoundToWin()
    ensures Tap(Round([12, 13], 0, 2, Active), 13, true, 51)
         == Round([12, 13], 0, 2, AwaitingAck(1, Punishments.Pick(51)))
    ensures Acknowledge(Round([12, 13], 0, 2, AwaitingAck(1, Punishments.Pick(51))), 123)
         == Round([12], 0, 3, Won)
  {
    assert Splice([12, 13], 1) == [12];
  }
}
