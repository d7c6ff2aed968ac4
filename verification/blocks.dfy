/** Pieces: the seven shapes, the seven-bag shuffle, spawning, cloning,
    rotation-index arithmetic and the cells a piece occupies.

    The per-shape rotation tables are data the model does not know; every
    operation that needs them takes a `Catalog` giving, for each shape, its
    sequence of rotation states (each state the offsets of the piece's cells
    from its position). */
module Blocks {
  import opened Grid

  datatype BlockType = I | J | L | O | S | T | Z

  /** The seven shapes in declaration order. */
  const AllVariants: seq<BlockType> := [I, J, L, O, S, T, Z]

  /** Where every new piece appears. */
  const SpawnPosition: Vec2D := Vec2D(5, 0)

  /** The rotation states of every shape. */
  type Catalog = BlockType -> seq<seq<Vec2D>>

  /** Every shape has at least one rotation state. */
  predicate WellFormed(catalog: Catalog) {
    forall shape: BlockType :: |catalog(shape)| >= 1
  }

  /** A piece: its position, shape, rotation index and whether it is drawn as
      the ghost projection. */
  datatype Block = Block(pos: Vec2D, shape: BlockType, rotation: nat, isGhost: bool)

  // ---------------------------------------------------------------------------
  // The seven-bag
  // ---------------------------------------------------------------------------

  /** Every shape appears exactly once in the list of all variants. */
  lemma AllVariantsOnce(shape: BlockType)
    ensures multiset(AllVariants)[shape] == 1
  {
    assert multiset(AllVariants) == multiset{I, J, L, O, S, T, Z};
  }

  /** One bag: the seven shapes shuffled by the Fisher-Yates walk from the last
      position down to position 1, swapping position `i` with a position drawn
      from `0..i`. `draws[t]` is the position drawn at step `t`, for `i = 6 - t`. */
  method Bag(draws: seq<nat>) returns (bag: seq<BlockType>)
    requires |draws| == |AllVariants| - 1
    requires forall t :: 0 <= t < |draws| ==> draws[t] <= |AllVariants| - 1 - t
    ensures |bag| == |AllVariants|
    ensures multiset(bag) == multiset(AllVariants)
    ensures forall shape :: multiset(bag)[shape] == 1
    ensures forall i, j :: 0 <= i < j < |bag| ==> bag[i] != bag[j]
  {
    bag := AllVariants;
    var i := |bag| - 1;
    while i >= 1
      invariant 0 <= i < |AllVariants|
      invariant |bag| == |AllVariants|
      invariant multiset(bag) == multiset(AllVariants)
    {
      var j := draws[|AllVariants| - 1 - i];
      bag := bag[i := bag[j]][j := bag[i]];
      i := i - 1;
    }
    forall shape
      ensures multiset(bag)[shape] == 1
    {
      AllVariantsOnce(shape);
    }
    forall i, j | 0 <= i < j < |bag|
      ensures bag[i] != bag[j]
    {
      if bag[i] == bag[j] {
        AllVariantsOnce(bag[i]);
        DuplicateCounts(bag, i, j);
      }
    }
  }

  /** A value at two positions of a sequence occurs at least twice in it. */
  lemma DuplicateCounts(s: seq<BlockType>, i: int, j: int)
    requires 0 <= i < j < |s| && s[i] == s[j]
    ensures multiset(s)[s[i]] >= 2
  {
    assert s == s[..i] + [s[i]] + s[i + 1..j] + [s[j]] + s[j + 1..];
  }

  // ---------------------------------------------------------------------------
  // Spawning and cloning
  // ---------------------------------------------------------------------------

  /** A fresh piece of the given shape at the spawn position, in rotation 0. */
  function New(shape: BlockType): (r: Block)
    ensures r.shape == shape && r.pos == SpawnPosition && r.rotation == 0 && !r.isGhost
  {
    Block(SpawnPosition, shape, 0, false)
  }

  /** The piece used before any other is spawned. */
  const Default: Block := New(O)

  /** A copy of the piece that is never a ghost. */
  function Clone(b: Block): (r: Block)
    ensures r.pos == b.pos && r.shape == b.shape && r.rotation == b.rotation
    ensures !r.isGhost
    ensures r == b <==> !b.isGhost
  {
    Block(b.pos, b.shape, b.rotation, false)
  }

  // ---------------------------------------------------------------------------
  // Rotation
  // ---------------------------------------------------------------------------

  /** +1 for a clockwise turn, -1 for a counter-clockwise one. */
  function Polarity(clockwise: bool): (r: int)
    ensures r == 1 || r == -1
    ensures r > 0 <==> clockwise
  {
    if clockwise then 1 else -1
  }

  /** The number of rotation states of the piece's shape. */
  function StateCount(b: Block, catalog: Catalog): (n: nat)
    requires WellFormed(catalog)
    ensures n >= 1
  {
    |catalog(b.shape)|
  }

  /** Turns the piece by one rotation state, with the index taken modulo the
      number of states; collisions are not looked at. */
  function Rotate(b: Block, clockwise: bool, catalog: Catalog): (r: Block)
    requires WellFormed(catalog)
    ensures r.rotation < StateCount(b, catalog)
    ensures r.pos == b.pos && r.shape == b.shape && r.isGhost == b.isGhost
    ensures b.rotation < StateCount(b, catalog) && clockwise ==>
      r.rotation == if b.rotation + 1 == StateCount(b, catalog) then 0 else b.rotation + 1
    ensures b.rotation < StateCount(b, catalog) && !clockwise ==>
      r.rotation == if b.rotation == 0 then StateCount(b, catalog) - 1 else b.rotation - 1
  {
    b.(rotation := (b.rotation + Polarity(clockwise)) % |catalog(b.shape)|)
  }

  /** The current rotation index and the one a turn would lead to. */
  function RotationIndexes(b: Block, clockwise: bool, catalog: Catalog): (r: (nat, nat))
    requires WellFormed(catalog)
    ensures r.0 == b.rotation
    ensures r.1 == Rotate(b, clockwise, catalog).rotation
    ensures r.1 < StateCount(b, catalog)
  {
    (b.rotation, (b.rotation + Polarity(clockwise)) % |catalog(b.shape)|)
  }

  /** A turn followed by the opposite turn restores a piece whose rotation index is in range. */
  lemma RotateRoundTrip(b: Block, clockwise: bool, catalog: Catalog)
    requires WellFormed(catalog) && b.rotation < StateCount(b, catalog)
    ensures Rotate(Rotate(b, clockwise, catalog), !clockwise, catalog) == b
  {
  }

  /** `k` turns in the same direction. */
  function RotateTimes(b: Block, clockwise: bool, k: nat, catalog: Catalog): (r: Block)
    requires WellFormed(catalog)
    ensures r.pos == b.pos && r.shape == b.shape && r.isGhost == b.isGhost
    decreases k
  {
    if k == 0 then b else Rotate(RotateTimes(b, clockwise, k - 1, catalog), clockwise, catalog)
  }

  lemma {:induction false} RotateTimesAdd(b: Block, clockwise: bool, j: nat, k: nat, catalog: Catalog)
    requires WellFormed(catalog)
    ensures RotateTimes(b, clockwise, j + k, catalog)
            == RotateTimes(RotateTimes(b, clockwise, j, catalog), clockwise, k, catalog)
    decreases k
  {
    if k > 0 {
      RotateTimesAdd(b, clockwise, j, k - 1, catalog);
      var mid := RotateTimes(b, clockwise, j + k - 1, catalog);
      assert RotateTimes(b, clockwise, j + k, catalog) == Rotate(mid, clockwise, catalog);
    }
  }

  /** Before wrapping, each clockwise turn raises the rotation index by one. */
  lemma {:induction false} RotateTimesNoWrap(b: Block, k: nat, catalog: Catalog)
    requires WellFormed(catalog) && b.rotation + k < StateCount(b, catalog)
    ensures RotateTimes(b, true, k, catalog).rotation == b.rotation + k
    decreases k
  {
    if k > 0 {
      RotateTimesNoWrap(b, k - 1, catalog);
    }
  }

  /** Clockwise turns from an in-range index reach index 0 after passing the last state. */
  lemma TurnsToZero(b: Block, catalog: Catalog)
    requires WellFormed(catalog) && b.rotation < StateCount(b, catalog)
    ensures RotateTimes(b, true, StateCount(b, catalog) - b.rotation, catalog).rotation == 0
  {
    var toLast := StateCount(b, catalog) - 1 - b.rotation;
    RotateTimesNoWrap(b, toLast, catalog);
    var last := RotateTimes(b, true, toLast, catalog);
    assert RotateTimes(b, true, toLast + 1, catalog) == Rotate(last, true, catalog);
  }

  /** As many clockwise turns as the shape has rotation states bring a piece
      whose rotation index is in range back to where it started. */
  lemma FullTurn(b: Block, catalog: Catalog)
    requires WellFormed(catalog) && b.rotation < StateCount(b, catalog)
    ensures RotateTimes(b, true, StateCount(b, catalog), catalog) == b
  {
    var toZero := StateCount(b, catalog) - b.rotation;
    TurnsToZero(b, catalog);
    var atZero := RotateTimes(b, true, toZero, catalog);
    RotateTimesNoWrap(atZero, b.rotation, catalog);
    RotateTimesAdd(b, true, toZero, b.rotation, catalog);
  }

  // ---------------------------------------------------------------------------
  // Occupied cells
  // ---------------------------------------------------------------------------

  /** The cells the piece covers: the offsets of its current rotation state
      (index taken modulo the number of states) moved to its position. */
  function OccupiedCells(b: Block, catalog: Catalog): (r: seq<Vec2D>)
    requires WellFormed(catalog)
    ensures var state := catalog(b.shape)[b.rotation % StateCount(b, catalog)];
      |r| == |state| && forall i :: 0 <= i < |r| ==> r[i].Add(Vec2D(-b.pos.x, -b.pos.y)) == state[i]
  {
    var states := catalog(b.shape);
    var state := states[b.rotation % |states|];
    seq(|state|, i requires 0 <= i < |state| => state[i].Add(b.pos))
  }

  /** Moving a piece by `d` moves each of its cells by `d`. */
  lemma OccupiedCellsTranslate(b: Block, d: Vec2D, catalog: Catalog)
    requires WellFormed(catalog)
    ensures var moved := OccupiedCells(b.(pos := b.pos.Add(d)), catalog);
      |moved| == |OccupiedCells(b, catalog)| &&
      forall i :: 0 <= i < |moved| ==> moved[i] == OccupiedCells(b, catalog)[i].Add(d)
  {
  }

  /** A clone covers the same cells as the original. */
  lemma CloneOccupiesSameCells(b: Block, catalog: Catalog)
    requires WellFormed(catalog)
    ensures OccupiedCells(Clone(b), catalog) == OccupiedCells(b, catalog)
  {
  }

  /** A full turn leaves the covered cells unchanged. */
  lemma FullTurnSameCells(b: Block, catalog: Catalog)
    requires WellFormed(catalog) && b.rotation < StateCount(b, catalog)
    ensures OccupiedCells(RotateTimes(b, true, StateCount(b, catalog), catalog), catalog)
            == OccupiedCells(b, catalog)
  {
    FullTurn(b, catalog);
  }

  /** A new piece has a valid rotation index, is its own clone, and covers the
      first rotation state moved to the spawn position. */
  lemma NewIsSpawned(shape: BlockType, catalog: Catalog)
    requires WellFormed(catalog)
    ensures New(shape).rotation < StateCount(New(shape), catalog)
    ensures Clone(New(shape)) == New(shape)
    ensures var cells := OccupiedCells(New(shape), catalog);
      |cells| == |catalog(shape)[0]| &&
      forall i :: 0 <= i < |cells| ==> cells[i] == catalog(shape)[0][i].Add(SpawnPosition)
  {
  }

  /** The piece used before any other is spawned is a fresh O piece: it sits at
      the spawn position in rotation 0, is not a ghost, and covers the O shape's
      first rotation state moved to that position. */
  lemma DefaultIsSpawnedO(catalog: Catalog)
    requires WellFormed(catalog)
    ensures Default.shape == O && Default.pos == SpawnPosition
    ensures Default.rotation == 0 && !Default.isGhost
    ensures var cells := OccupiedCells(Default, catalog);
      |cells| == |catalog(O)[0]| &&
      forall i :: 0 <= i < |cells| ==> cells[i] == catalog(O)[0][i].Add(SpawnPosition)
  {
    NewIsSpawned(O, catalog);
  }
}
