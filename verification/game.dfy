/** How the pieces, the board and the reward table meet when a piece locks:
    the piece's cells are drawn onto the settled cells, full rows are cleared,
    and the number of cleared rows is looked up in the reward table. */
module Game {
  import opened Grid
  import CollisionManager
  import Blocks
  import Alerts

  /** On a board without a full row, locking a piece of at most four cells
      clears between 0 and 4 rows, so the reward lookup for the count is
      defined, and the board again has no full row afterwards. */
  lemma LockClearsAtMostFour(cells: seq<Vec2D>, b: Blocks.Block, catalog: Blocks.Catalog)
    requires Blocks.WellFormed(catalog)
    requires |Blocks.OccupiedCells(b, catalog)| <= 4
    requires forall row :: !CollisionManager.RowFull(cells, row)
    ensures var cleared := CollisionManager.DrawAndClearLines(cells, Blocks.OccupiedCells(b, catalog));
      && 0 <= cleared.lines <= 4
      && Alerts.AlertForFilledLines(cleared.lines).None? == (cleared.lines == 0)
      && forall row :: !CollisionManager.RowFull(cleared.cells, row)
  {
    var plotted := Blocks.OccupiedCells(b, catalog);
    CollisionManager.ClearedAtMostDrawn(cells, plotted);
    forall row
      ensures !CollisionManager.RowFull(CollisionManager.DrawAndClearLines(cells, plotted).cells, row)
    {
      CollisionManager.ClearLeavesNoFullRow(cells + plotted, row);
    }
  }
}
