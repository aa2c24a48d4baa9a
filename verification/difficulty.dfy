/**
 * The difficulty resource: three presets and a custom board, each giving a
 * board size and a number of mines.
 */
module Difficulties {
  import opened GridSizes

  datatype Difficulty =
    | Beginner
    | Intermediate
    | Expert
    | Custom(size: GridSize, mines: nat)
  {
    /** The board size of the difficulty; a custom board is taken as given. */
    function Size(): (s: GridSize)
      ensures Custom? ==> s == size
      ensures !Custom? ==> s.Columns() >= 8 && s.Rows() >= 8
    {
      match this
      case Beginner => GridSize.New(8, 8)
      case Intermediate => GridSize.New(16, 16)
      case Expert => GridSize.New(32, 16)
      case Custom(size, _) => size
    }

    /**
     * The number of mines; a custom mine count is taken as given, with no
     * check against the board size. Every preset fits on its own board.
     */
    function Mines(): (n: nat)
      ensures Custom? ==> n == mines
      ensures !Custom? ==> 0 < n < Size().Capacity()
    {
      match this
      case Beginner => 10
      case Intermediate => 40
      case Expert => 100
      case Custom(_, mines) => mines
    }
  }

  /** The difficulty a new game starts with. */
  function DefaultDifficulty(): (d: Difficulty)
    ensures d.Size() == GridSize(8, 8) && d.Mines() == 10
  {
    Beginner
  }

  /** The preset table: board dimensions and mine counts. */
  lemma PresetTable()
    ensures Beginner.Size() == GridSize(8, 8) && Beginner.Mines() == 10
    ensures Intermediate.Size() == GridSize(16, 16) && Intermediate.Mines() == 40
    ensures Expert.Size() == GridSize(32, 16) && Expert.Mines() == 100
  {
  }

  /** A custom difficulty returns its size and mine count unvalidated, even more mines than cells. */
  lemma CustomUnvalidated(size: GridSize, mines: nat)
    ensures Custom(size, mines).Size() == size
    ensures Custom(size, mines).Mines() == mines
  {
  }
}
