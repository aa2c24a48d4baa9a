/**
 * The state of one board cell. A tile does not know its position: that is
 * given by the grid slot that refers to it.
 */
module Tiles {

  datatype Tile = Default | Flag | Mine | Boom {

    /**
     * The sprite-sheet frame of the state, an external contract with the
     * rendering layer: Default, Flag, Mine, Boom are frames 0, 1, 2, 3.
     */
    function Index(): (n: nat)
      ensures n < 4
    {
      match this
      case Default => 0
      case Flag => 1
      case Mine => 2
      case Boom => 3
    }

    /** `Hash` writes the frame number, and nothing else, into the hasher. */
    function Hash(): (h: nat)
      ensures h < 4
    {
      Index()
    }
  }

  /** The four states, listed in frame order. */
  function All(): (ts: seq<Tile>)
    ensures |ts| == 4
    ensures forall i :: 0 <= i < 4 ==> ts[i].Index() == i
    ensures forall t: Tile :: ts[t.Index()] == t
  {
    [Default, Flag, Mine, Boom]
  }

  /** The frame numbers of the four states are exactly 0, 1, 2, 3 in declaration order. */
  lemma IndexTable()
    ensures Default.Index() == 0 && Flag.Index() == 1
    ensures Mine.Index() == 2 && Boom.Index() == 3
  {
  }

  /** Different states have different frame numbers. */
  lemma IndexInjective(a: Tile, b: Tile)
    ensures a.Index() == b.Index() <==> a == b
  {
  }

  /** Hashing through the frame number agrees with equality, as `Hash` requires of `Eq`. */
  lemma HashConsistentWithEq(a: Tile, b: Tile)
    ensures a == b <==> a.Hash() == b.Hash()
  {
    IndexInjective(a, b);
  }
}
