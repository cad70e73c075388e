/** One cell of the tic-tac-toe grid (src/Space.java).
    A cell is blank until an occupant's symbol is written into it, and a
    written symbol is never replaced: the only transition is BLANK -> symbol. */
module Spaces {

  /** The sentinel symbol of an unoccupied cell: a single space character. */
  const BLANK: string := " "

  /** The symbol a cell holds after an occupation attempt: the occupant's
      symbol when the cell was blank, the old symbol otherwise. */
  function Occupied(current: string, occupant: string): string
  {
    if current == BLANK then occupant else current
  }

  /** A real occupant never leaves the cell blank: the transition is one-way. */
  lemma OccupiedOneWay(current: string, occupant: string)
    requires occupant != BLANK
    ensures Occupied(current, occupant) != BLANK
    ensures current != BLANK ==> Occupied(current, occupant) == current
  {
  }

  /** Once a real occupant is in, every later attempt, by anybody, fails
      and leaves the symbol as it is. */
  lemma OccupiedTwice(current: string, first: string, second: string)
    requires first != BLANK
    ensures Occupied(current, first) != BLANK
    ensures Occupied(Occupied(current, first), second) == Occupied(current, first)
  {
  }

  /** Under value equality, occupying a blank cell with BLANK "succeeds"
      and leaves the cell blank, so it stays open to a later occupant;
      this is why the occupants of the model are required to differ from BLANK. */
  lemma OccupiedByBlank(current: string)
    ensures Occupied(current, BLANK) == current
    ensures current == BLANK ==> Occupied(current, BLANK) == BLANK
  {
  }

  class Space {
    var symbol: string

    /** Every cell starts blank. */
    constructor ()
      ensures symbol == BLANK
    {
      symbol := BLANK;
    }

    /** The current symbol; reading it changes nothing. */
    method GetSymbol() returns (s: string)
      ensures s == symbol
    {
      s := symbol;
    }

    /** Writes the occupant's symbol only if the cell is blank and reports
        whether it did. */
    method OccupySpace(occupant: string) returns (ok: bool)
      requires occupant != BLANK
      modifies this
      ensures ok <==> old(symbol) == BLANK
      ensures symbol == Occupied(old(symbol), occupant)
      ensures ok ==> symbol == occupant
      ensures !ok ==> symbol == old(symbol)
      ensures symbol != BLANK
    {
      if symbol == BLANK {
        symbol := occupant;
        return true;
      }
      return false;
    }
  }
}
