/** The one-word life cycle that start-up and the cached paths share
    (include/narthex/inl/lifecycle.h): each call is one atomic access to the word.
  */
module Lifecycle {

  datatype Life = Dead | Starting | Alive | Stopping

  datatype Status = Ok | AlreadyInitialized | NotInitialized | NotReady

  // A compare-and-swap leaves the word alone unless it holds what is expected, and either way
  // tells what it held.
  function Swapped(held: Life, expected: Life, desired: Life): Life {
    if held == expected then desired else held
  }

  class LifeWord {
    var life: Life

    constructor ()
      ensures life == Dead
    {
      life := Dead;
    }

    method CompareAndSwap(expected: Life, desired: Life) returns (won: bool, held: Life)
      modifies this
      ensures life == Swapped(old(life), expected, desired) && held == old(life) && won == (held == expected)
    {
      held := life;
      won := held == expected;
      if won {
        life := desired;
      }
    }

    // Only a dead word starts, and the loser learns whether waiting is of any use.
    method BeginInit() returns (r: Status)
      modifies this
      ensures r == Ok <==> old(life) == Dead
      ensures r == AlreadyInitialized <==> old(life) == Alive
      ensures r == NotReady <==> old(life) == Starting || old(life) == Stopping
      ensures life == if r == Ok then Starting else old(life)
    {
      var won, held := CompareAndSwap(Dead, Starting);
      if won {
        return Ok;
      }
      return if held == Alive then AlreadyInitialized else NotReady;
    }

    method EndInit()
      modifies this
      ensures life == Alive
    {
      life := Alive;
    }

    method FailInit()
      modifies this
      ensures life == Dead
    {
      life := Dead;
    }

    method BeginTerm() returns (r: Status)
      modifies this
      ensures r == Ok <==> old(life) == Alive
      ensures r == NotInitialized <==> old(life) == Dead
      ensures r == NotReady <==> old(life) == Starting || old(life) == Stopping
      ensures life == if r == Ok then Stopping else old(life)
    {
      var won, held := CompareAndSwap(Alive, Stopping);
      if won {
        return Ok;
      }
      return if held == Dead then NotInitialized else NotReady;
    }

    method EndTerm()
      modifies this
      ensures life == Dead
    {
      life := Dead;
    }
  }
}
