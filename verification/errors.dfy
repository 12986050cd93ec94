/** Optional values and the failures the game engine reports.

    The program signals its configuration failures with Python exceptions;
    here each of them is an `Error` value carried by `Result`, so that a
    caller of the model sees exactly when the program would raise. */
module Errors {

  datatype Option<+T> = None | Some(value: T)

  /** Why building a field or an episode fails. */
  datatype Error =
    /** `create_level`: a level-map character outside the symbol table (ValueError). */
    | UnknownSymbol(symbol: char)
    /** `find_snake_head`: no cell carries the head marker with this code (ValueError). */
    | MissingSnakeHead(marker: int)
    /** `place_snake` reads the head of a snake whose body is empty (IndexError). */
    | EmptySnake
    /** `place_snake` writes a body cell below the last row of the field (IndexError). */
    | OffField
    /** `get_random_empty_cell` draws from an empty list: the field is full (IndexError). */
    | NoEmptyCell
    /** `choose_action` turns the snake of an agent index past the end of
        the snake list (IndexError). */
    | NoSuchAgent
    /** The step-limit branch of `timestep` assigns an attribute on the
        list of per-agent statistics, which a list does not accept
        (AttributeError). */
    | AttributeOnStatsList

  /** Success or failure, usable with `:-`. */
  datatype Result<+T> = Success(value: T) | Failure(error: Error) {

    predicate IsFailure() {
      Failure?
    }

    function PropagateFailure<U>(): Result<U>
      requires Failure?
    {
      Failure(error)
    }

    function Extract(): T
      requires Success?
    {
      value
    }
  }
}
