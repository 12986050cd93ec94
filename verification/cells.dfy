/** Cell types, their integer codes and their level-map symbols
    (`CellType` and the two symbol tables of `Field` in
    snakeai/gameplay/entities.py). */
module Cells {
  import opened Errors

  /** The two players are numbered 0 and 1. */
  type AgentId = i: int | 0 <= i < 2

  function Other(i: AgentId): AgentId {
    1 - i
  }

  /** Exactly one of these occupies each cell of the field. */
  datatype Cell = Empty | Fruit | SnakeHead(owner: AgentId) | SnakeBody(owner: AgentId) | Wall

  /** The integer code the program stores in its grid and hands out as the
      observation: EMPTY 0, FRUIT 1, heads 20 and 21, bodies 30 and 31, WALL 4. */
  function Code(c: Cell): int {
    match c
    case Empty => 0
    case Fruit => 1
    case SnakeHead(i) => if i == 0 then 20 else 21
    case SnakeBody(i) => if i == 0 then 30 else 31
    case Wall => 4
  }

  /** Distinct cell types have distinct codes, so an observation names
      every cell type unambiguously. */
  lemma CodeInjective(a: Cell, b: Cell)
    ensures Code(a) == Code(b) ==> a == b
  {
  }

  /** The level-map symbol table: `A B s x # O .`; any other character
      has no cell type. */
  function CellOfSymbol(ch: char): (r: Option<Cell>)
    ensures r.Some? <==> ch in "ABsx#O."
  {
    match ch
    case 'A' => Some(SnakeHead(0))
    case 'B' => Some(SnakeHead(1))
    case 's' => Some(SnakeBody(0))
    case 'x' => Some(SnakeBody(1))
    case '#' => Some(Wall)
    case 'O' => Some(Fruit)
    case '.' => Some(Empty)
    case _ => None
  }

  /** The inverted table used to print a field: it maps each cell type back
      to the one symbol that denotes it. */
  function SymbolOf(c: Cell): (ch: char)
    ensures CellOfSymbol(ch) == Some(c)
  {
    match c
    case SnakeHead(i) => if i == 0 then 'A' else 'B'
    case SnakeBody(i) => if i == 0 then 's' else 'x'
    case Wall => '#'
    case Fruit => 'O'
    case Empty => '.'
  }

  /** The symbol table is injective, so inverting it loses nothing:
      printing the cell a symbol denotes gives back that symbol. */
  lemma SymbolRoundTrip(ch: char)
    requires CellOfSymbol(ch).Some?
    ensures SymbolOf(CellOfSymbol(ch).value) == ch
  {
  }
}
