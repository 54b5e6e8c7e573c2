/** The game session of math-chompers/src/pages/index.tsx: the same `Home`
    state, with arrow keys and Enter as the only input, no step sound, and a
    grid effect that runs only when the page mounts. */
module ChompersPage {
  import opened Core

  class Home {
    var muncherPos: int
    var score: int
    var mode: GameMode
    var ruleNumber: int
    var grid: seq<Cell>

    /** The cursor is on the grid, the rule number belongs to the mode and every
        one of the 25 cells is a value the generator gives for them. */
    ghost predicate Valid()
      reads this
    {
      0 <= muncherPos < CellCount && RuleInRange(mode, ruleNumber) && GridFits(mode, ruleNumber, grid)
    }

    /** The page once mounted: the cursor in the centre, score 0, multiples of 2,
        and the grid the mount effect generated for them. */
    constructor (initialGrid: seq<Cell>)
      requires GridFits(Multiples, 2, initialGrid)
      ensures Valid()
      ensures muncherPos == 12 && score == 0 && mode == Multiples && ruleNumber == 2
      ensures grid == initialGrid
    {
      muncherPos := 12;
      score := 0;
      mode := Multiples;
      ruleNumber := 2;
      grid := initialGrid;
    }

    /** `handleKey`: an arrow key moves the cursor to the neighbouring cell when
        there is one; Enter eats a correct cell, replacing it alone by the first
        cell of `generated` (the grid `generateGrid(mode, ruleNumber)` returns) and
        adding a point, or costs a point on an incorrect one. */
    method HandleKey(key: Key, generated: seq<Cell>) returns (fb: Feedback)
      requires Valid() && GridFits(mode, ruleNumber, generated)
      modifies this
      ensures Valid() && mode == old(mode) && ruleNumber == old(ruleNumber)
      ensures !key.Enter? ==> muncherPos == Step(old(muncherPos), key)
      ensures !key.Enter? ==> grid == old(grid) && score == old(score) && fb == Silent
      ensures key.Enter? ==> muncherPos == old(muncherPos)
      ensures key.Enter? && Correct(mode, old(grid)[muncherPos], ruleNumber) ==>
                grid == old(grid)[muncherPos := generated[0]] && score == old(score) + 1 && fb == MunchSound
      ensures key.Enter? && !Correct(mode, old(grid)[muncherPos], ruleNumber) ==>
                grid == old(grid) && score == old(score) - 1 && fb == ErrorSound
      ensures key.Enter? && mode.Inequality? ==> score == old(score) + 1
    {
      var pos := muncherPos;
      var row := pos / GridSize;
      var col := pos % GridSize;
      fb := Silent;
      if key == ArrowUp && row > 0 { muncherPos := pos - GridSize; }
      if key == ArrowDown && row < GridSize - 1 { muncherPos := pos + GridSize; }
      if key == ArrowLeft && col > 0 { muncherPos := pos - 1; }
      if key == ArrowRight && col < GridSize - 1 { muncherPos := pos + 1; }
      if key == Enter {
        var value := grid[pos];
        if mode.Inequality? {
          InequalityCellsCorrect(ruleNumber, value);
        }
        var ok := IsCorrect(mode, value, ruleNumber);
        if ok {
          grid := grid[pos := generated[0]];
          score := score + 1;
          fb := MunchSound;
        } else {
          score := score - 1;
          fb := ErrorSound;
        }
      }
    }

    /** `changeMode(newMode)`: the rule number is picked from the draw r, the grid
        is `generated`, the one generated for the new mode and rule number, the score
        is reset to 0 and the cursor to the centre. */
    method ChangeMode(newMode: GameMode, r: real, generated: seq<Cell>)
      requires IsDraw(r) && GridFits(newMode, RuleNumberFor(newMode, r), generated)
      modifies this
      ensures Valid()
      ensures mode == newMode && ruleNumber == RuleNumberFor(newMode, r)
      ensures grid == generated && score == 0 && muncherPos == 12
    {
      var num := RuleNumberFor(newMode, r);
      mode := newMode;
      ruleNumber := num;
      grid := generated;
      score := 0;
      muncherPos := 12;
    }
  }
}
