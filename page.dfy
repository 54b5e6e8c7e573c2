/** The game session of src/pages/index.tsx: the state of the `Home` component
    and its event handlers, each one atomic step over the state before the event.
    Random draws are made by the caller: every handler that needs a new grid is
    given the grid `generateGrid` returns, and one that needs a rule number the
    draw of Math.random() it is picked from. */
module Page {
  import opened Core

  class Home {
    var muncherPos: int
    var score: int
    var mode: GameMode
    var ruleNumber: int
    var grid: seq<Cell>

    /** The cursor is on the grid, the rule number belongs to the mode and every
        one of the 25 cells is a value the generator gives for them. */
    ghost predicate Valid()
      reads this
    {
      0 <= muncherPos < CellCount && RuleInRange(mode, ruleNumber) && GridFits(mode, ruleNumber, grid)
    }

    /** The page once mounted: the cursor in the centre, score 0, multiples of 2,
        and the grid the mount effect generated for them. */
    constructor (initialGrid: seq<Cell>)
      requires GridFits(Multiples, 2, initialGrid)
      ensures Valid()
      ensures muncherPos == 12 && score == 0 && mode == Multiples && ruleNumber == 2
      ensures grid == initialGrid
    {
      muncherPos := 12;
      score := 0;
      mode := Multiples;
      ruleNumber := 2;
      grid := initialGrid;
    }

    /** `moveTo(newPos)`: the cursor goes to newPos with a step sound. */
    method MoveTo(newPos: int) returns (fb: Feedback)
      requires Valid() && 0 <= newPos < CellCount
      modifies this
      ensures Valid() && muncherPos == newPos && fb == StepSound
      ensures score == old(score) && grid == old(grid)
      ensures mode == old(mode) && ruleNumber == old(ruleNumber)
    {
      muncherPos := newPos;
      fb := StepSound;
    }

    /** Selecting the cursor's cell, by Enter or by touching it. A correct cell is
        eaten: it alone is replaced by the first cell of `generated`, the grid
        `generateGrid(mode, ruleNumber)` returns, and the score goes up by one.
        An incorrect one leaves the grid and costs one point. */
    method Select(generated: seq<Cell>) returns (fb: Feedback)
      requires Valid() && GridFits(mode, ruleNumber, generated)
      modifies this
      ensures Valid()
      ensures muncherPos == old(muncherPos) && mode == old(mode) && ruleNumber == old(ruleNumber)
      ensures Correct(mode, old(grid)[muncherPos], ruleNumber) ==>
                grid == old(grid)[muncherPos := generated[0]] && score == old(score) + 1 && fb == MunchSound
      ensures !Correct(mode, old(grid)[muncherPos], ruleNumber) ==>
                grid == old(grid) && score == old(score) - 1 && fb == ErrorSound
      ensures mode.Inequality? ==> score == old(score) + 1
    {
      var value := grid[muncherPos];
      if mode.Inequality? {
        InequalityCellsCorrect(ruleNumber, value);
      }
      var ok := IsCorrect(mode, value, ruleNumber);
      if ok {
        grid := grid[muncherPos := generated[0]];
        score := score + 1;
        fb := MunchSound;
      } else {
        score := score - 1;
        fb := ErrorSound;
      }
    }

    /** `handleKey`: an arrow key moves the cursor to the neighbouring cell when
        there is one (with a step sound), Enter selects the cursor's cell, any
        other key does nothing. */
    method HandleKey(key: Key, generated: seq<Cell>) returns (fb: Feedback)
      requires Valid() && GridFits(mode, ruleNumber, generated)
      modifies this
      ensures Valid() && mode == old(mode) && ruleNumber == old(ruleNumber)
      ensures !key.Enter? ==> muncherPos == Step(old(muncherPos), key)
      ensures !key.Enter? ==> grid == old(grid) && score == old(score)
      ensures !key.Enter? ==> fb == if muncherPos == old(muncherPos) then Silent else StepSound
      ensures key.Enter? ==> muncherPos == old(muncherPos)
      ensures key.Enter? && Correct(mode, old(grid)[muncherPos], ruleNumber) ==>
                grid == old(grid)[muncherPos := generated[0]] && score == old(score) + 1 && fb == MunchSound
      ensures key.Enter? && !Correct(mode, old(grid)[muncherPos], ruleNumber) ==>
                grid == old(grid) && score == old(score) - 1 && fb == ErrorSound
    {
      var pos := muncherPos;
      var row := pos / GridSize;
      var col := pos % GridSize;
      fb := Silent;
      if key == ArrowUp && row > 0 { fb := MoveTo(pos - GridSize); }
      if key == ArrowDown && row < GridSize - 1 { fb := MoveTo(pos + GridSize); }
      if key == ArrowLeft && col > 0 { fb := MoveTo(pos - 1); }
      if key == ArrowRight && col < GridSize - 1 { fb := MoveTo(pos + 1); }
      if key == Enter {
        fb := Select(generated);
      }
    }

    /** `handleTouch(index)`: touching the cursor's cell selects it, touching any
        other cell moves the cursor there. */
    method HandleTouch(index: int, generated: seq<Cell>) returns (fb: Feedback)
      requires Valid() && 0 <= index < CellCount && GridFits(mode, ruleNumber, generated)
      modifies this
      ensures Valid() && mode == old(mode) && ruleNumber == old(ruleNumber)
      ensures index != old(muncherPos) ==>
                muncherPos == index && grid == old(grid) && score == old(score) && fb == StepSound
      ensures index == old(muncherPos) ==> muncherPos == old(muncherPos)
      ensures index == old(muncherPos) && Correct(mode, old(grid)[index], ruleNumber) ==>
                grid == old(grid)[index := generated[0]] && score == old(score) + 1 && fb == MunchSound
      ensures index == old(muncherPos) && !Correct(mode, old(grid)[index], ruleNumber) ==>
                grid == old(grid) && score == old(score) - 1 && fb == ErrorSound
    {
      if index == muncherPos {
        fb := Select(generated);
      } else {
        fb := MoveTo(index);
      }
    }

    /** `changeMode(newMode)`: the rule number is picked from the draw r, the
        score is reset to 0 and the cursor to the centre. The grid is the one
        changeMode generates (`changeGrid`), unless mode or rule number changed:
        then the effect keyed on them runs and replaces it (`effectGrid`). */
    method ChangeMode(newMode: GameMode, r: real, changeGrid: seq<Cell>, effectGrid: seq<Cell>)
      requires IsDraw(r)
      requires GridFits(newMode, RuleNumberFor(newMode, r), changeGrid)
      requires GridFits(newMode, RuleNumberFor(newMode, r), effectGrid)
      modifies this
      ensures Valid()
      ensures mode == newMode && ruleNumber == RuleNumberFor(newMode, r)
      ensures score == 0 && muncherPos == 12
      ensures grid == if mode == old(mode) && ruleNumber == old(ruleNumber) then changeGrid else effectGrid
    {
      var num := RuleNumberFor(newMode, r);
      var effectRuns := newMode != mode || num != ruleNumber;
      mode := newMode;
      ruleNumber := num;
      grid := changeGrid;
      score := 0;
      muncherPos := 12;
      if effectRuns {
        grid := effectGrid;
      }
    }
  }
}
