/** The game loop of MeteorMayhem as the source runs it: the loop's locals
    held by one object and updated in place, one method per block of the
    loop body. Every method is proved against the matching pure step of
    module Rules, so what Properties proves about the steps holds here. */
module Loop {
  import opened Field
  import opened Rules
  import Properties

  /** `realloc` of the buffer to `columns` entries followed by the `memset`
      that makes every entry from the old width on absent: the shared
      columns keep their entries and the added ones hold no meteor. */
  method Reallocate(a: array<int>, oldColumns: int, columns: nat) returns (grown: array<int>)
    requires oldColumns == a.Length
    ensures fresh(grown) && grown[..] == Resized(a[..], columns)
  {
    ghost var s := a[..];
    grown := new int[columns];
    var i := 0;
    while i < columns && i < a.Length
      invariant 0 <= i <= columns && i <= a.Length
      invariant grown[..i] == Resized(s, i)
    {
      grown[i] := a[i];
      i := i + 1;
    }
    if oldColumns < columns {
      var j := oldColumns;
      while j < columns
        invariant oldColumns <= j <= columns
        invariant grown[..j] == Resized(s, j)
      {
        grown[j] := Absent;
        j := j + 1;
      }
    }
    assert grown[..] == grown[..columns];
  }

  /** The advance pass over the buffer, column by column from the left:
      an absent column is skipped, a meteor moves one row down and becomes
      absent once its row is not below `rows`. */
  method AdvanceColumns(a: array<int>, rows: int)
    modifies a
    ensures a[..] == Advanced(old(a[..]), rows)
  {
    ghost var s := a[..];
    for i := 0 to a.Length
      invariant forall k :: 0 <= k < i ==> a[k] == AdvanceCell(s[k], rows)
      invariant forall k :: i <= k < a.Length ==> a[k] == s[k]
    {
      if a[i] <= Absent {
        continue;
      }
      a[i] := a[i] + 1;
      if a[i] >= rows {
        a[i] := Absent;
      }
    }
    forall k | 0 <= k < a.Length
      ensures a[k] == Advanced(s, rows)[k]
    {
      AdvancedAt(s, rows, k);
    }
  }

  class Game {
    /** One entry per screen column: a row, or at most -1 for "no meteor". */
    var meteors: array<int>
    /** The width the buffer was last sized for. */
    var oldScreenColumns: int
    var screenRows: int
    var screenColumns: int
    var playerX: int
    var playerY: int
    var health: int
    var rays: int
    var playerScore: int
    /** A ray is being fired; the player cannot act meanwhile. */
    var shotActive: bool
    /** The key read at the end of the last frame. */
    var key: Key
    /** The statistics line is shown on the bottom row. */
    const statistics: bool

    /** The loop's state as a value. */
    ghost function Model(): State
      reads this, meteors
    {
      State(meteors[..], oldScreenColumns, screenRows, screenColumns, playerX, playerY,
            health, rays, playerScore, shotActive, key)
    }

    ghost predicate Valid()
      reads this, meteors
    {
      Inv(Model())
    }

    /** The state before the first frame: an empty field as wide as the
        terminal, the player near the middle, full health, five rays. */
    constructor (rows: int, columns: nat, statistics: bool)
      requires 0 <= rows
      ensures Valid() && Model() == Initial(rows, columns)
      ensures this.statistics == statistics && fresh(meteors)
    {
      health := 100;
      playerScore := 0;
      rays := 5;
      shotActive := false;
      key := Other;
      screenRows := rows;
      screenColumns := columns;
      oldScreenColumns := columns;
      meteors := new int[columns](_ => Absent);
      playerX := columns / 2;
      playerY := rows / 2 - 1;
      this.statistics := statistics;
    }

    /** Reads the terminal size and, when the width changed, reallocates the
        buffer to the new width and records that width. */
    method Resize(rows: int, columns: nat)
      requires Valid()
      modifies this
      ensures Valid() && Model() == ResizeStep(old(Model()), rows, columns)
      ensures meteors.Length == oldScreenColumns == screenColumns == columns
      ensures meteors == old(meteors) || fresh(meteors)
    {
      screenRows := rows;
      screenColumns := columns;
      if meteors.Length != columns {
        ResizedSentinelForm(meteors[..], columns);
        meteors := Reallocate(meteors, oldScreenColumns, columns);
        oldScreenColumns := columns;
      }
    }

    /** Takes the bottom row out of the playable area when the statistics
        line is shown there. */
    method ReserveStatusRow()
      requires Valid()
      modifies this`screenRows
      ensures Valid() && Model() == ReserveStep(old(Model()), statistics)
    {
      if statistics {
        screenRows := screenRows - 1;
      }
    }

    /** Moves every meteor one row down; a meteor that leaves the playable
        area becomes absent. */
    method Advance(due: bool)
      requires Valid() && screenColumns == meteors.Length
      modifies meteors
      ensures Valid() && Model() == AdvanceStep(old(Model()), due)
    {
      if due {
        AdvanceColumns(meteors, screenRows);
        AdvancedOnScreen(old(meteors[..]), screenRows);
      }
    }

    /** Places a meteor at the top of the drawn column if it is empty. */
    method Spawn(due: bool, column: int)
      requires Valid() && 0 <= column < meteors.Length
      modifies meteors
      ensures Valid() && Model() == SpawnStep(old(Model()), due, column)
    {
      if due {
        if meteors[column] <= Absent {
          meteors[column] := 0;
        }
      }
    }

    /** Pulls the player back into the playable area. */
    method ClampPlayer()
      requires Valid()
      modifies this`playerX, this`playerY
      ensures Valid() && Model() == ClampStep(old(Model()))
      ensures 1 <= screenColumns ==> 0 <= playerX < screenColumns
      ensures 1 <= screenRows ==> 0 <= playerY < screenRows
    {
      playerY := Clamp(playerY, screenRows);
      playerX := Clamp(playerX, screenColumns);
    }

    /** While a shot is active, walks the ray up from the top row to the row
        above the player and destroys the meteor it meets in the player's
        column, for five points; ends the shot when its time is up. */
    method RayPass(expired: bool)
      requires Valid() && 0 <= playerX < meteors.Length
      modifies meteors, this`playerScore, this`shotActive
      ensures Valid() && Model() == RayStep(old(Model()), expired)
    {
      if shotActive {
        ghost var s := meteors[..];
        ghost var score := playerScore;
        var i := 0;
        while i < playerY
          invariant 0 <= i && (i <= playerY || i == 0)
          invariant if 0 <= s[playerX] < i
                    then meteors[..] == s[playerX := Absent] && playerScore == score + 5
                    else meteors[..] == s && playerScore == score
          modifies meteors, this`playerScore
        {
          if meteors[playerX] == i {
            meteors[playerX] := Absent;
            playerScore := playerScore + 5;
          }
          i := i + 1;
        }
        if expired {
          shotActive := false;
        }
      }
    }

    /** Adds 10 health and 2 rays when the regeneration period is up. */
    method Regenerate(due: bool)
      requires Valid()
      modifies this`health, this`rays
      ensures Valid() && Model() == RegenStep(old(Model()), due)
    {
      if due {
        health := health + 10;
        rays := rays + 2;
      }
    }

    /** A meteor on the player costs 20 health and is destroyed. */
    method CheckCollision()
      requires Valid() && 0 <= playerX < meteors.Length
      modifies meteors, this`health
      ensures Valid() && Model() == CollisionStep(old(Model()))
    {
      if meteors[playerX] == playerY {
        health := health - 20;
        meteors[playerX] := Absent;
      }
    }

    /** Records the key read and, unless a shot is active, fires, moves the
        player, or records the current width. */
    method HandleKey(k: Key)
      requires Valid() && oldScreenColumns == screenColumns
      modifies this`key, this`shotActive, this`rays, this`playerX, this`playerY,
               this`oldScreenColumns
      ensures Valid() && Model() == DispatchKey(old(Model()), k)
    {
      key := k;
      if !shotActive {
        match k
        case Fire =>
          if rays > 0 {
            shotActive := true;
            rays := rays - 1;
          }
        case Up => playerY := playerY - 1;
        case Down => playerY := playerY + 1;
        case Left => playerX := playerX - 1;
        case Right => playerX := playerX + 1;
        case Resize => oldScreenColumns := screenColumns;
        case _ =>
      }
    }

    /** Steps 1 to 4 of the loop body: resize, status row, advance, spawn. */
    method UpdateField(inp: FrameInput)
      requires Valid() && WellFormedInput(inp)
      modifies this, meteors
      ensures Valid() && Model() == FieldSteps(old(Model()), statistics, inp)
      ensures meteors.Length == oldScreenColumns == screenColumns
      ensures meteors == old(meteors) || fresh(meteors)
    {
      Resize(inp.rows, inp.columns);
      ReserveStatusRow();
      Advance(inp.advanceDue);
      Spawn(inp.spawnDue, inp.spawnColumn);
    }

    /** Steps 5 to 8 of the loop body: clamp, ray pass, regeneration,
        collision. */
    method UpdatePlayer(inp: FrameInput)
      requires Valid() && 1 <= meteors.Length == screenColumns
      modifies this, meteors
      ensures Valid() && Model() == PlayerSteps(old(Model()), inp)
      ensures meteors == old(meteors) && meteors.Length == oldScreenColumns == screenColumns
    {
      ClampPlayer();
      RayPass(inp.shotExpired);
      Regenerate(inp.regenDue);
      CheckCollision();
    }

    /** One pass of the loop body, its blocks in source order. */
    method Frame(inp: FrameInput)
      requires Valid() && WellFormedInput(inp)
      modifies this, meteors
      ensures Valid() && Model() == Rules.Frame(old(Model()), statistics, inp)
      ensures meteors == old(meteors) || fresh(meteors)
    {
      UpdateField(inp);
      UpdatePlayer(inp);
      HandleKey(inp.key);
    }

    /** The game loop: one frame per input while the last key was not quit
        and health is left. It stops early only at game over. */
    method Play(inputs: seq<FrameInput>) returns (frames: nat)
      requires Valid()
      requires forall i :: 0 <= i < |inputs| ==> WellFormedInput(inputs[i])
      modifies this, meteors
      ensures Valid() && Model() == Run(old(Model()), statistics, inputs)
      ensures frames <= |inputs| && (frames < |inputs| ==> !Running(Model()))
    {
      ghost var final := Run(Model(), statistics, inputs);
      frames := 0;
      while frames < |inputs| && key != Quit && health > 0
        invariant frames <= |inputs|
        invariant Valid()
        invariant meteors == old(meteors) || fresh(meteors)
        invariant final == Run(Model(), statistics, inputs[frames..])
      {
        ghost var before := Model();
        Properties.RunOneFrame(before, statistics, inputs, frames);
        Frame(inputs[frames]);
        frames := frames + 1;
      }
      if frames == |inputs| {
        assert inputs[frames..] == [];
      }
    }
  }
}
