/** What the frame steps of MeteorMayhem promise, stated over the pure
    rules: the effect of each step, what it leaves unchanged, and the
    invariant every frame keeps. */
module Properties {
  import opened Field
  import opened Rules

  // ---------------------------------------------------------------------
  // Resize
  // ---------------------------------------------------------------------

  /** Reallocating to a new width keeps every column both widths share,
      makes every newly added column absent, and records the new width,
      so that the buffer width, the recorded width and the screen width
      agree afterwards. Nothing but the screen size and the buffer changes. */
  lemma ResizeStepEffect(g: State, rows: int, columns: nat)
    requires g.oldScreenColumns == |g.meteors|
    ensures var r := ResizeStep(g, rows, columns);
      && |r.meteors| == r.oldScreenColumns == r.screenColumns == columns
      && r.screenRows == rows
      && (forall k :: 0 <= k < |g.meteors| && k < columns ==> r.meteors[k] == g.meteors[k])
      && (forall k :: |g.meteors| <= k < columns ==> r.meteors[k] == Absent)
      && r == g.(meteors := r.meteors, oldScreenColumns := r.oldScreenColumns,
                 screenRows := rows, screenColumns := columns)
  {
    var r := ResizeStep(g, rows, columns);
    if |g.meteors| != columns {
      forall k | 0 <= k < columns
        ensures k < |g.meteors| ==> r.meteors[k] == g.meteors[k]
        ensures |g.meteors| <= k ==> r.meteors[k] == Absent
      {
        ResizedAt(g.meteors, columns, k);
      }
    }
  }

  /** Because the recorded width always equals the buffer width after the
      resize step, the resize key changes nothing in a frame but the key it
      records. */
  lemma ResizeKeyChangesNothing(g: State, statistics: bool, inp: FrameInput)
    requires Inv(g) && WellFormedInput(inp) && inp.key == Resize
    ensures Frame(g, statistics, inp) == Frame(g, statistics, inp.(key := Other)).(key := Resize)
  {
    var g4 := FieldSteps(g, statistics, inp);
    FieldStepsInv(g, statistics, inp);
    var g8 := PlayerSteps(g4, inp);
    PlayerStepsInv(g4, inp);
    assert DispatchKey(g8, Resize) == g8.(key := Resize);
  }

  // ---------------------------------------------------------------------
  // Spawn
  // ---------------------------------------------------------------------

  /** A spawn touches at most the drawn column, and only to turn an absent
      column into a meteor at row 0, adding exactly one meteor; every other
      part of the state is unchanged. */
  lemma SpawnStepEffect(g: State, due: bool, column: int)
    requires 0 <= column < |g.meteors|
    ensures var r := SpawnStep(g, due, column);
      && |r.meteors| == |g.meteors|
      && (forall k :: 0 <= k < |g.meteors| && k != column ==> r.meteors[k] == g.meteors[k])
      && (r.meteors[column] != g.meteors[column] <==> due && IsAbsent(g.meteors[column]))
      && (r.meteors[column] != g.meteors[column] ==> r.meteors[column] == 0)
      && Count(r.meteors) == Count(g.meteors) + (if due && IsAbsent(g.meteors[column]) then 1 else 0)
      && r == g.(meteors := r.meteors)
  {
    if due && IsAbsent(g.meteors[column]) {
      CountUpdate(g.meteors, column, 0);
    }
  }

  /** A field whose every column holds a meteor is left unchanged by a spawn. */
  lemma SpawnOnFullField(g: State, due: bool, column: int)
    requires 0 <= column < |g.meteors|
    requires forall k :: 0 <= k < |g.meteors| ==> !IsAbsent(g.meteors[k])
    ensures SpawnStep(g, due, column) == g
  {
  }

  // ---------------------------------------------------------------------
  // Clamp
  // ---------------------------------------------------------------------

  /** Once the field steps have run, the clamp puts the player's column
      inside the buffer, so the ray pass and the collision check read an
      existing column, and the player's row is never negative, so the ray
      pass covers only rows of the field. */
  lemma ClampStepBounds(g: State, statistics: bool, inp: FrameInput)
    requires WellFormedInput(inp)
    ensures var r := ClampStep(FieldSteps(g, statistics, inp));
      && 0 <= r.playerX < |r.meteors|
      && 0 <= r.playerY
      && (1 <= r.screenRows ==> r.playerY < r.screenRows)
  {
  }

  // ---------------------------------------------------------------------
  // Ray pass and collision
  // ---------------------------------------------------------------------

  /** While a shot is active, the ray clears the meteor in the player's
      column if and only if it is strictly above the player, and then the
      score rises by exactly 5 (otherwise by 0); no other column changes and
      the shot ends exactly when its duration has elapsed. Without an
      active shot nothing changes. */
  lemma RayStepEffect(g: State, expired: bool)
    requires 0 <= g.playerX < |g.meteors|
    ensures var r := RayStep(g, expired);
      && (!g.shotActive ==> r == g)
      && (g.shotActive ==>
            && (r.meteors != g.meteors <==> RayHits(g.meteors[g.playerX], g.playerY))
            && (RayHits(g.meteors[g.playerX], g.playerY) ==>
                  r.meteors == g.meteors[g.playerX := Absent] && r.score == g.score + 5)
            && (!RayHits(g.meteors[g.playerX], g.playerY) ==>
                  r.meteors == g.meteors && r.score == g.score)
            && r.shotActive == !expired
            && r == g.(meteors := r.meteors, score := r.score, shotActive := r.shotActive))
  {
    if g.shotActive && RayHits(g.meteors[g.playerX], g.playerY) {
      assert RayStep(g, expired).meteors[g.playerX] != g.meteors[g.playerX];
    }
  }

  /** A meteor on the player's row causes a loss of exactly 20 health and
      is cleared; otherwise health and field are unchanged. */
  lemma CollisionStepEffect(g: State)
    requires 0 <= g.playerX < |g.meteors|
    ensures var r := CollisionStep(g);
      && (Collides(g) ==> r == g.(health := g.health - 20, meteors := g.meteors[g.playerX := Absent]))
      && (!Collides(g) ==> r == g)
  {
  }

  /** A meteor the ray destroyed cannot also hit the player in the same
      frame: once the player stands on a row (after the clamp), the
      regeneration and collision steps that follow the ray leave health as
      regeneration set it. */
  lemma RayKillIsNotACollision(g: State, expired: bool, due: bool)
    requires 0 <= g.playerX < |g.meteors| && 0 <= g.playerY
    requires g.shotActive && RayHits(g.meteors[g.playerX], g.playerY)
    ensures var h := RegenStep(RayStep(g, expired), due);
      && h.score == g.score + 5
      && CollisionStep(h) == h
  {
  }

  // ---------------------------------------------------------------------
  // Regeneration and keys
  // ---------------------------------------------------------------------

  /** A regeneration tick adds exactly 10 health and 2 rays, with no cap. */
  lemma RegenStepEffect(g: State, due: bool)
    ensures var r := RegenStep(g, due);
      && r.health == g.health + (if due then 10 else 0)
      && r.rays == g.rays + (if due then 2 else 0)
      && r == g.(health := r.health, rays := r.rays)
  {
  }

  /** While a shot is active no key changes anything but the recorded key. */
  lemma KeysLockedDuringShot(g: State, key: Key)
    requires g.shotActive
    ensures DispatchKey(g, key) == g.(key := key)
  {
  }

  /** A key moves the player, fires, or records the width, and touches
      nothing else: not the field, the health, the score or the screen. */
  lemma DispatchKeyScope(g: State, key: Key)
    ensures var r := DispatchKey(g, key);
      r == g.(key := key, playerX := r.playerX, playerY := r.playerY, rays := r.rays,
              shotActive := r.shotActive, oldScreenColumns := r.oldScreenColumns)
  {
  }

  /** Firing consumes exactly one ray and starts the shot when a ray is
      left; with no ray left it changes nothing but the recorded key. */
  lemma FireGating(g: State)
    requires !g.shotActive
    ensures var r := DispatchKey(g, Fire);
      && (0 < g.rays ==> r == g.(key := Fire, rays := g.rays - 1, shotActive := true))
      && (g.rays <= 0 ==> r == g.(key := Fire) && !r.shotActive)
  {
  }

  /** Each arrow key moves the player by exactly one cell along one axis,
      before any clamping. */
  lemma ArrowMoves(g: State, key: Key)
    requires !g.shotActive && key in {Up, Down, Left, Right}
    ensures var r := DispatchKey(g, key);
      && r == g.(key := key, playerX := r.playerX, playerY := r.playerY)
      && (key == Up ==> r.playerY == g.playerY - 1 && r.playerX == g.playerX)
      && (key == Down ==> r.playerY == g.playerY + 1 && r.playerX == g.playerX)
      && (key == Left ==> r.playerX == g.playerX - 1 && r.playerY == g.playerY)
      && (key == Right ==> r.playerX == g.playerX + 1 && r.playerY == g.playerY)
  {
  }

  // ---------------------------------------------------------------------
  // Whole frames and the game loop
  // ---------------------------------------------------------------------

  /** The buffer, the recorded width and the screen width agree. */
  predicate Synced(g: State, columns: int) {
    |g.meteors| == g.oldScreenColumns == g.screenColumns == columns
  }

  /** The resize step keeps the invariant and leaves the buffer, the
      recorded width and the screen width in agreement. */
  lemma ResizeStepInv(g: State, rows: int, columns: nat)
    requires Inv(g)
    ensures Inv(ResizeStep(g, rows, columns)) && Synced(ResizeStep(g, rows, columns), columns)
  {
    if |g.meteors| != columns {
      ResizedSentinelForm(g.meteors, columns);
    }
  }

  /** The advance step keeps the invariant and changes only the field. */
  lemma AdvanceStepInv(g: State, due: bool)
    requires Inv(g)
    ensures Inv(AdvanceStep(g, due)) && AdvanceStep(g, due) == g.(meteors := AdvanceStep(g, due).meteors)
  {
    if due {
      AdvancedOnScreen(g.meteors, g.screenRows);
    }
  }

  /** The field steps keep the invariant and the agreement of the widths. */
  lemma FieldStepsInv(g: State, statistics: bool, inp: FrameInput)
    requires Inv(g) && WellFormedInput(inp)
    ensures Inv(FieldSteps(g, statistics, inp)) && Synced(FieldSteps(g, statistics, inp), inp.columns)
    ensures FieldSteps(g, statistics, inp).score == g.score
  {
    var g1 := ResizeStep(g, inp.rows, inp.columns);
    ResizeStepInv(g, inp.rows, inp.columns);
    var g2 := ReserveStep(g1, statistics);
    AdvanceStepInv(g2, inp.advanceDue);
  }

  /** The player steps keep the invariant and the agreement of the widths,
      and change the score by 5 or not at all. */
  lemma PlayerStepsInv(g: State, inp: FrameInput)
    requires Inv(g) && Synced(g, |g.meteors|) && 1 <= |g.meteors|
    ensures var r := PlayerSteps(g, inp);
      Inv(r) && Synced(r, |g.meteors|) && (r.score == g.score || r.score == g.score + 5)
  {
  }

  /** Key dispatch keeps the invariant once the recorded width is the
      screen width, and never changes the score. */
  lemma DispatchKeyInv(g: State, key: Key)
    requires Inv(g) && g.oldScreenColumns == g.screenColumns
    ensures Inv(DispatchKey(g, key)) && DispatchKey(g, key).score == g.score
  {
  }

  /** Every frame keeps the invariant: the recorded width matches the
      buffer, columns hold the sentinel or a row, rays never go negative
      and the score stays a non-negative multiple of 5. Within the frame the
      score rises by 5 or not at all. */
  lemma FramePreservesInv(g: State, statistics: bool, inp: FrameInput)
    requires Inv(g) && WellFormedInput(inp)
    ensures var r := Frame(g, statistics, inp);
      Inv(r) && (r.score == g.score || r.score == g.score + 5)
  {
    var g4 := FieldSteps(g, statistics, inp);
    FieldStepsInv(g, statistics, inp);
    var g8 := PlayerSteps(g4, inp);
    PlayerStepsInv(g4, inp);
    DispatchKeyInv(g8, inp.key);
  }

  /** The field steps with a due advance leave every column absent or on a
      row of the playable area, when that area has a row for the spawn. */
  lemma FieldStepsOnScreen(g: State, statistics: bool, inp: FrameInput)
    requires Inv(g) && WellFormedInput(inp) && inp.advanceDue
    requires 1 <= inp.rows - (if statistics then 1 else 0)
    ensures var r := FieldSteps(g, statistics, inp); OnScreen(r.meteors, r.screenRows)
  {
    var g1 := ResizeStep(g, inp.rows, inp.columns);
    ResizeStepInv(g, inp.rows, inp.columns);
    var g2 := ReserveStep(g1, statistics);
    AdvancedOnScreen(g2.meteors, g2.screenRows);
  }

  /** The player steps only ever clear columns, so they keep the bound. */
  lemma PlayerStepsOnScreen(g: State, inp: FrameInput)
    requires 1 <= |g.meteors| == g.screenColumns && OnScreen(g.meteors, g.screenRows)
    ensures var r := PlayerSteps(g, inp); OnScreen(r.meteors, r.screenRows)
  {
    var g6 := RayStep(ClampStep(g), inp.shotExpired);
    assert OnScreen(g6.meteors, g6.screenRows);
  }

  /** A frame whose advance is due ends with every column absent or on a
      row of the playable area, provided that area has at least one row. */
  lemma FrameOnScreen(g: State, statistics: bool, inp: FrameInput)
    requires Inv(g) && WellFormedInput(inp) && inp.advanceDue
    requires 1 <= inp.rows - (if statistics then 1 else 0)
    ensures var r := Frame(g, statistics, inp); OnScreen(r.meteors, r.screenRows)
  {
    FieldStepsOnScreen(g, statistics, inp);
    PlayerStepsOnScreen(FieldSteps(g, statistics, inp), inp);
  }

  /** A spawn writes row 0, which is on screen once there is a row. */
  lemma SpawnStepOnScreen(g: State, due: bool, column: int)
    requires 0 <= column < |g.meteors| && 1 <= g.screenRows
    requires OnScreen(g.meteors, g.screenRows)
    ensures OnScreen(SpawnStep(g, due, column).meteors, g.screenRows)
  {
  }

  /** The field steps keep the playable-area bound whenever the frame does
      not lose playable height, or the advance is due and drops what fell
      below it; the playable area needs a row for the spawn. */
  lemma FieldStepsKeepOnScreen(g: State, statistics: bool, inp: FrameInput)
    requires Inv(g) && WellFormedInput(inp) && OnScreen(g.meteors, g.screenRows)
    requires 1 <= inp.rows - (if statistics then 1 else 0)
    requires inp.advanceDue || g.screenRows <= inp.rows - (if statistics then 1 else 0)
    ensures var r := FieldSteps(g, statistics, inp); OnScreen(r.meteors, r.screenRows)
  {
    if inp.advanceDue {
      FieldStepsOnScreen(g, statistics, inp);
    } else {
      var g1 := ResizeStep(g, inp.rows, inp.columns);
      ResizeStepInv(g, inp.rows, inp.columns);
      if |g.meteors| != inp.columns {
        ResizedOnScreen(g.meteors, inp.columns, g.screenRows);
      }
      var g3 := AdvanceStep(ReserveStep(g1, statistics), false);
      OnScreenTaller(g1.meteors, g.screenRows, g3.screenRows);
      SpawnStepOnScreen(g3, inp.spawnDue, inp.spawnColumn);
    }
  }

  /** Every frame that does not lose playable height, and every frame whose
      advance is due, keeps every column absent or on a row of the playable
      area, provided that area has at least one row. */
  lemma FrameKeepsOnScreen(g: State, statistics: bool, inp: FrameInput)
    requires Inv(g) && WellFormedInput(inp) && OnScreen(g.meteors, g.screenRows)
    requires 1 <= inp.rows - (if statistics then 1 else 0)
    requires inp.advanceDue || g.screenRows <= inp.rows - (if statistics then 1 else 0)
    ensures var r := Frame(g, statistics, inp); OnScreen(r.meteors, r.screenRows)
  {
    FieldStepsKeepOnScreen(g, statistics, inp);
    PlayerStepsOnScreen(FieldSteps(g, statistics, inp), inp);
  }

  /** With the statistics line shown, no meteor ends a frame on the bottom
      row of the terminal, where that line is: either the advance is due,
      or the field was on screen and the frame lost no playable height. */
  lemma StatusRowStaysClear(g: State, inp: FrameInput)
    requires Inv(g) && WellFormedInput(inp) && 2 <= inp.rows
    requires inp.advanceDue || (OnScreen(g.meteors, g.screenRows) && g.screenRows <= inp.rows - 1)
    ensures var r := Frame(g, true, inp);
      r.screenRows == inp.rows - 1
      && forall k :: 0 <= k < |r.meteors| ==> r.meteors[k] < inp.rows - 1
  {
    if inp.advanceDue {
      FrameOnScreen(g, true, inp);
    } else {
      FrameKeepsOnScreen(g, true, inp);
    }
  }

  /** The playable-area bound is not kept by a frame that shrinks the
      terminal without a due advance: a meteor below the new bottom row
      stays where it is until the next advance removes it. */
  lemma ShrinkKeepsMeteorBelowScreen()
    ensures var g := State([10, Absent], 2, 20, 2, 0, 0, 100, 5, 0, false, Other);
      var inp := FrameInput(5, 2, false, false, 0, false, false, Other);
      var r := Frame(g, false, inp);
      && Inv(g) && WellFormedInput(inp) && OnScreen(g.meteors, g.screenRows)
      && r.meteors[0] == 10 && r.screenRows == 5 && !OnScreen(r.meteors, r.screenRows)
  {
  }

  /** The invariant holds in every state the game loop reaches. */
  lemma {:induction false} RunPreservesInv(g: State, statistics: bool, inputs: seq<FrameInput>)
    requires Inv(g)
    requires forall i :: 0 <= i < |inputs| ==> WellFormedInput(inputs[i])
    ensures Inv(Run(g, statistics, inputs))
    decreases |inputs|
  {
    if inputs != [] && Running(g) {
      FramePreservesInv(g, statistics, inputs[0]);
      RunPreservesInv(Frame(g, statistics, inputs[0]), statistics, inputs[1..]);
    }
  }

  /** While the game is running and input remains, the loop runs exactly
      one frame and continues with the rest of the input. */
  lemma RunOneFrame(g: State, statistics: bool, inputs: seq<FrameInput>, n: nat)
    requires Running(g) && n < |inputs|
    requires forall i :: 0 <= i < |inputs| ==> WellFormedInput(inputs[i])
    ensures Run(g, statistics, inputs[n..]) == Run(Frame(g, statistics, inputs[n]), statistics, inputs[n + 1..])
  {
    var rest := inputs[n..];
    assert rest[0] == inputs[n] && rest[1..] == inputs[n + 1..];
  }

  /** A frame that reads the quit key is the last frame, as is one that
      leaves the player without health. */
  lemma LastFrame(g: State, statistics: bool, inp: FrameInput, rest: seq<FrameInput>)
    requires Running(g) && WellFormedInput(inp)
    requires forall i :: 0 <= i < |rest| ==> WellFormedInput(rest[i])
    requires inp.key == Quit || Frame(g, statistics, inp).health <= 0
    ensures Run(g, statistics, [inp] + rest) == Frame(g, statistics, inp)
  {
    var xs := [inp] + rest;
    assert xs[0] == inp && xs[1..] == rest;
  }
}
