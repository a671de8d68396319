/** The per-frame game rules of MeteorMayhem as pure functions over the
    game state. The environment a frame reads (terminal size, the four
    wall-clock timers, the random column, the key) is an input value.
    Each step function is one block of the game loop, in source order. */
module Rules {
  import opened Field

  /** The keys the game loop reacts to; `Other` is every other key,
      including "no key pending". */
  datatype Key = Fire | Up | Down | Left | Right | Resize | Quit | Other

  /** What one frame reads from its environment: the terminal size, whether
      each timer's period has elapsed, the random column for the spawn, and
      the key read at the end of the frame. */
  datatype FrameInput = FrameInput(
    rows: int,
    columns: int,
    advanceDue: bool,
    spawnDue: bool,
    spawnColumn: int,
    shotExpired: bool,
    regenDue: bool,
    key: Key)

  /** A terminal at least one column wide, and a spawn column drawn from it. */
  predicate WellFormedInput(inp: FrameInput) {
    1 <= inp.columns && 0 <= inp.spawnColumn < inp.columns
  }

  /** The state the game loop carries from frame to frame. */
  datatype State = State(
    meteors: seq<int>,
    oldScreenColumns: int,
    screenRows: int,
    screenColumns: int,
    playerX: int,
    playerY: int,
    health: int,
    rays: int,
    score: int,
    shotActive: bool,
    key: Key)

  /** What every reachable state satisfies: the recorded width is the
      buffer's width, every column holds the sentinel or a row, there is
      never negative ammunition, and the score is a non-negative multiple
      of the five points a kill is worth. */
  predicate Inv(g: State) {
    |g.meteors| == g.oldScreenColumns
    && SentinelForm(g.meteors)
    && 0 <= g.rays
    && 0 <= g.score && g.score % 5 == 0
  }

  /** The loop's guard: run another frame while the last key was not quit
      and the player still has health. */
  predicate Running(g: State) {
    g.key != Quit && 0 < g.health
  }

  /** The state before the first frame, on a terminal of the given size. */
  function Initial(rows: int, columns: nat): (g: State)
    requires 0 <= rows
    ensures Inv(g) && Running(g) && Count(g.meteors) == 0
    ensures |g.meteors| == columns && g.health == 100 && g.rays == 5 && g.score == 0
    ensures !g.shotActive && g.key == Other
    ensures g.playerX == columns / 2 && g.playerY == rows / 2 - 1
  {
    var empty := seq(columns, _ => Absent);
    assert Count(empty) == 0 by { NoMeteors(empty); }
    State(empty, columns, rows, columns, columns / 2, rows / 2 - 1, 100, 5, 0, false, Other)
  }

  lemma {:induction false} NoMeteors(s: seq<int>)
    requires forall i :: 0 <= i < |s| ==> s[i] == Absent
    ensures Count(s) == 0
  {
    if s != [] {
      NoMeteors(s[..|s| - 1]);
    }
  }

  // ---------------------------------------------------------------------
  // The steps of one frame
  // ---------------------------------------------------------------------

  /** Step 1: read the terminal size and reallocate the buffer when its
      width changed. */
  function ResizeStep(g: State, rows: int, columns: nat): (r: State)
    ensures |r.meteors| == r.screenColumns == columns && r.screenRows == rows
    ensures |g.meteors| == columns ==> r.meteors == g.meteors
  {
    var g := g.(screenRows := rows, screenColumns := columns);
    if |g.meteors| != columns then
      g.(meteors := Resized(g.meteors, columns), oldScreenColumns := columns)
    else g
  }

  /** Step 2: the bottom row holds the statistics line when it is shown. */
  function ReserveStep(g: State, statistics: bool): (r: State)
    ensures r.screenRows == g.screenRows - (if statistics then 1 else 0)
    ensures r.(screenRows := g.screenRows) == g
  {
    if statistics then g.(screenRows := g.screenRows - 1) else g
  }

  /** Step 3: advance every meteor when the advance timer is due. */
  function AdvanceStep(g: State, due: bool): (r: State)
    ensures |r.meteors| == |g.meteors| && r.(meteors := g.meteors) == g
    ensures Count(r.meteors) <= Count(g.meteors)
  {
    if due then
      AdvanceNeverAddsMeteors(g.meteors, g.screenRows);
      g.(meteors := Advanced(g.meteors, g.screenRows))
    else g
  }

  /** Step 4: when the spawn timer is due, place a meteor at row 0 of the
      drawn column if that column is empty. */
  function SpawnStep(g: State, due: bool, column: int): (r: State)
    requires 0 <= column < |g.meteors|
    ensures |r.meteors| == |g.meteors| && r.(meteors := g.meteors) == g
    ensures !IsAbsent(g.meteors[column]) ==> r == g
  {
    if due && IsAbsent(g.meteors[column]) then g.(meteors := g.meteors[column := 0]) else g
  }

  /** The larger of 0 and the smaller of `v` and `bound - 1`: the value of
      `[0, bound)` nearest to `v` when that range is not empty. */
  function Clamp(v: int, bound: int): (r: int)
    ensures 0 <= r
    ensures 1 <= bound ==> r < bound
    ensures 0 <= v < bound ==> r == v
    ensures v < 0 ==> r == 0
    ensures 1 <= bound <= v ==> r == bound - 1
  {
    var m := if v < bound - 1 then v else bound - 1;
    if m > 0 then m else 0
  }

  /** Step 5: clamp the player into the playable area. */
  function ClampStep(g: State): (r: State)
    ensures r.(playerX := g.playerX, playerY := g.playerY) == g
    ensures 1 <= g.screenRows ==> 0 <= r.playerY < g.screenRows
    ensures 1 <= g.screenColumns ==> 0 <= r.playerX < g.screenColumns
  {
    g.(playerY := Clamp(g.playerY, g.screenRows), playerX := Clamp(g.playerX, g.screenColumns))
  }

  /** The ray covers rows 0 up to, but not including, the player's row. */
  predicate RayHits(v: int, playerY: int) {
    0 <= v < playerY
  }

  /** Step 6: while a shot is active, the ray destroys the meteor in the
      player's column if it is above the player, for five points; the shot
      ends when its duration has elapsed. */
  function RayStep(g: State, expired: bool): (r: State)
    requires 0 <= g.playerX < |g.meteors|
    ensures |r.meteors| == |g.meteors|
    ensures r.score == g.score || r.score == g.score + 5
    ensures r.shotActive ==> g.shotActive
  {
    if !g.shotActive then g
    else
      var h := if RayHits(g.meteors[g.playerX], g.playerY)
               then g.(meteors := g.meteors[g.playerX := Absent], score := g.score + 5)
               else g;
      if expired then h.(shotActive := false) else h
  }

  /** Step 7: every regeneration period restores health and ammunition. */
  function RegenStep(g: State, due: bool): (r: State)
    ensures g.health <= r.health && g.rays <= r.rays
    ensures r.(health := g.health, rays := g.rays) == g
  {
    if due then g.(health := g.health + 10, rays := g.rays + 2) else g
  }

  /** The meteor in the player's column sits on the player's row. */
  predicate Collides(g: State)
    requires 0 <= g.playerX < |g.meteors|
  {
    g.meteors[g.playerX] == g.playerY
  }

  /** Step 8: a meteor on the player costs 20 health and is destroyed. */
  function CollisionStep(g: State): (r: State)
    requires 0 <= g.playerX < |g.meteors|
    ensures |r.meteors| == |g.meteors| && r.score == g.score
    ensures r.health == g.health || r.health == g.health - 20
  {
    if Collides(g) then g.(health := g.health - 20, meteors := g.meteors[g.playerX := Absent]) else g
  }

  /** Step 9: record the key and, unless a shot is active, act on it. */
  function DispatchKey(g: State, key: Key): (r: State)
    ensures r.key == key
    ensures r.meteors == g.meteors && r.health == g.health && r.score == g.score
    ensures r.rays == g.rays || (0 < g.rays && r.rays == g.rays - 1)
  {
    var g := g.(key := key);
    if g.shotActive then g
    else
      match key
      case Fire => if 0 < g.rays then g.(shotActive := true, rays := g.rays - 1) else g
      case Up => g.(playerY := g.playerY - 1)
      case Down => g.(playerY := g.playerY + 1)
      case Left => g.(playerX := g.playerX - 1)
      case Right => g.(playerX := g.playerX + 1)
      case Resize => g.(oldScreenColumns := g.screenColumns)
      case _ => g
  }

  /** Steps 1 to 4, which bring the field up to date: afterwards the
      buffer, the recorded width and the screen width agree. */
  function FieldSteps(g: State, statistics: bool, inp: FrameInput): (r: State)
    requires WellFormedInput(inp)
    ensures |r.meteors| == r.screenColumns == inp.columns
  {
    var g1 := ResizeStep(g, inp.rows, inp.columns);
    var g2 := ReserveStep(g1, statistics);
    var g3 := AdvanceStep(g2, inp.advanceDue);
    SpawnStep(g3, inp.spawnDue, inp.spawnColumn)
  }

  /** Steps 5 to 8, which resolve the player against the field. */
  function PlayerSteps(g: State, inp: FrameInput): (r: State)
    requires 1 <= |g.meteors| == g.screenColumns
    ensures |r.meteors| == |g.meteors| && r.screenColumns == g.screenColumns
    ensures r.oldScreenColumns == g.oldScreenColumns && r.screenRows == g.screenRows
    ensures r.score == g.score || r.score == g.score + 5
  {
    var g5 := ClampStep(g);
    var g6 := RayStep(g5, inp.shotExpired);
    var g7 := RegenStep(g6, inp.regenDue);
    CollisionStep(g7)
  }

  /** One whole frame: the steps above in the order the loop runs them. */
  function Frame(g: State, statistics: bool, inp: FrameInput): (r: State)
    requires WellFormedInput(inp)
    ensures r.key == inp.key && |r.meteors| == r.screenColumns == inp.columns
  {
    DispatchKey(PlayerSteps(FieldSteps(g, statistics, inp), inp), inp.key)
  }

  /** The game loop: frames run one per input while the game is running.
      Game over is final: once the quit key was read or health is gone, no
      further frame runs, whatever input follows. */
  function Run(g: State, statistics: bool, inputs: seq<FrameInput>): (r: State)
    requires forall i :: 0 <= i < |inputs| ==> WellFormedInput(inputs[i])
    ensures !Running(g) ==> r == g
    decreases |inputs|
  {
    if inputs == [] || !Running(g) then g
    else Run(Frame(g, statistics, inputs[0]), statistics, inputs[1..])
  }
}
