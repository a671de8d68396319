/** The meteor buffer of MeteorMayhem, as a value: one entry per screen
    column. An entry at or below -1 means that column holds no meteor;
    any other entry is the row of the one meteor falling in that column.
    The game writes the sentinel -1 itself and tests absence with `<= -1`. */
module Field {

  /** The sentinel the game writes into an empty column (`memset` with -1). */
  const Absent: int := -1

  /** The game's absence test. */
  predicate IsAbsent(v: int) {
    v <= Absent
  }

  /** Every entry is either the sentinel itself or a row index. */
  predicate SentinelForm(s: seq<int>) {
    forall i :: 0 <= i < |s| ==> s[i] == Absent || 0 <= s[i]
  }

  /** Every entry is the sentinel or a row of a playable area of `rows` rows. */
  predicate OnScreen(s: seq<int>, rows: int) {
    forall i :: 0 <= i < |s| ==> s[i] == Absent || 0 <= s[i] < rows
  }

  /** The number of columns that hold a meteor. */
  function Count(s: seq<int>): (n: nat)
    ensures n <= |s|
  {
    if s == [] then 0
    else Count(s[..|s| - 1]) + (if IsAbsent(s[|s| - 1]) then 0 else 1)
  }

  // ---------------------------------------------------------------------
  // Advancing the field by one row
  // ---------------------------------------------------------------------

  /** One column of the advance pass: an absent column is skipped, a meteor
      moves down one row and leaves the field once it reaches `rows`. */
  function AdvanceCell(v: int, rows: int): (r: int)
    ensures IsAbsent(v) ==> r == v
    ensures !IsAbsent(v) ==> (r == Absent <==> rows <= v + 1)
    ensures !IsAbsent(v) && r != Absent ==> r == v + 1 && 1 <= r < rows
  {
    if IsAbsent(v) then v
    else if v + 1 >= rows then Absent
    else v + 1
  }

  /** The field after one advance pass, column by column from the left. */
  function Advanced(s: seq<int>, rows: int): (r: seq<int>)
    ensures |r| == |s|
  {
    if s == [] then []
    else Advanced(s[..|s| - 1], rows) + [AdvanceCell(s[|s| - 1], rows)]
  }

  /** What the advance pass does to column `k`: an absent column stays as it
      is, a meteor moves down exactly one row, and a meteor whose new row is
      not inside the `rows` playable rows becomes absent. */
  lemma {:induction false} AdvancedAt(s: seq<int>, rows: int, k: int)
    requires 0 <= k < |s|
    ensures Advanced(s, rows)[k] == AdvanceCell(s[k], rows)
    ensures IsAbsent(s[k]) ==> Advanced(s, rows)[k] == s[k]
    ensures !IsAbsent(s[k]) && s[k] + 1 < rows ==> Advanced(s, rows)[k] == s[k] + 1
    ensures !IsAbsent(s[k]) && s[k] + 1 >= rows ==> Advanced(s, rows)[k] == Absent
  {
    if k < |s| - 1 {
      AdvancedAt(s[..|s| - 1], rows, k);
    }
  }

  /** After an advance pass every column is absent or on screen. */
  lemma AdvancedOnScreen(s: seq<int>, rows: int)
    requires SentinelForm(s)
    ensures OnScreen(Advanced(s, rows), rows)
  {
    forall k | 0 <= k < |s|
      ensures Advanced(s, rows)[k] == Absent || 0 <= Advanced(s, rows)[k] < rows
    {
      AdvancedAt(s, rows, k);
    }
  }

  /** An advance pass never creates a meteor. */
  lemma {:induction false} AdvanceNeverAddsMeteors(s: seq<int>, rows: int)
    ensures Count(Advanced(s, rows)) <= Count(s)
  {
    if s != [] {
      var r := Advanced(s, rows);
      AdvanceNeverAddsMeteors(s[..|s| - 1], rows);
      assert r[..|r| - 1] == Advanced(s[..|s| - 1], rows);
    }
  }

  // ---------------------------------------------------------------------
  // Resizing the buffer to a new screen width
  // ---------------------------------------------------------------------

  /** The buffer reallocated to `n` columns: the columns both widths share
      keep their entries and every column beyond the old width is absent. */
  function Resized(s: seq<int>, n: nat): (r: seq<int>)
    ensures |r| == n
  {
    if n == 0 then []
    else Resized(s, n - 1) + [if n - 1 < |s| then s[n - 1] else Absent]
  }

  /** Column `k` of the resized buffer. */
  lemma {:induction false} ResizedAt(s: seq<int>, n: nat, k: int)
    requires 0 <= k < n
    ensures k < |s| ==> Resized(s, n)[k] == s[k]
    ensures |s| <= k ==> Resized(s, n)[k] == Absent
  {
    if k < n - 1 {
      ResizedAt(s, n - 1, k);
    }
  }

  /** Resizing to the width the buffer already has changes nothing. */
  lemma ResizedSameWidth(s: seq<int>)
    ensures Resized(s, |s|) == s
  {
    forall k | 0 <= k < |s| ensures Resized(s, |s|)[k] == s[k] {
      ResizedAt(s, |s|, k);
    }
  }

  /** Growing the buffer and shrinking it back restores it. */
  lemma ResizedRoundTrip(s: seq<int>, n: nat)
    requires |s| <= n
    ensures Resized(Resized(s, n), |s|) == s
  {
    forall k | 0 <= k < |s| ensures Resized(Resized(s, n), |s|)[k] == s[k] {
      ResizedAt(s, n, k);
      ResizedAt(Resized(s, n), |s|, k);
    }
  }

  /** Resizing keeps every entry the sentinel or a row index. */
  lemma ResizedSentinelForm(s: seq<int>, n: nat)
    requires SentinelForm(s)
    ensures SentinelForm(Resized(s, n))
  {
    forall k | 0 <= k < n ensures Resized(s, n)[k] == Absent || 0 <= Resized(s, n)[k] {
      ResizedAt(s, n, k);
    }
  }

  /** Resizing keeps every entry the sentinel or a row below `rows`. */
  lemma ResizedOnScreen(s: seq<int>, n: nat, rows: int)
    requires OnScreen(s, rows)
    ensures OnScreen(Resized(s, n), rows)
  {
    forall k | 0 <= k < n ensures Resized(s, n)[k] == Absent || 0 <= Resized(s, n)[k] < rows {
      ResizedAt(s, n, k);
    }
  }

  /** A field on screen stays on screen when the screen grows taller. */
  lemma OnScreenTaller(s: seq<int>, rows: int, taller: int)
    requires OnScreen(s, rows) && rows <= taller
    ensures OnScreen(s, taller)
  {
  }

  // ---------------------------------------------------------------------
  // Writing a single column
  // ---------------------------------------------------------------------

  /** Writing `v` into column `k` changes the meteor count by what it adds
      minus what it removes. */
  lemma {:induction false} CountUpdate(s: seq<int>, k: int, v: int)
    requires 0 <= k < |s|
    ensures Count(s[k := v]) + (if IsAbsent(s[k]) then 0 else 1)
         == Count(s) + (if IsAbsent(v) then 0 else 1)
  {
    var t := s[k := v];
    assert t[..|t| - 1] == if k == |s| - 1 then s[..|s| - 1] else s[..|s| - 1][k := v];
    if k < |s| - 1 {
      CountUpdate(s[..|s| - 1], k, v);
    }
  }
}
