/** Helpers shared by the key handlers (src/event/mod.rs): moving a list
    selection, counting the screen rows a line wraps to, and the status reset
    every key press performs. The display width of a string (East Asian wide
    characters count two columns) is a parameter. */
module Navigation {
  import opened Wrappers
  import SyncOps

  // ---------------------------------------------------------------------------
  // count_physical_lines

  /** The rows `line` occupies when wrapped at `width` columns: one for an empty
      line or a zero width, otherwise the display width divided by `width`,
      rounded up. */
  function CountPhysicalLines(line: string, width: nat, displayWidth: string -> nat): (r: nat)
    ensures line == [] || width == 0 ==> r == 1
    ensures line != [] && width > 0 ==> (r - 1) * width < displayWidth(line) <= r * width
  {
    if line == [] then 1
    else if width == 0 then 1
    else (displayWidth(line) + width - 1) / width
  }

  /** Exactly one row for a non-empty line that fits; a wider one takes more. */
  lemma OneRowIffFits(line: string, width: nat, displayWidth: string -> nat)
    requires line != [] && width > 0 && displayWidth(line) > 0
    ensures CountPhysicalLines(line, width, displayWidth) == 1 <==> displayWidth(line) <= width
    ensures CountPhysicalLines(line, width, displayWidth) >= 1
  {
    var r := CountPhysicalLines(line, width, displayWidth);
    if r >= 2 {
      assert (r - 1) * width >= width;
    }
  }

  /** The wrapping examples: ASCII text one column per character, the Chinese
      characters two columns each. */
  lemma CountPhysicalLinesExamples(dw: string -> nat)
    requires dw("hello") == 5 && dw("1234567890") == 10 && dw("12345678") == 8
    requires dw("1234") == 4 && dw("12345") == 5
    requires dw("你好") == 4 && dw("你好世界") == 8
    ensures CountPhysicalLines("", 80, dw) == 1
    ensures CountPhysicalLines("hello", 0, dw) == 1
    ensures CountPhysicalLines("hello", 80, dw) == 1
    ensures CountPhysicalLines("1234567890", 4, dw) == 3
    ensures CountPhysicalLines("12345678", 4, dw) == 2
    ensures CountPhysicalLines("你好", 4, dw) == 1
    ensures CountPhysicalLines("你好", 3, dw) == 2
    ensures CountPhysicalLines("你好世界", 4, dw) == 2
    ensures CountPhysicalLines("1234", 4, dw) == 1
    ensures CountPhysicalLines("12345", 5, dw) == 1
  {
  }

  // ---------------------------------------------------------------------------
  // navigate_list

  /** The selection after one step up or down a list of `len` entries: `None`
      for an empty list; from no selection, the last entry going up and the
      first going down; going up stops at the top, going down wraps to the
      top. */
  function NavigateList(current: Option<nat>, len: nat, moveUp: bool): (r: Option<nat>)
    ensures r.None? <==> len == 0
    ensures len > 0 && current.None? ==> r == Some(if moveUp then len - 1 else 0)
    ensures len > 0 && current.Some? && moveUp ==>
      r == Some(if current.value == 0 then 0 else current.value - 1)
    ensures len > 0 && current.Some? && !moveUp ==> r.value < len && r.value % len == (current.value + 1) % len
    ensures r.Some? && (current.None? || current.value < len) ==> r.value < len
  {
    if len == 0 then None
    else if moveUp then
      match current
      case None => Some(len - 1)
      case Some(i) => Some(if i == 0 then 0 else i - 1)
    else
      match current
      case None => Some(0)
      case Some(i) =>
        DivModUnique((i + 1) % len, len, 0, (i + 1) % len);
        Some((i + 1) % len)
  }

  /** The list examples: wrap at the bottom, none at the top, nothing in an
      empty list. */
  lemma NavigateListExamples()
    ensures NavigateList(None, 3, false) == Some(0)
    ensures NavigateList(Some(0), 3, true) == Some(0)
    ensures NavigateList(Some(2), 3, false) == Some(0)
    ensures NavigateList(Some(0), 0, false) == None
  {
  }

  /** `k` steps of `NavigateList` in one direction. */
  function Steps(current: Option<nat>, len: nat, moveUp: bool, k: nat): Option<nat>
    decreases k
  {
    if k == 0 then current else NavigateList(Steps(current, len, moveUp, k - 1), len, moveUp)
  }

  /** Going down cycles through the list: `k` steps from entry `i` land on
      entry `(i + k) mod len`, so `len` steps come back to the start. */
  lemma {:induction false} DownSteps(i: nat, len: nat, k: nat)
    requires i < len
    ensures Steps(Some(i), len, false, k) == Some((i + k) % len)
    decreases k
  {
    if k > 0 {
      DownSteps(i, len, k - 1);
      var j := (i + k - 1) % len;
      assert NavigateList(Some(j), len, false) == Some((j + 1) % len);
      ModSucc(i + k - 1, len);
    }
  }

  /** `((n mod m) + 1) mod m == (n + 1) mod m`. */
  lemma ModSucc(n: nat, m: nat)
    requires m > 0
    ensures ((n % m) + 1) % m == (n + 1) % m
  {
    var q, r := n / m, n % m;
    assert n == q * m + r;
    if r + 1 < m {
      assert n + 1 == q * m + (r + 1);
      DivModUnique(n + 1, m, q, r + 1);
      DivModUnique(r + 1, m, 0, r + 1);
    } else {
      assert n + 1 == (q + 1) * m;
      DivModUnique(n + 1, m, q + 1, 0);
      DivModUnique(r + 1, m, 1, 0);
    }
  }

  /** Euclidean division has one quotient and one remainder. */
  lemma DivModUnique(n: nat, m: nat, q: int, r: int)
    requires m > 0 && 0 <= r < m && n == q * m + r
    ensures n % m == r
  {
    var q', r' := n / m, n % m;
    assert n == q' * m + r';
    assert (q - q') * m == r' - r;
    MulSign(q - q', m);
  }

  lemma MulSign(d: int, m: nat)
    ensures d >= 1 ==> d * m >= m
    ensures d <= -1 ==> d * m + m <= 0
    ensures d == 0 ==> d * m == 0
  {
  }

  /** Going up never wraps: `k` steps from entry `i` reach `i - k`, and stay
      on the first entry once there. */
  lemma {:induction false} UpSteps(i: nat, len: nat, k: nat)
    requires i < len
    ensures Steps(Some(i), len, true, k) == Some(if k <= i then i - k else 0)
    decreases k
  {
    if k > 0 {
      UpSteps(i, len, k - 1);
    }
  }

  // ---------------------------------------------------------------------------
  // handle_key: the reset before dispatch

  /** What any key press does first: the error note goes, and a finished run's
      status (success or error) returns to idle; a run under way keeps its
      status. */
  function ResetOnKey(ui: SyncOps.SyncUi): (r: SyncOps.SyncUi)
    ensures r.errorMessage.None? && r.receiver == ui.receiver
    ensures ui.status.IsBusy() ==> r.status == ui.status
    ensures !ui.status.IsBusy() ==> r.status == SyncOps.Idle
  {
    var status := if ui.status.Success? || ui.status.Error? then SyncOps.Idle else ui.status;
    ui.(errorMessage := None, status := status)
  }

  /** A key press neither starts nor interrupts a run, and a second key press
      changes nothing more. */
  lemma ResetKeepsRun(ui: SyncOps.SyncUi)
    ensures ResetOnKey(ui).status.IsBusy() <==> ui.status.IsBusy()
    ensures ResetOnKey(ResetOnKey(ui)) == ResetOnKey(ui)
  {
  }
}
