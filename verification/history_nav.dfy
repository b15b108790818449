/** Walking through earlier command lines with the arrow keys, as both
    terminal components do it (`navigateHistory` in
    frontend/src/terminal/Terminal.js and `handleHistoryNavigation` in
    frontend/src/Terminal.js): lines typed in this page are read locally,
    older ones are asked of the server's `/last-command/` endpoint. */
module HistoryNav {
  import opened Wrappers
  import opened CommandHistory

  /** The navigation part of a terminal's state: the history index (-1
      when not navigating), the input line, and the line saved before
      navigation began. */
  datatype Nav = Nav(index: int, command: string, saved: string)

  /** What the `/last-command/` request yields: the command and the index
      the server used, or nothing (a 404, or any failed request, whose
      error is swallowed). */
  datatype Answer = Found(command: string, i: int) | NoAnswer

  /** The endpoint over the stored history (backend/api/views.py): a found
      command is returned with its index, a missing one is a 404. */
  function ServerAnswer(h: History, i: int): (a: Answer)
    ensures a.Found? <==> h != [] && i >= 0
    ensures a.Found? ==> a.i == (if i < |h| then i else |h| - 1) && a.command == h[|h| - 1 - a.i]
  {
    var r := GetLastCommand(h, i);
    match r.0
    case Some(c) => Found(c, r.1)
    case None => NoAnswer
  }

  /** One step of navigation in direction `dir` (+1 older, -1 newer), with
      `local` the lines typed in this page, oldest first, and `answer` what
      the server would say for the new index. */
  function Navigate(nav: Nav, local: seq<string>, dir: int, answer: Answer): Nav {
    var newIndex := nav.index + dir;
    if newIndex <= -1 then Nav(-1, nav.saved, nav.saved)
    else if newIndex < |local| then Nav(newIndex, local[|local| - newIndex - 1], nav.saved)
    else match answer
      case Found(c, i) => Nav(i, c, nav.saved)
      case NoAnswer => Nav(newIndex, nav.command, nav.saved)
  }

  /** The three ways a step ends: back at the saved line, on a local line
      counted from the newest, or at whatever the server answered (the
      line unchanged when it answered nothing). The saved line never
      changes. */
  lemma NavigateCases(nav: Nav, local: seq<string>, dir: int, answer: Answer)
    ensures Navigate(nav, local, dir, answer).saved == nav.saved
    ensures nav.index + dir <= -1 ==> Navigate(nav, local, dir, answer) == Nav(-1, nav.saved, nav.saved)
    ensures 0 <= nav.index + dir < |local| ==>
      Navigate(nav, local, dir, answer).index == nav.index + dir
      && Navigate(nav, local, dir, answer).command == local[|local| - 1 - (nav.index + dir)]
    ensures nav.index + dir >= |local| && nav.index + dir >= 0 && answer.Found? ==>
      Navigate(nav, local, dir, answer) == Nav(answer.i, answer.command, nav.saved)
    ensures nav.index + dir >= |local| && nav.index + dir >= 0 && answer.NoAnswer? ==>
      Navigate(nav, local, dir, answer) == Nav(nav.index + dir, nav.command, nav.saved)
  {
    var n := nav.index + dir;
    var r := Navigate(nav, local, dir, answer);
    if n <= -1 {
      assert r == Nav(-1, nav.saved, nav.saved);
    } else if n < |local| {
      assert r == Nav(n, local[|local| - n - 1], nav.saved);
    } else if answer.Found? {
      assert r == Nav(answer.i, answer.command, nav.saved);
    } else {
      assert !(0 <= n < |local|) && answer.NoAnswer?;
      assert r == Nav(n, nav.command, nav.saved);
    }
  }

  /** When the lines typed in this page are the newest ones the server
      holds, reading them locally gives the line the server would give
      for the same index. */
  lemma LocalAgreesWithServer(older: History, local: seq<string>, i: int)
    requires 0 <= i < |local|
    ensures ServerAnswer(older + local, i) == Found(local[|local| - i - 1], i)
  {
    var h := older + local;
    assert h[|h| - 1 - i] == local[|local| - i - 1];
  }

  /** So, with the server consistent with the page, a step reads the same
      line as asking the server for every index would. */
  lemma NavigateAgrees(nav: Nav, older: History, local: seq<string>, dir: int)
    requires nav.index + dir >= 0
    ensures Navigate(nav, local, dir, ServerAnswer(older + local, nav.index + dir))
      == Navigate(nav, [], dir, ServerAnswer(older + local, nav.index + dir))
  {
    var n := nav.index + dir;
    if n < |local| {
      LocalAgreesWithServer(older, local, n);
    }
  }

  /** Pressing Up then Down from the input line brings back the line being
      typed, whatever the history holds. */
  lemma UpDownRestores(nav: Nav, local: seq<string>, h: History, answer: Answer)
    requires nav.index == -1
    ensures Navigate(Navigate(nav, local, 1, ServerAnswer(h, 0)), local, -1, answer) == Nav(-1, nav.saved, nav.saved)
  {
    var up := Navigate(nav, local, 1, ServerAnswer(h, 0));
    assert up.index == 0 && up.saved == nav.saved;
  }

  /** With a non-empty server history holding at least the page's lines,
      the index stays between -1 and the oldest stored line. */
  lemma IndexBounded(nav: Nav, local: seq<string>, h: History, dir: int)
    requires h != [] && |local| <= |h|
    requires -1 <= nav.index <= |h| - 1
    requires dir == 1 || dir == -1
    ensures -1 <= Navigate(nav, local, dir, ServerAnswer(h, nav.index + dir)).index <= |h| - 1
  {
  }

  /** Repeated Up presses over an empty history: every request fails, yet
      each press still raises the index, so as many Down presses are then
      needed to get back to the input line. */
  lemma DriftOnEmptyHistory(nav: Nav)
    requires nav.index >= -1
    ensures Navigate(nav, [], 1, ServerAnswer([], nav.index + 1)) == Nav(nav.index + 1, nav.command, nav.saved)
  {
  }
}
