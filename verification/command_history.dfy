/** The server-side command history (backend/terminal/models.py): every
    handled line is stored with its time, and `get_last_command(i)` looks
    up the i-th most recent one with the index clamped to the oldest. */
module CommandHistory {
  import opened Wrappers

  /** The stored commands in the order they were recorded. Timestamps are
      set on insertion, so ordering by descending timestamp lists this
      sequence back to front. */
  type History = seq<string>

  /** `CommandHistory.objects.create(command=...)` */
  function Record(h: History, command: string): (r: History)
    ensures |r| == |h| + 1 && r[|h|] == command && r[..|h|] == h
  {
    h + [command]
  }

  /** The `/command-history/` endpoint (backend/api/views.py): an empty
      command is refused with a 400, any other is recorded. */
  function PostCommand(h: History, command: string): (r: Result<History, string>)
    ensures command == "" <==> r.Failure?
    ensures r.Success? ==> r.value == Record(h, command)
    ensures r.Failure? ==> r.error == "Parameter 'command' is required."
  {
    if command == "" then Failure("Parameter 'command' is required.") else Success(Record(h, command))
  }

  /** The most recent command first. */
  function MostRecentFirst(h: History): (r: seq<string>)
    ensures |r| == |h|
    ensures forall i :: 0 <= i < |h| ==> r[i] == h[|h| - 1 - i]
  {
    if h == [] then [] else [h[|h| - 1]] + MostRecentFirst(h[..|h| - 1])
  }

  /** `get_last_command(i)`: an index past the end is clamped to the oldest
      entry; a negative index, or an empty history, finds nothing. The
      index returned is the one used. */
  function GetLastCommand(h: History, i: int): (r: (Option<string>, int))
    ensures r.1 <= |h| - 1
    ensures 0 <= i < |h| ==> r == (Some(h[|h| - 1 - i]), i)
    ensures i >= |h| && h != [] ==> r == (Some(h[0]), |h| - 1)
    ensures h == [] && i >= 0 ==> r == (None, -1)
    ensures i < 0 ==> r == (None, i)
  {
    var query := MostRecentFirst(h);
    var j := if i >= |query| then |query| - 1 else i;
    ((if j >= 0 then Some(query[j]) else None), j)
  }

  /** The line just recorded is the most recent one, and every older line
      moves one place further back. */
  lemma RecordShifts(h: History, command: string, i: int)
    ensures GetLastCommand(Record(h, command), 0) == (Some(command), 0)
    ensures 0 <= i < |h| ==> GetLastCommand(Record(h, command), i + 1).0 == GetLastCommand(h, i).0
  {
  }
}
