/**
 * The manager's command history: a queue of command names with room for 11, where inserting
 * into a full queue drops the oldest entry. DefaultQueue's code is not part of this model; it is
 * assumed to drop its oldest entry when full, which is what keeping "the last 11 commands"
 * (the help text) implies.
 */
module CommandHistory {

  /** `new DefaultQueue(11)`: the help text promises the last 11 commands. */
  const Capacity: nat := 11

  /** `history.insert(command)`. */
  function Record(log: seq<string>, command: string): (r: seq<string>)
    requires |log| <= Capacity
    ensures |r| == if |log| < Capacity then |log| + 1 else Capacity
    ensures r[|r| - 1] == command
    ensures r[..|r| - 1] == log[|log| - (|r| - 1)..]
  {
    if |log| < Capacity then log + [command] else log[1..] + [command]
  }

  /** The last `Capacity` commands of `cmds`, oldest first. */
  function LastCommands(cmds: seq<string>): (r: seq<string>)
  {
    if |cmds| <= Capacity then cmds else cmds[|cmds| - Capacity..]
  }

  /** The log after recording each of `cmds` in turn. */
  function RecordAll(log: seq<string>, cmds: seq<string>): (r: seq<string>)
    requires |log| <= Capacity
    ensures |r| <= Capacity
  {
    if cmds == [] then log else Record(RecordAll(log, cmds[..|cmds| - 1]), cmds[|cmds| - 1])
  }

  lemma RecordLastCommands(cmds: seq<string>, c: string)
    ensures Record(LastCommands(cmds), c) == LastCommands(cmds + [c])
  {
    if |cmds| > Capacity {
      assert (cmds + [c])[|cmds| + 1 - Capacity..] == cmds[|cmds| - Capacity..][1..] + [c];
    }
  }

  /** Whatever was recorded, the log holds exactly the last `Capacity` commands in order. */
  lemma {:induction false} RecordAllKeepsLast(log: seq<string>, cmds: seq<string>)
    requires |log| <= Capacity
    ensures RecordAll(log, cmds) == LastCommands(log + cmds)
  {
    if cmds != [] {
      var init, c := cmds[..|cmds| - 1], cmds[|cmds| - 1];
      RecordAllKeepsLast(log, init);
      RecordLastCommands(log + init, c);
      assert log + init + [c] == log + cmds;
    }
  }

  /**
   * After `k >= Capacity` commands recorded from an empty log, entry `i` is command number
   * `k - Capacity + i` (counting from 0): entry 0 is the (k - Capacity + 1)-th command.
   */
  lemma ElementAt(cmds: seq<string>, i: nat)
    requires |cmds| >= Capacity && i < Capacity
    ensures |RecordAll([], cmds)| == Capacity
    ensures RecordAll([], cmds)[i] == cmds[|cmds| - Capacity + i]
  {
    RecordAllKeepsLast([], cmds);
    assert [] + cmds == cmds;
  }
}
