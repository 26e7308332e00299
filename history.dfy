/**
 * The undo/redo history store: a sequence of snapshots of the element
 * collection and the index of the current one. A commit either overwrites the
 * current snapshot (every intermediate frame of a gesture) or discards the redo
 * branch and appends (once per gesture).
 */
module History {
  import opened Elements

  /** The value of the store: its snapshots and the current index. */
  datatype Log = Log(snapshots: seq<Snapshot>, index: nat) {
    predicate Valid()
    {
      index < |snapshots|
    }

    function Current(): Snapshot
      requires Valid()
    {
      snapshots[index]
    }
  }

  /** A fresh store holds the initial state alone. */
  function Initial(s: Snapshot): (r: Log)
    ensures r.Valid() && r.Current() == s && |r.snapshots| == 1
  {
    Log([s], 0)
  }

  /**
   * setState(newState, overwrite). An overwrite replaces the current snapshot
   * and nothing else; an append keeps the snapshots up to the current one,
   * drops the redo branch after it and makes the new state the last, current one.
   */
  function Commit(h: Log, s: Snapshot, overwrite: bool): (r: Log)
    requires h.Valid()
    ensures r.Valid() && r.Current() == s
    ensures overwrite ==>
      r.index == h.index && |r.snapshots| == |h.snapshots|
      && forall k :: 0 <= k < |h.snapshots| && k != h.index ==> r.snapshots[k] == h.snapshots[k]
    ensures !overwrite ==>
      r.index == h.index + 1 && |r.snapshots| == h.index + 2
      && r.snapshots[..h.index + 1] == h.snapshots[..h.index + 1]
  {
    if overwrite then Log(h.snapshots[h.index := s], h.index)
    else Log(h.snapshots[..h.index + 1] + [s], h.index + 1)
  }

  /** undo: one step back, except at the first snapshot; the snapshots stay. */
  function UndoStep(h: Log): (r: Log)
    requires h.Valid()
    ensures r.Valid() && r.snapshots == h.snapshots
    ensures h.index - 1 <= r.index <= h.index
    ensures r.index == h.index <==> h.index == 0
  {
    if h.index > 0 then Log(h.snapshots, h.index - 1) else h
  }

  /** redo: one step forward, except at the last snapshot; the snapshots stay. */
  function RedoStep(h: Log): (r: Log)
    requires h.Valid()
    ensures r.Valid() && r.snapshots == h.snapshots
    ensures h.index <= r.index <= h.index + 1
    ensures r.index == h.index <==> h.index == |h.snapshots| - 1
  {
    if h.index < |h.snapshots| - 1 then Log(h.snapshots, h.index + 1) else h
  }

  /** Undo and redo cancel each other wherever the step is possible. */
  lemma UndoRedoRoundTrip(h: Log)
    requires h.Valid()
    ensures h.index > 0 ==> RedoStep(UndoStep(h)) == h
    ensures h.index < |h.snapshots| - 1 ==> UndoStep(RedoStep(h)) == h
  {
  }

  /**
   * Appends each state of `ss` in turn: the index advances by |ss|, the past
   * up to the old index is kept and, when anything was appended, the log ends
   * with exactly the appended states.
   */
  function CommitAll(h: Log, ss: seq<Snapshot>): (r: Log)
    requires h.Valid()
    ensures r.Valid()
    ensures r.index == h.index + |ss|
    ensures r.snapshots[..h.index + 1] == h.snapshots[..h.index + 1]
    ensures ss != [] ==> r.snapshots == h.snapshots[..h.index + 1] + ss
    decreases |ss|
  {
    if ss == [] then h
    else
      var h1 := Commit(h, ss[0], false);
      var r := CommitAll(h1, ss[1..]);
      assert h1.snapshots == h.snapshots[..h.index + 1] + [ss[0]];
      assert h1.snapshots[..h1.index + 1] == h1.snapshots;
      assert [ss[0]] + ss[1..] == ss;
      assert ss[1..] != [] ==> r.snapshots == h.snapshots[..h.index + 1] + [ss[0]] + ss[1..];
      r
  }

  /** Undoes `n` times: the snapshots stay, the index steps back by n and stops at 0. */
  function UndoN(h: Log, n: nat): (r: Log)
    requires h.Valid()
    ensures r.Valid()
    ensures r.snapshots == h.snapshots
    ensures r.index == if n <= h.index then h.index - n else 0
    decreases n
  {
    if n == 0 then h else UndoN(UndoStep(h), n - 1)
  }

  /**
   * Overwrites the current snapshot with each state of `ss` in turn: index and
   * length stay, every other slot is kept and the last state is shown.
   */
  function OverwriteAll(h: Log, ss: seq<Snapshot>): (r: Log)
    requires h.Valid()
    ensures r.Valid()
    ensures r.index == h.index && |r.snapshots| == |h.snapshots|
    ensures forall k :: 0 <= k < |h.snapshots| && k != h.index ==> r.snapshots[k] == h.snapshots[k]
    ensures r.Current() == if ss == [] then h.Current() else ss[|ss| - 1]
    decreases |ss|
  {
    if ss == [] then h else OverwriteAll(Commit(h, ss[0], true), ss[1..])
  }

  /** n appends followed by n undos come back to the state before the appends. */
  lemma AppendsThenUndos(h: Log, ss: seq<Snapshot>)
    requires h.Valid()
    ensures var r := UndoN(CommitAll(h, ss), |ss|);
      r.index == h.index && r.Current() == h.Current()
  {
  }

  /** From the empty canvas, n appends and n undos show the empty canvas again. */
  lemma AppendsThenUndosFromEmpty(ss: seq<Snapshot>)
    ensures UndoN(CommitAll(Initial([]), ss), |ss|).Current() == []
  {
    AppendsThenUndos(Initial([]), ss);
  }

  /** After an append there is nothing to redo. */
  lemma RedoAfterAppendIsNoOp(h: Log, s: Snapshot)
    requires h.Valid()
    ensures RedoStep(Commit(h, s, false)) == Commit(h, s, false)
  {
  }

  /** append a, undo, append b: the branch holding a is gone and redo does nothing. */
  lemma BranchDiscarded(h: Log, a: Snapshot, b: Snapshot)
    requires h.Valid()
    ensures var r := Commit(UndoStep(Commit(h, a, false)), b, false);
      && r.snapshots == h.snapshots[..h.index + 1] + [b]
      && RedoStep(r) == r
  {
  }

  /** Two overwrites in a row amount to the last one alone. */
  lemma OverwriteTwice(h: Log, a: Snapshot, b: Snapshot)
    requires h.Valid()
    ensures Commit(Commit(h, a, true), b, true) == Commit(h, b, true)
  {
  }

  /**
   * A gesture (one append at pointer-down, then any number of overwrites) adds
   * exactly one snapshot after the current one, shows its last frame, and a
   * single undo brings back the state from before the gesture.
   */
  lemma {:induction false} GestureAddsOneEntry(h: Log, first: Snapshot, frames: seq<Snapshot>)
    requires h.Valid()
    ensures var r := OverwriteAll(Commit(h, first, false), frames);
      && r.index == h.index + 1
      && r.snapshots == h.snapshots[..h.index + 1] + [r.Current()]
      && r.Current() == (if frames == [] then first else frames[|frames| - 1])
      && UndoStep(r).Current() == h.Current()
    decreases |frames|
  {
    if frames != [] {
      var h1 := Commit(h, first, false);
      GestureAddsOneEntry(h, frames[0], frames[1..]);
      assert Commit(h1, frames[0], true) == Commit(h, frames[0], false);
      if |frames| > 1 {
        assert frames[1..][|frames[1..]| - 1] == frames[|frames| - 1];
      }
    }
  }

  /** The history store of the whiteboard, updated in place. */
  class HistoryStore {
    var history: seq<Snapshot>
    var index: nat

    ghost predicate Valid()
      reads this
    {
      index < |history|
    }

    /** The store's value. */
    function Model(): Log
      reads this
    {
      Log(history, index)
    }

    /** The snapshot the store shows: history[index]. */
    function Current(): Snapshot
      reads this
      requires Valid()
    {
      history[index]
    }

    constructor (initialState: Snapshot)
      ensures Valid() && Model() == Initial(initialState)
    {
      history := [initialState];
      index := 0;
    }

    method SetState(newState: Snapshot, overwrite: bool)
      requires Valid()
      modifies this
      ensures Valid() && Model() == Commit(old(Model()), newState, overwrite)
      ensures overwrite ==> history == old(history)[old(index) := newState] && index == old(index)
      ensures !overwrite ==> history == old(history)[..old(index) + 1] + [newState] && index == old(index) + 1
    {
      if overwrite {
        history := history[index := newState];
      } else {
        history := history[..index + 1] + [newState];
        index := index + 1;
      }
    }

    method Undo()
      requires Valid()
      modifies this
      ensures Valid() && Model() == UndoStep(old(Model()))
    {
      if index > 0 {
        index := index - 1;
      }
    }

    method Redo()
      requires Valid()
      modifies this
      ensures Valid() && Model() == RedoStep(old(Model()))
    {
      if index < |history| - 1 {
        index := index + 1;
      }
    }
  }
}
