/**
 * Foundation's `UndoManager`, as the document uses it: a stack of undo entries and
 * a stack of redo entries, each entry a registered handler with its action name.
 *
 * Registration follows Foundation: outside undo and redo it pushes onto the undo
 * stack and clears the redo stack; while undoing it pushes onto the redo stack;
 * while redoing it pushes onto the undo stack and keeps the redo stack.
 * `H` is whatever the registered closure captured; running it is up to the client.
 */
module Undo {
  import opened Wrappers

  datatype UndoMode = Normal | Undoing | Redoing

  datatype UndoEntry<H> = UndoEntry(handler: H, actionName: string)

  datatype Stacks<H> = Stacks(undo: seq<UndoEntry<H>>, redo: seq<UndoEntry<H>>)

  /** The stacks after `registerUndo` of `handler` followed by `setActionName(name)`. */
  function Registered<H>(s: Stacks<H>, mode: UndoMode, handler: H, name: string): (r: Stacks<H>)
    ensures mode == Undoing ==> r.undo == s.undo && |r.redo| == |s.redo| + 1
    ensures mode != Undoing ==> |r.undo| == |s.undo| + 1 && r.undo[..|s.undo|] == s.undo
    ensures mode == Normal ==> r.redo == []
    ensures mode == Redoing ==> r.redo == s.redo
  {
    match mode
    case Normal => Stacks(s.undo + [UndoEntry(handler, name)], [])
    case Undoing => Stacks(s.undo, s.redo + [UndoEntry(handler, name)])
    case Redoing => Stacks(s.undo + [UndoEntry(handler, name)], s.redo)
  }

  /** Renames the last entry of `entries`, if there is one. */
  function RenameLast<H>(entries: seq<UndoEntry<H>>, name: string): (r: seq<UndoEntry<H>>)
    ensures |r| == |entries|
    ensures |entries| > 0 ==> r[..|r| - 1] == entries[..|entries| - 1] && r[|r| - 1].actionName == name
  {
    if entries == [] then entries
    else entries[..|entries| - 1] + [entries[|entries| - 1].(actionName := name)]
  }

  class UndoManager<H> {
    var undoStack: seq<UndoEntry<H>>
    var redoStack: seq<UndoEntry<H>>
    var mode: UndoMode

    function Current(): Stacks<H>
      reads this
    {
      Stacks(undoStack, redoStack)
    }

    constructor ()
      ensures undoStack == [] && redoStack == [] && mode == Normal
    {
      undoStack, redoStack, mode := [], [], Normal;
    }

    /** `canUndo`. */
    function CanUndo(): (r: bool)
      reads this
      ensures r <==> |undoStack| > 0
    {
      undoStack != []
    }

    /** `undoActionName`: the name of the entry `undo()` would run, or "". */
    function UndoActionName(): (r: string)
      reads this
      ensures undoStack != [] ==> r == undoStack[|undoStack| - 1].actionName
      ensures undoStack == [] ==> r == ""
    {
      if undoStack == [] then "" else undoStack[|undoStack| - 1].actionName
    }

    /** `registerUndo(withTarget:handler:)`; the action name is set afterwards. */
    method RegisterUndo(handler: H)
      modifies this
      ensures mode == old(mode)
      ensures Current() == Registered(old(Current()), mode, handler, "")
    {
      var entry := UndoEntry(handler, "");
      match mode
      case Normal =>
        undoStack := undoStack + [entry];
        redoStack := [];
      case Undoing =>
        redoStack := redoStack + [entry];
      case Redoing =>
        undoStack := undoStack + [entry];
    }

    /** `setActionName(_:)`: names the entry registered last, on the stack that registration fills. */
    method SetActionName(name: string)
      modifies this
      ensures mode == old(mode)
      ensures mode == Undoing ==> undoStack == old(undoStack) && redoStack == RenameLast(old(redoStack), name)
      ensures mode != Undoing ==> undoStack == RenameLast(old(undoStack), name) && redoStack == old(redoStack)
    {
      if mode == Undoing {
        redoStack := RenameLast(redoStack, name);
      } else {
        undoStack := RenameLast(undoStack, name);
      }
    }

    /** The first half of `undo()`: take the top undo entry, if any, and enter undo mode to run it. */
    method BeginUndo() returns (entry: Option<UndoEntry<H>>)
      requires mode == Normal
      modifies this
      ensures old(undoStack) == [] ==> entry == None && undoStack == old(undoStack) && mode == Normal
      ensures old(undoStack) != [] ==>
        && entry == Some(old(undoStack)[|old(undoStack)| - 1])
        && undoStack == old(undoStack)[..|old(undoStack)| - 1]
        && mode == Undoing
      ensures redoStack == old(redoStack)
    {
      if undoStack == [] {
        entry := None;
      } else {
        entry := Some(undoStack[|undoStack| - 1]);
        undoStack := undoStack[..|undoStack| - 1];
        mode := Undoing;
      }
    }

    /** The first half of `redo()`: take the top redo entry, if any, and enter redo mode to run it. */
    method BeginRedo() returns (entry: Option<UndoEntry<H>>)
      requires mode == Normal
      modifies this
      ensures old(redoStack) == [] ==> entry == None && redoStack == old(redoStack) && mode == Normal
      ensures old(redoStack) != [] ==>
        && entry == Some(old(redoStack)[|old(redoStack)| - 1])
        && redoStack == old(redoStack)[..|old(redoStack)| - 1]
        && mode == Redoing
      ensures undoStack == old(undoStack)
    {
      if redoStack == [] {
        entry := None;
      } else {
        entry := Some(redoStack[|redoStack| - 1]);
        redoStack := redoStack[..|redoStack| - 1];
        mode := Redoing;
      }
    }

    /** The end of `undo()` or `redo()`: back to normal registration. */
    method EndUndoRedo()
      modifies this
      ensures mode == Normal && Current() == old(Current())
    {
      mode := Normal;
    }
  }
}
