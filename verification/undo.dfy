/**
 * Szotar's UndoList<T>: an undo stack and a redo stack of commands, each with its newest item at the
 * end. Commands are opaque; what a command does when it is done, undone or redone is not modelled,
 * only which commands are asked to do it and in which order.
 */
module Undo {
  import opened Wrappers

  /** The items of `s` from the newest (last) to the oldest (first). */
  function Reversed<T>(s: seq<T>): (r: seq<T>)
    ensures |r| == |s|
  {
    if s == [] then [] else [s[|s| - 1]] + Reversed(s[..|s| - 1])
  }

  /** Item i of the reversal is item |s| - 1 - i of the original. */
  lemma {:induction false} ReversedAt<T>(s: seq<T>)
    ensures forall i :: 0 <= i < |s| ==> Reversed(s)[i] == s[|s| - 1 - i]
  {
    if s != [] {
      var init := s[..|s| - 1];
      var r := Reversed(s);
      assert r == [s[|s| - 1]] + Reversed(init);
      ReversedAt(init);
      forall i | 0 <= i < |s|
        ensures r[i] == s[|s| - 1 - i]
      {
        if i > 0 {
          assert r[i] == Reversed(init)[i - 1] == init[|init| - 1 - (i - 1)];
        }
      }
    }
  }

  lemma ReversedTwice<T>(s: seq<T>)
    ensures Reversed(Reversed(s)) == s
  {
    var r := Reversed(s);
    ReversedAt(s);
    ReversedAt(r);
    assert forall i :: 0 <= i < |s| ==> Reversed(r)[i] == s[i];
  }

  /** The stacks after moving the top n items of `src`, one at a time, onto `dst`: the loop of
      Undo(count) with src = undo items, or of Redo(count) with src = redo items. */
  function Transfer<T>(src: seq<T>, dst: seq<T>, n: nat): (r: (seq<T>, seq<T>))
    requires n <= |src|
    ensures |r.0| == |src| - n && |r.1| == |dst| + n
    decreases n
  {
    if n == 0 then (src, dst)
    else Transfer(src[..|src| - 1], dst + [src[|src| - 1]], n - 1)
  }

  /** Moving n items one at a time keeps the bottom of `src` and puts its top n items on `dst` in
      reverse order: the newest item of `src` goes first and ends up deepest. */
  lemma {:induction false} TransferMovesTop<T>(src: seq<T>, dst: seq<T>, n: nat)
    requires n <= |src|
    ensures Transfer(src, dst, n) == (src[..|src| - n], dst + Reversed(src[|src| - n..]))
    decreases n
  {
    if n > 0 {
      var last := src[|src| - 1];
      var rest := src[..|src| - 1];
      var top := src[|src| - n..];
      TransferMovesTop(rest, dst + [last], n - 1);
      assert rest[..|rest| - (n - 1)] == src[..|src| - n];
      assert rest[|rest| - (n - 1)..] == top[..|top| - 1];
      assert Reversed(top) == [last] + Reversed(top[..|top| - 1]);
      assert (dst + [last]) + Reversed(top[..|top| - 1]) == dst + ([last] + Reversed(top[..|top| - 1]));
    } else {
      assert src[..|src|] == src && dst + Reversed(src[|src|..]) == dst;
    }
  }

  /** Undo(n) followed by Redo(n), or Redo(n) followed by Undo(n), restores both stacks. */
  lemma TransferBack<T>(src: seq<T>, dst: seq<T>, n: nat)
    requires n <= |src|
    ensures var r := Transfer(src, dst, n);
      Transfer(r.1, r.0, n) == (dst, src)
  {
    var bottom, top := src[..|src| - n], src[|src| - n..];
    var moved := dst + Reversed(top);
    TransferMovesTop(src, dst, n);
    TransferMovesTop(moved, bottom, n);
    assert moved[..|moved| - n] == dst;
    assert moved[|moved| - n..] == Reversed(top);
    ReversedTwice(top);
    assert bottom + top == src;
  }

  /** What the loop of Undo/Redo leaves: when the target stack is the old one plus the moved items,
      the moved items are the top n of the source, newest first; no item is lost; and the newest
      item on the target is the deepest of the items moved. */
  lemma TransferOutcome<T>(src: seq<T>, dst: seq<T>, n: nat, moved: seq<T>)
    requires n <= |src| && Transfer(src, dst, n).1 == dst + moved
    ensures moved == Reversed(src[|src| - n..])
    ensures |Transfer(src, dst, n).0| + |Transfer(src, dst, n).1| == |src| + |dst|
    ensures n > 0 ==> (dst + moved)[|dst + moved| - 1] == src[|src| - n]
  {
    TransferMovesTop(src, dst, n);
    assert moved == Transfer(src, dst, n).1[|dst|..];
    ReversedAt(src[|src| - n..]);
  }

  class UndoList<T> {
    /** The newest undo item is at the end. */
    var undoItems: seq<T>
    /** The newest redo item is at the end. */
    var redoItems: seq<T>

    constructor ()
      ensures undoItems == [] && redoItems == []
    {
      undoItems := [];
      redoItems := [];
    }

    /** The number of commands that can be undone: the largest count Undo accepts. */
    function UndoItemCount(): (n: nat)
      reads this
      ensures n == |undoItems|
    {
      |undoItems|
    }

    /** The number of commands that can be redone: the largest count Redo accepts. */
    function RedoItemCount(): (n: nat)
      reads this
      ensures n == |redoItems|
    {
      |redoItems|
    }

    /** The command Undo(1) would undo; None stands for default(T). */
    function UndoCommand(): (r: Option<T>)
      reads this
      ensures r.None? <==> UndoItemCount() == 0
      ensures r.Some? ==> r.value == undoItems[|undoItems| - 1]
    {
      if |undoItems| > 0 then Some(undoItems[|undoItems| - 1]) else None
    }

    /** UndoItemDescriptions as written: the index starts at the newest item and counts up, so the
        newest description is yielded and the next step indexes past the end of the list (an
        ArgumentOutOfRangeException, `threw`). `description` stands for ICommand.Description. */
    method UndoItemDescriptionsAsWritten(description: T -> string) returns (yielded: seq<string>, threw: bool)
      ensures threw <==> |undoItems| > 0
      ensures yielded == if |undoItems| > 0 then [description(undoItems[|undoItems| - 1])] else []
    {
      yielded, threw := [], false;
      var i := |undoItems| - 1;
      while i >= 0
        invariant !threw
        invariant (i == |undoItems| - 1 && yielded == []) || (i == |undoItems| > 0 && yielded == [description(undoItems[|undoItems| - 1])])
        decreases |undoItems| - i
      {
        if i >= |undoItems| {
          threw := true;
          return;
        }
        yielded := yielded + [description(undoItems[i])];
        i := i + 1;
      }
    }

    /** UndoItemDescriptions with the index counting down, as evidently intended: the description
        of every undo item, newest first. */
    method UndoItemDescriptions(description: T -> string) returns (yielded: seq<string>)
      ensures |yielded| == UndoItemCount()
      ensures forall k :: 0 <= k < |yielded| ==> yielded[k] == description(undoItems[|undoItems| - 1 - k])
      ensures UndoCommand().Some? ==> yielded[0] == description(UndoCommand().value)
    {
      yielded := [];
      var i := |undoItems| - 1;
      while i >= 0
        invariant -1 <= i < |undoItems| && |yielded| == |undoItems| - 1 - i
        invariant forall k :: 0 <= k < |yielded| ==> yielded[k] == description(undoItems[|undoItems| - 1 - k])
      {
        yielded := yielded + [description(undoItems[i])];
        i := i - 1;
      }
    }

    /** The command Redo(1) would redo; None stands for default(T). */
    function RedoCommand(): (r: Option<T>)
      reads this
      ensures r.None? <==> RedoItemCount() == 0
      ensures r.Some? ==> r.value == redoItems[|redoItems| - 1]
    {
      if |redoItems| > 0 then Some(redoItems[|redoItems| - 1]) else None
    }

    /** RedoItemDescriptions as written: the same upward count as UndoItemDescriptionsAsWritten. */
    method RedoItemDescriptionsAsWritten(description: T -> string) returns (yielded: seq<string>, threw: bool)
      ensures threw <==> |redoItems| > 0
      ensures yielded == if |redoItems| > 0 then [description(redoItems[|redoItems| - 1])] else []
    {
      yielded, threw := [], false;
      var i := |redoItems| - 1;
      while i >= 0
        invariant !threw
        invariant (i == |redoItems| - 1 && yielded == []) || (i == |redoItems| > 0 && yielded == [description(redoItems[|redoItems| - 1])])
        decreases |redoItems| - i
      {
        if i >= |redoItems| {
          threw := true;
          return;
        }
        yielded := yielded + [description(redoItems[i])];
        i := i + 1;
      }
    }

    /** RedoItemDescriptions with the index counting down: every redo item's description, newest first. */
    method RedoItemDescriptions(description: T -> string) returns (yielded: seq<string>)
      ensures |yielded| == RedoItemCount()
      ensures forall k :: 0 <= k < |yielded| ==> yielded[k] == description(redoItems[|redoItems| - 1 - k])
      ensures RedoCommand().Some? ==> yielded[0] == description(RedoCommand().value)
    {
      yielded := [];
      var i := |redoItems| - 1;
      while i >= 0
        invariant -1 <= i < |redoItems| && |yielded| == |redoItems| - 1 - i
        invariant forall k :: 0 <= k < |yielded| ==> yielded[k] == description(redoItems[|redoItems| - 1 - k])
      {
        yielded := yielded + [description(redoItems[i])];
        i := i - 1;
      }
    }

    /** Undo(count): false (ArgumentOutOfRangeException) when count exceeds the undo items, before
        anything changes; otherwise the top count undo items are undone newest first, each moving to
        the redo stack as it is undone. `undone` lists the commands asked to undo, in order. */
    method Undo(count: int) returns (ok: bool, undone: seq<T>)
      modifies this
      ensures ok <==> count <= old(UndoItemCount())
      ensures !ok ==> undoItems == old(undoItems) && redoItems == old(redoItems) && undone == []
      ensures ok ==> var n := if count > 0 then count else 0;
        && (undoItems, redoItems) == Transfer(old(undoItems), old(redoItems), n)
        && undone == Reversed(old(undoItems)[|old(undoItems)| - n..])
        && redoItems == old(redoItems) + undone
        && UndoItemCount() + RedoItemCount() == old(UndoItemCount() + RedoItemCount())
        && (n > 0 ==> RedoCommand() == Some(old(undoItems)[|old(undoItems)| - n]))
    {
      undone := [];
      if count > UndoItemCount() {
        return false, undone;
      }
      ghost var n: nat := if count > 0 then count else 0;
      ghost var target := Transfer(undoItems, redoItems, n);

      var i := 0;
      while i < count
        invariant 0 <= i <= n && n - i <= |undoItems|
        invariant Transfer(undoItems, redoItems, n - i) == target
        invariant redoItems == old(redoItems) + undone
      {
        var item := undoItems[|undoItems| - 1];
        undone := undone + [item];
        redoItems := redoItems + [item];
        undoItems := undoItems[..|undoItems| - 1];
        i := i + 1;
      }
      TransferOutcome(old(undoItems), old(redoItems), n, undone);
      ok := true;
    }

    /** Redo(count): the mirror image of Undo, moving redo items back onto the undo stack. */
    method Redo(count: int) returns (ok: bool, redone: seq<T>)
      modifies this
      ensures ok <==> count <= old(RedoItemCount())
      ensures !ok ==> undoItems == old(undoItems) && redoItems == old(redoItems) && redone == []
      ensures ok ==> var n := if count > 0 then count else 0;
        && (redoItems, undoItems) == Transfer(old(redoItems), old(undoItems), n)
        && redone == Reversed(old(redoItems)[|old(redoItems)| - n..])
        && undoItems == old(undoItems) + redone
        && UndoItemCount() + RedoItemCount() == old(UndoItemCount() + RedoItemCount())
        && (n > 0 ==> UndoCommand() == Some(old(redoItems)[|old(redoItems)| - n]))
    {
      redone := [];
      if count > RedoItemCount() {
        return false, redone;
      }
      ghost var n: nat := if count > 0 then count else 0;
      ghost var target := Transfer(redoItems, undoItems, n);

      var i := 0;
      while i < count
        invariant 0 <= i <= n && n - i <= |redoItems|
        invariant Transfer(redoItems, undoItems, n - i) == target
        invariant undoItems == old(undoItems) + redone
      {
        var item := redoItems[|redoItems| - 1];
        redone := redone + [item];
        undoItems := undoItems + [item];
        redoItems := redoItems[..|redoItems| - 1];
        i := i + 1;
      }
      TransferOutcome(old(redoItems), old(undoItems), n, redone);
      ok := true;
    }

    /** Do(item): the command is done and becomes the newest undo item; the redo history is lost. */
    method Do(item: T)
      modifies this
      ensures undoItems == old(undoItems) + [item] && redoItems == []
      ensures UndoCommand() == Some(item) && RedoCommand() == None
    {
      undoItems := undoItems + [item];
      redoItems := [];
    }

    method Clear()
      modifies this
      ensures undoItems == [] && redoItems == []
      ensures UndoCommand() == None && RedoCommand() == None
    {
      undoItems := [];
      redoItems := [];
    }
  }
}
