/** The bounded undo/redo history behind the editor (hooks/use-text-history.ts). */
module TextHistory {

  /** The most entries the history keeps. */
  const MaxHistorySize: nat := 100

  /** The history after recording `t` while `index` is current: entries after `index` are
      discarded, `t` is appended, and the oldest entry is dropped if that makes 101. */
  function Pushed(history: seq<string>, index: nat, t: string): (h: seq<string>)
    requires index < |history|
    ensures |h| == if index + 2 > MaxHistorySize then index + 1 else index + 2
    ensures h[|h| - 1] == t
    ensures forall j :: 0 <= j < |h| - 1 ==> h[j] == history[index + 2 - |h| + j]
  {
    var kept := history[..index + 1] + [t];
    if |kept| > MaxHistorySize then kept[1..] else kept
  }

  /** After a push the previous current text sits just before the new entry, so a single undo
      returns to it even when the oldest entry was dropped. */
  lemma PushedThenUndo(history: seq<string>, index: nat, t: string)
    requires index < |history| <= MaxHistorySize
    ensures var h := Pushed(history, index, t);
      2 <= |h| <= MaxHistorySize && h[|h| - 2] == history[index]
  {
  }

  /** The state of one useTextHistory instance: the history, the current position, and the
      flag that swallows the setText call echoing an undo or redo. */
  class History {
    var history: seq<string>
    var currentIndex: nat
    var ignoreNextSetText: bool

    /** The position always names an entry and the history never exceeds its cap. */
    ghost predicate Valid()
      reads this
    {
      currentIndex < |history| <= MaxHistorySize
    }

    /** The text the hook exposes: always one of the recorded entries. */
    function Text(): (t: string)
      reads this
      requires Valid()
      ensures t in history
    {
      history[currentIndex]
    }

    /** Whether an undo has an earlier entry to go back to. */
    function CanUndo(): (b: bool)
      reads this
      ensures Valid() && b ==> 0 <= currentIndex - 1 < |history|
      ensures Valid() && !b ==> currentIndex == 0
    {
      currentIndex > 0
    }

    /** Whether a redo has a later entry to go forward to. */
    function CanRedo(): (b: bool)
      reads this
      ensures b ==> 0 <= currentIndex + 1 < |history|
      ensures Valid() && !b ==> currentIndex == |history| - 1
    {
      currentIndex < |history| - 1
    }

    /** useTextHistory(initialText): a one-entry history. */
    constructor (initialText: string := "")
      ensures Valid()
      ensures history == [initialText] && currentIndex == 0 && !ignoreNextSetText
    {
      history := [initialText];
      currentIndex := 0;
      ignoreNextSetText := false;
    }

    /** Records an edit, unless it is the echo of an undo/redo or changes nothing. */
    method SetText(t: string)
      requires Valid()
      modifies this
      ensures Valid()
      ensures old(ignoreNextSetText) ==>
        !ignoreNextSetText && history == old(history) && currentIndex == old(currentIndex)
      ensures !old(ignoreNextSetText) && t == old(Text()) ==>
        !ignoreNextSetText && history == old(history) && currentIndex == old(currentIndex)
      ensures !old(ignoreNextSetText) && t != old(Text()) ==>
        && !ignoreNextSetText
        && history == Pushed(old(history), old(currentIndex), t)
        && currentIndex == |history| - 1
        && Text() == t
    {
      if ignoreNextSetText {
        ignoreNextSetText := false;
        return;
      }
      if t == history[currentIndex] {
        return;
      }
      var newHistory := history[..currentIndex + 1];
      newHistory := newHistory + [t];
      if |newHistory| > MaxHistorySize {
        newHistory := newHistory[1..];
      }
      history := newHistory;
      currentIndex := |newHistory| - 1;
    }

    /** Steps back one entry when there is one, and arms the flag. */
    method Undo()
      requires Valid()
      modifies this
      ensures Valid() && history == old(history)
      ensures old(CanUndo()) ==> currentIndex == old(currentIndex) - 1 && ignoreNextSetText
      ensures !old(CanUndo()) ==>
        currentIndex == old(currentIndex) && ignoreNextSetText == old(ignoreNextSetText)
    {
      if currentIndex > 0 {
        ignoreNextSetText := true;
        currentIndex := currentIndex - 1;
      }
    }

    /** Steps forward one entry when there is one, and arms the flag. */
    method Redo()
      requires Valid()
      modifies this
      ensures Valid() && history == old(history)
      ensures old(CanRedo()) ==> currentIndex == old(currentIndex) + 1 && ignoreNextSetText
      ensures !old(CanRedo()) ==>
        currentIndex == old(currentIndex) && ignoreNextSetText == old(ignoreNextSetText)
    {
      if currentIndex < |history| - 1 {
        ignoreNextSetText := true;
        currentIndex := currentIndex + 1;
      }
    }

    /** Starts over from `t`. */
    method ResetHistory(t: string)
      modifies this
      ensures Valid()
      ensures history == [t] && currentIndex == 0 && ignoreNextSetText == old(ignoreNextSetText)
    {
      history := [t];
      currentIndex := 0;
    }

    /** The effect run when the `initialText` argument changes: it starts over from the new
      text only when that differs from the current text. */
    method InitialTextChanged(initialText: string)
      requires Valid()
      modifies this
      ensures Valid() && Text() == initialText && ignoreNextSetText == old(ignoreNextSetText)
      ensures old(Text()) != initialText ==> history == [initialText] && currentIndex == 0
      ensures old(Text()) == initialText ==> history == old(history) && currentIndex == old(currentIndex)
    {
      if history[currentIndex] != initialText {
        ResetHistory(initialText);
      }
    }
  }
}
