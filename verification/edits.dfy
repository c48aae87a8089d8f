/**
  The three per-line edit handlers of the ledger editor: typing into a line,
  Enter and Backspace. Focus moves are not modelled; only the effect on
  `inputFields` is.
 */
module Edits {
  /** The key of a `keydown` event, as far as the handlers distinguish it. */
  datatype Key = Enter | Backspace | OtherKey

  /** `handleInputChange`: line `index` becomes `value`. The editor only
      passes the index of a rendered line. */
  function SetLine(fields: seq<string>, index: nat, value: string): (r: seq<string>)
    requires index < |fields|
    ensures |r| == |fields| && r[index] == value
    ensures forall i :: 0 <= i < |fields| && i != index ==> r[i] == fields[i]
  {
    fields[index := value]
  }

  /** Typing the old text back restores the ledger. */
  lemma SetLineUndo(fields: seq<string>, index: nat, value: string)
    requires index < |fields|
    ensures SetLine(SetLine(fields, index, value), index, fields[index]) == fields
  {
  }

  /** `handleEnterPress`: on the last line, Enter opens a new empty line at
      the end; on any other line it only moves the focus. */
  function PressEnter(fields: seq<string>, index: nat, key: Key): (r: seq<string>)
    ensures |r| == if key == Enter && index + 1 >= |fields| then |fields| + 1 else |fields|
    ensures r[..|fields|] == fields
    ensures |r| > |fields| ==> r[|fields|] == ""
  {
    if key == Enter && index + 1 >= |fields| then fields + [""] else fields
  }

  /** Whether `handleBackspace` deletes line `index`: Backspace on a line
      other than the first whose text is exactly empty. A line holding only
      spaces is not empty. */
  predicate Deletes(fields: seq<string>, index: nat, key: Key) {
    key == Backspace && index != 0 && index < |fields| && fields[index] == ""
  }

  /** `handleBackspace`: `splice(index, 1)` when the line may be deleted. */
  function PressBackspace(fields: seq<string>, index: nat, key: Key): (r: seq<string>)
    ensures Deletes(fields, index, key) ==>
      && |r| == |fields| - 1
      && (forall i :: 0 <= i < index ==> r[i] == fields[i])
      && (forall i :: index <= i < |r| ==> r[i] == fields[i + 1])
    ensures !Deletes(fields, index, key) ==> r == fields
  {
    if Deletes(fields, index, key) then fields[..index] + fields[index + 1..] else fields
  }

  /** The `onKeyDown` of a line: both handlers, each acting on its own key. */
  function KeyDown(fields: seq<string>, index: nat, key: Key): seq<string> {
    match key
    case Enter => PressEnter(fields, index, key)
    case Backspace => PressBackspace(fields, index, key)
    case OtherKey => fields
  }

  /** Running the handlers one after the other, as `onKeyDown` does, gives
      the same ledger: at most one of them reacts to a key. */
  lemma KeyDownSequential(fields: seq<string>, index: nat, key: Key)
    ensures KeyDown(fields, index, key) == PressBackspace(PressEnter(fields, index, key), index, key)
  {
  }

  /** A key press never empties the ledger and never touches line 0. */
  lemma KeyDownKeepsFirstLine(fields: seq<string>, index: nat, key: Key)
    requires |fields| >= 1
    ensures |KeyDown(fields, index, key)| >= 1
    ensures KeyDown(fields, index, key)[0] == fields[0]
  {
    if key == Enter {
      assert PressEnter(fields, index, key)[..|fields|] == fields;
    }
  }

  /** Only the empty line under the cursor can go: no other line is ever deleted,
      and a line with text (even just spaces) stays. */
  lemma BackspaceDeletesOnlyEmptyLine(fields: seq<string>, index: nat, key: Key)
    requires index < |fields|
    ensures |PressBackspace(fields, index, key)| < |fields| <==>
      key == Backspace && index != 0 && fields[index] == ""
  {
  }

  /** Enter on the last line and then Backspace on the new empty line
      restores the ledger. */
  lemma {:induction false} EnterThenBackspace(fields: seq<string>)
    requires |fields| >= 1
    ensures PressBackspace(PressEnter(fields, |fields| - 1, Enter), |fields|, Backspace) == fields
  {
    var grown := PressEnter(fields, |fields| - 1, Enter);
    assert grown == fields + [""];
    assert Deletes(grown, |fields|, Backspace);
    assert grown[..|fields|] == fields;
  }
}
