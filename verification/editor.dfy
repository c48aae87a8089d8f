/**
  The `Disperse` component as a state machine: its three pieces of state and
  the events its handlers react to.
 */
module Editor {
  import opened Tokenizer
  import opened Validator
  import opened Dedup
  import opened Edits
  import opened Messages

  /** `inputFields`, `errors` and `hasDuplicates`; `errors` holds the
      diagnostics before they are written as text. */
  datatype Editor = Editor(inputFields: seq<string>, errors: seq<Diagnostic>, hasDuplicates: bool)

  /** One empty line, no diagnostics. */
  function Initial(): Editor {
    Editor([""], [], false)
  }

  /** What the user can do: type into a line, press a key in a line, press
      "Next", or click one of the two duplicate links. */
  datatype Event =
    | Change(index: nat, value: string)
    | Press(index: nat, key: Key)
    | Next
    | KeepTheFirstOne
    | CombineBalance

  /** Events the rendered component can produce: line events name a rendered
      line, and the duplicate links exist only while `hasDuplicates` holds. */
  predicate Allowed(e: Editor, ev: Event) {
    match ev
    case Change(index, _) => index < |e.inputFields|
    case Press(index, _) => index < |e.inputFields|
    case Next => true
    case KeepTheFirstOne => e.hasDuplicates
    case CombineBalance => e.hasDuplicates
  }

  function Step(e: Editor, ev: Event): Editor
    requires Allowed(e, ev)
  {
    match ev
    case Change(index, value) => e.(inputFields := SetLine(e.inputFields, index, value))
    case Press(index, key) => e.(inputFields := KeyDown(e.inputFields, index, key))
    case Next =>
      var v := Validate(e.inputFields);
      e.(errors := v.errors, hasDuplicates := v.hasDuplicates)
    case KeepTheFirstOne => Editor(KeepFirst(e.inputFields), [], false)
    case CombineBalance => Editor(KeepFirst(e.inputFields), [], false)
  }

  /** Every event of `evs` is allowed in the state it meets. */
  predicate ValidTrace(e: Editor, evs: seq<Event>)
    decreases |evs|
  {
    |evs| == 0 || (Allowed(e, evs[0]) && ValidTrace(Step(e, evs[0]), evs[1..]))
  }

  function Run(e: Editor, evs: seq<Event>): Editor
    requires ValidTrace(e, evs)
    decreases |evs|
  {
    if |evs| == 0 then e else Run(Step(e, evs[0]), evs[1..])
  }

  /** The messages shown under the ledger. */
  function Shown(e: Editor): seq<string> {
    seq(|e.errors|, k requires 0 <= k < |e.errors| => Render(e.errors[k]))
  }

  /** No event empties the ledger. */
  lemma StepKeepsLedgerNonEmpty(e: Editor, ev: Event)
    requires Allowed(e, ev) && |e.inputFields| >= 1
    ensures |Step(e, ev).inputFields| >= 1
  {
    match ev
    case Press(index, key) => KeyDownKeepsFirstLine(e.inputFields, index, key);
    case KeepTheFirstOne => KeepFirstKeepsHead(e.inputFields);
    case CombineBalance => KeepFirstKeepsHead(e.inputFields);
    case _ =>
  }

  /** Line 0 is never deleted: only typing into it changes it. */
  lemma StepKeepsFirstLine(e: Editor, ev: Event)
    requires Allowed(e, ev) && |e.inputFields| >= 1 && !ev.Change?
    ensures |Step(e, ev).inputFields| >= 1 && Step(e, ev).inputFields[0] == e.inputFields[0]
  {
    match ev
    case Press(index, key) => KeyDownKeepsFirstLine(e.inputFields, index, key);
    case KeepTheFirstOne => KeepFirstKeepsHead(e.inputFields);
    case CombineBalance => KeepFirstKeepsHead(e.inputFields);
    case Next =>
  }

  /** From any state with at least one line, every run of allowed events
      leaves at least one line. */
  lemma {:induction false} RunKeepsLedgerNonEmpty(e: Editor, evs: seq<Event>)
    requires ValidTrace(e, evs) && |e.inputFields| >= 1
    ensures |Run(e, evs).inputFields| >= 1
    decreases |evs|
  {
    if |evs| > 0 {
      StepKeepsLedgerNonEmpty(e, evs[0]);
      RunKeepsLedgerNonEmpty(Step(e, evs[0]), evs[1..]);
    }
  }

  /** From the initial state, every run of allowed events leaves at least one line. */
  lemma InitialNonEmpty(evs: seq<Event>)
    requires ValidTrace(Initial(), evs)
    ensures |Run(Initial(), evs).inputFields| >= 1
  {
    RunKeepsLedgerNonEmpty(Initial(), evs);
  }

  /** "Next" reads the ledger without changing it, and pressing it again
      changes nothing. */
  lemma NextIsIdempotent(e: Editor)
    ensures Step(e, Next).inputFields == e.inputFields
    ensures Step(Step(e, Next), Next) == Step(e, Next)
  {
  }

  /** After "Next", the duplicate links are shown exactly when two lines
      share an address. */
  lemma NextReportsDuplicates(e: Editor)
    ensures Step(e, Next).hasDuplicates <==>
      exists i, j :: 0 <= i < j < |e.inputFields| && Address(e.inputFields[i]) == Address(e.inputFields[j])
  {
    HasDuplicatesIff(e.inputFields);
  }

  /** Both links do the same thing. */
  lemma CombineBalanceKeepsFirst(e: Editor)
    requires e.hasDuplicates
    ensures Step(e, CombineBalance) == Step(e, KeepTheFirstOne)
  {
  }

  /** After a duplicate link, the links disappear and stay away when "Next"
      is pressed again: the filtered ledger has no repeated address. */
  lemma ResolveThenNext(e: Editor)
    requires e.hasDuplicates
    ensures !Step(e, KeepTheFirstOne).hasDuplicates && Step(e, KeepTheFirstOne).errors == []
    ensures !Step(Step(e, KeepTheFirstOne), Next).hasDuplicates
  {
    KeepFirstLeavesNoDuplicates(e.inputFields);
  }

  /** Editing does not refresh the diagnostics: they stay as the last "Next"
      or duplicate link left them. */
  lemma EditsKeepDiagnostics(e: Editor, ev: Event)
    requires Allowed(e, ev) && (ev.Change? || ev.Press?)
    ensures Step(e, ev).errors == e.errors && Step(e, ev).hasDuplicates == e.hasDuplicates
  {
  }
}
