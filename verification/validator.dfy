/**
  `validateInput`: per-line format diagnostics in line order, then one
  duplicate group per address found on two or more lines, in the order the
  addresses were first seen, and the `hasDuplicates` flag.

  The format pass looks at each line's verdict (which checks reject it) and
  the grouping looks at the addresses alone, so that neither part has to
  reason about the tokenizer or the amount syntax.
 */
module Validator {
  import opened Wrappers
  import opened Tokenizer

  /** The length an Ethereum address must have, `0x` included. */
  const AddressLength: nat := 42

  /** The three per-line checks, in the order `validateInput` runs them. */
  datatype Check = Length | Prefix | Amount
  {
    function Rank(): nat {
      match this
      case Length => 0
      case Prefix => 1
      case Amount => 2
    }
  }

  /** A diagnostic, before it is rendered as text. Line numbers are 1-based. */
  datatype Diagnostic =
    | Format(check: Check, line: nat)
    | Dup(address: string, lines: seq<nat>)

  /** `d` is reported before `e`: an earlier line, or an earlier check on the same line. */
  predicate Precedes(d: Diagnostic, e: Diagnostic) {
    && d.Format? && e.Format?
    && (d.line < e.line || (d.line == e.line && d.check.Rank() < e.check.Rank()))
  }

  /** `address.startsWith('0x')`. */
  predicate HasHexPrefix(a: string) {
    |a| >= 2 && a[0] == '0' && a[1] == 'x'
  }

  /** Whether `check` rejects the entry: the address is not 42 characters long,
      it does not start with `0x`, or the amount is missing, not a number or
      not positive. */
  predicate Fails(check: Check, p: Parsed) {
    match check
    case Length => |p.address| != AddressLength
    case Prefix => !HasHexPrefix(p.address)
    case Amount => !AmountAccepted(p.amount)
  }

  /** The outcome of the three checks on one entry: which of them reject it. */
  datatype Verdict = Verdict(badLength: bool, noPrefix: bool, badAmount: bool)
  {
    predicate Rejects(check: Check) {
      match check
      case Length => badLength
      case Prefix => noPrefix
      case Amount => badAmount
    }
  }

  /** Runs the three checks on an entry. */
  function Judge(p: Parsed): (v: Verdict)
    ensures forall c: Check :: v.Rejects(c) <==> Fails(c, p)
  {
    Verdict(|p.address| != AddressLength, !HasHexPrefix(p.address), !AmountAccepted(p.amount))
  }

  /** The verdict on every line of the ledger. */
  function Verdicts(ledger: seq<string>): (vs: seq<Verdict>)
    ensures |vs| == |ledger|
    ensures forall i :: 0 <= i < |ledger| ==> vs[i] == Judge(Parse(ledger[i]))
  {
    seq(|ledger|, i requires 0 <= i < |ledger| => Judge(Parse(ledger[i])))
  }

  /** The three independent checks on the entry at 1-based line `line`. */
  function LineDiagnostics(v: Verdict, line: nat): (ds: seq<Diagnostic>)
    ensures forall k :: 0 <= k < |ds| ==> ds[k].Format? && ds[k].line == line
  {
    (if v.Rejects(Length) then [Format(Length, line)] else [])
    + (if v.Rejects(Prefix) then [Format(Prefix, line)] else [])
    + (if v.Rejects(Amount) then [Format(Amount, line)] else [])
  }

  /** Each check reports exactly when it fails. */
  lemma LineDiagnosticsReport(v: Verdict, line: nat, c: Check)
    ensures Format(c, line) in LineDiagnostics(v, line) <==> v.Rejects(c)
  {
  }

  /** A line's diagnostics follow the check order length, prefix, amount. */
  lemma LineDiagnosticsInCheckOrder(v: Verdict, line: nat)
    ensures forall k, k' :: 0 <= k < k' < |LineDiagnostics(v, line)| ==>
      LineDiagnostics(v, line)[k].check.Rank() < LineDiagnostics(v, line)[k'].check.Rank()
  {
  }

  /** `newErrors` after the `forEach` over the whole ledger. */
  function FormatDiagnostics(vs: seq<Verdict>): seq<Diagnostic> {
    if |vs| == 0 then []
    else
      var n := |vs|;
      FormatDiagnostics(vs[..n - 1]) + LineDiagnostics(vs[n - 1], n)
  }

  lemma FormatDiagnosticsUnfold(vs: seq<Verdict>)
    requires |vs| > 0
    ensures FormatDiagnostics(vs) == FormatDiagnostics(vs[..|vs| - 1]) + LineDiagnostics(vs[|vs| - 1], |vs|)
  {
  }

  /** Only format diagnostics, each about a line of the ledger. */
  lemma {:induction false} FormatDiagnosticsLines(vs: seq<Verdict>)
    ensures forall k :: 0 <= k < |FormatDiagnostics(vs)| ==>
      FormatDiagnostics(vs)[k].Format? && 1 <= FormatDiagnostics(vs)[k].line <= |vs|
  {
    if |vs| > 0 {
      var n := |vs|;
      FormatDiagnosticsLines(vs[..n - 1]);
      FormatDiagnosticsUnfold(vs);
    }
  }

  /** Format diagnostics come in ascending line order, and within a line in
      the order length, prefix, amount. */
  lemma {:induction false} FormatDiagnosticsSorted(vs: seq<Verdict>)
    ensures forall k, k' :: 0 <= k < k' < |FormatDiagnostics(vs)| ==>
      Precedes(FormatDiagnostics(vs)[k], FormatDiagnostics(vs)[k'])
  {
    if |vs| > 0 {
      var n := |vs|;
      FormatDiagnosticsSorted(vs[..n - 1]);
      FormatDiagnosticsLines(vs[..n - 1]);
      var before := FormatDiagnostics(vs[..n - 1]);
      var here := LineDiagnostics(vs[n - 1], n);
      LineDiagnosticsInCheckOrder(vs[n - 1], n);
      var ds := before + here;
      FormatDiagnosticsUnfold(vs);
      forall k, k' | 0 <= k < k' < |ds|
        ensures Precedes(ds[k], ds[k'])
      {
        if k' < |before| {
          assert ds[k] == before[k] && ds[k'] == before[k'];
        } else if k < |before| {
          assert ds[k] == before[k] && ds[k'] == here[k' - |before|];
        } else {
          assert ds[k] == here[k - |before|] && ds[k'] == here[k' - |before|];
        }
      }
    }
  }

  /** No diagnostic of `ds` is about line `line`. */
  predicate SilentOn(ds: seq<Diagnostic>, line: nat) {
    forall k :: 0 <= k < |ds| ==> ds[k].Format? && ds[k].line != line
  }

  lemma SilentOnNotReported(ds: seq<Diagnostic>, rest: seq<Diagnostic>, c: Check, line: nat)
    requires SilentOn(ds, line)
    ensures Format(c, line) in ds + rest <==> Format(c, line) in rest
    ensures Format(c, line) in rest + ds <==> Format(c, line) in rest
  {
    assert Format(c, line) !in ds;
  }

  /** The last line's diagnostics do not touch the earlier lines. */
  lemma ReportedBeforeLast(vs: seq<Verdict>, i: nat, c: Check)
    requires i + 1 < |vs|
    ensures Format(c, i + 1) in FormatDiagnostics(vs) <==> Format(c, i + 1) in FormatDiagnostics(vs[..|vs| - 1])
  {
    var n := |vs|;
    var here := LineDiagnostics(vs[n - 1], n);
    FormatDiagnosticsUnfold(vs);
    SilentOnNotReported(here, FormatDiagnostics(vs[..n - 1]), c, i + 1);
  }

  /** The earlier lines' diagnostics do not touch the last line. */
  lemma ReportedOnLast(vs: seq<Verdict>, c: Check)
    requires |vs| > 0
    ensures Format(c, |vs|) in FormatDiagnostics(vs) <==> vs[|vs| - 1].Rejects(c)
  {
    var n := |vs|;
    var before := FormatDiagnostics(vs[..n - 1]);
    FormatDiagnosticsUnfold(vs);
    LineDiagnosticsReport(vs[n - 1], n, c);
    FormatDiagnosticsLines(vs[..n - 1]);
    SilentOnNotReported(before, LineDiagnostics(vs[n - 1], n), c, n);
  }

  /** A format diagnostic is reported for a line exactly when its check fails. */
  lemma {:induction false} FormatDiagnosticsComplete(vs: seq<Verdict>, i: nat, c: Check)
    requires i < |vs|
    ensures Format(c, i + 1) in FormatDiagnostics(vs) <==> vs[i].Rejects(c)
  {
    var n := |vs|;
    if i < n - 1 {
      ReportedBeforeLast(vs, i, c);
      FormatDiagnosticsComplete(vs[..n - 1], i, c);
      assert vs[..n - 1][i] == vs[i];
    } else {
      ReportedOnLast(vs, c);
    }
  }

  /** One more line appends that line's diagnostics. */
  lemma FormatDiagnosticsStep(vs: seq<Verdict>, i: nat)
    requires i < |vs|
    ensures FormatDiagnostics(vs[..i + 1]) == FormatDiagnostics(vs[..i]) + LineDiagnostics(vs[i], i + 1)
  {
    assert vs[..i + 1][..i] == vs[..i];
  }

  /** An entry of the `Map<string, number[]>`: an address and its line numbers. */
  datatype Group = Group(address: string, lines: seq<nat>)

  function Keys(m: seq<Group>): seq<string> {
    seq(|m|, k requires 0 <= k < |m| => m[k].address)
  }

  predicate Distinct(xs: seq<string>) {
    forall i, j :: 0 <= i < j < |xs| ==> xs[i] != xs[j]
  }

  /** `addresses.has(a) ? addresses.get(a).push(line) : addresses.set(a, [line])`
      on a map that iterates in insertion order. */
  function Record(m: seq<Group>, address: string, line: nat): seq<Group> {
    if |m| == 0 then [Group(address, [line])]
    else if m[0].address == address then [Group(address, m[0].lines + [line])] + m[1..]
    else [m[0]] + Record(m[1..], address, line)
  }

  /** A new address gets a new entry at the end. */
  lemma {:induction false} RecordNew(m: seq<Group>, address: string, line: nat)
    requires address !in Keys(m)
    ensures Record(m, address, line) == m + [Group(address, [line])]
  {
    if |m| > 0 {
      assert Keys(m)[0] == m[0].address;
      assert forall k :: 0 <= k < |m| - 1 ==> Keys(m[1..])[k] == Keys(m)[k + 1];
      RecordNew(m[1..], address, line);
      assert m == [m[0]] + m[1..];
    }
  }

  /** The entry found first is the one extended. */
  lemma RecordKnownHead(m: seq<Group>, address: string, line: nat)
    requires Distinct(Keys(m)) && |m| > 0 && m[0].address == address
    ensures |Record(m, address, line)| == |m|
    ensures forall k :: 0 <= k < |m| ==>
      Record(m, address, line)[k] ==
        (if m[k].address == address then Group(address, m[k].lines + [line]) else m[k])
  {
    var r := Record(m, address, line);
    assert r == [Group(address, m[0].lines + [line])] + m[1..];
    forall k | 0 < k < |m|
      ensures r[k] == m[k] && m[k].address != address
    {
      assert Keys(m)[0] != Keys(m)[k];
    }
  }

  /** On a map without repeated keys, a known address has its entry extended
      in place and no other entry changes. */
  lemma {:induction false} RecordKnown(m: seq<Group>, address: string, line: nat)
    requires Distinct(Keys(m)) && address in Keys(m)
    ensures |Record(m, address, line)| == |m|
    ensures forall k :: 0 <= k < |m| ==>
      Record(m, address, line)[k] ==
        (if m[k].address == address then Group(address, m[k].lines + [line]) else m[k])
    decreases |m|, 1
  {
    if m[0].address == address {
      RecordKnownHead(m, address, line);
    } else {
      RecordKnownTail(m, address, line);
    }
  }

  /** The entry is further down: the first entry stays and the rest is recorded into. */
  lemma {:induction false} RecordKnownTail(m: seq<Group>, address: string, line: nat)
    requires Distinct(Keys(m)) && address in Keys(m) && m[0].address != address
    ensures |Record(m, address, line)| == |m|
    ensures forall k :: 0 <= k < |m| ==>
      Record(m, address, line)[k] ==
        (if m[k].address == address then Group(address, m[k].lines + [line]) else m[k])
    decreases |m|, 0
  {
    var tail := m[1..];
    KeysOfTail(m, address);
    RecordKnown(tail, address, line);
    RecordPassesHead(m, address, line);
    var r := Record(m, address, line);
    var r' := Record(tail, address, line);
    assert forall k :: 1 <= k < |m| ==> r[k] == r'[k - 1] && m[k] == tail[k - 1];
  }

  lemma KeysOfTail(m: seq<Group>, address: string)
    requires |m| > 0
    ensures Distinct(Keys(m)) ==> Distinct(Keys(m[1..]))
    ensures address in Keys(m) && m[0].address != address ==> address in Keys(m[1..])
  {
    assert Keys(m[1..]) == Keys(m)[1..];
    assert Keys(m) == [Keys(m)[0]] + Keys(m)[1..];
  }

  lemma RecordPassesHead(m: seq<Group>, address: string, line: nat)
    requires |m| > 0 && m[0].address != address
    ensures Record(m, address, line) == [m[0]] + Record(m[1..], address, line)
  {
  }

  /** On a map without repeated keys, recording a line extends the entry of
      its address, or adds a new entry at the end when the address is new;
      no other entry changes. */
  lemma RecordSpec(m: seq<Group>, address: string, line: nat)
    requires Distinct(Keys(m))
    ensures Keys(Record(m, address, line)) == if address in Keys(m) then Keys(m) else Keys(m) + [address]
    ensures address in Keys(m) ==> |Record(m, address, line)| == |m|
    ensures address in Keys(m) ==> forall k :: 0 <= k < |m| ==>
      Record(m, address, line)[k] ==
        (if m[k].address == address then Group(address, m[k].lines + [line]) else m[k])
    ensures address !in Keys(m) ==> Record(m, address, line) == m + [Group(address, [line])]
  {
    var r := Record(m, address, line);
    if address in Keys(m) {
      RecordKnown(m, address, line);
      assert forall k :: 0 <= k < |m| ==> Keys(r)[k] == Keys(m)[k];
    } else {
      RecordNew(m, address, line);
      assert forall k :: 0 <= k < |m| ==> Keys(r)[k] == Keys(m)[k];
    }
  }

  /** The 1-based lines whose address is `a`, ascending: an independent
      description of what a group holds. */
  function LinesOf(addrs: seq<string>, a: string): seq<nat> {
    if |addrs| == 0 then []
    else
      var n := |addrs|;
      LinesOf(addrs[..n - 1], a) + (if addrs[n - 1] == a then [n] else [])
  }

  /** Every line `LinesOf` lists carries `a`. */
  lemma {:induction false} LinesOfSound(addrs: seq<string>, a: string)
    ensures forall k :: 0 <= k < |LinesOf(addrs, a)| ==>
      1 <= LinesOf(addrs, a)[k] <= |addrs| && addrs[LinesOf(addrs, a)[k] - 1] == a
  {
    if |addrs| > 0 {
      var n := |addrs|;
      var prefix := addrs[..n - 1];
      LinesOfSound(prefix, a);
      var before := LinesOf(prefix, a);
      var ls := LinesOf(addrs, a);
      assert ls == before + (if addrs[n - 1] == a then [n] else []);
      assert forall k :: 0 <= k < |before| ==> ls[k] == before[k] && prefix[before[k] - 1] == addrs[before[k] - 1];
    }
  }

  /** `LinesOf` misses no line carrying `a`. */
  lemma {:induction false} LinesOfComplete(addrs: seq<string>, a: string)
    ensures forall i :: 0 <= i < |addrs| && addrs[i] == a ==> i + 1 in LinesOf(addrs, a)
  {
    if |addrs| > 0 {
      var n := |addrs|;
      var prefix := addrs[..n - 1];
      LinesOfComplete(prefix, a);
      var before := LinesOf(prefix, a);
      var ls := LinesOf(addrs, a);
      assert ls == before + (if addrs[n - 1] == a then [n] else []);
      forall i | 0 <= i < n && addrs[i] == a
        ensures i + 1 in ls
      {
        if i < n - 1 {
          assert prefix[i] == a;
          assert i + 1 in before;
        } else {
          assert ls[|ls| - 1] == n;
        }
      }
    }
  }

  /** `LinesOf` is strictly ascending. */
  lemma {:induction false} LinesOfAscending(addrs: seq<string>, a: string)
    ensures forall k, k' :: 0 <= k < k' < |LinesOf(addrs, a)| ==> LinesOf(addrs, a)[k] < LinesOf(addrs, a)[k']
  {
    if |addrs| > 0 {
      var n := |addrs|;
      var prefix := addrs[..n - 1];
      LinesOfAscending(prefix, a);
      LinesOfSound(prefix, a);
      var before := LinesOf(prefix, a);
      var ls := LinesOf(addrs, a);
      assert ls == before + (if addrs[n - 1] == a then [n] else []);
      assert forall k :: 0 <= k < |before| ==> ls[k] == before[k] && before[k] < n;
    }
  }

  /** `LinesOf` lists exactly the lines carrying `a`, in ascending order. */
  lemma LinesOfSpec(addrs: seq<string>, a: string)
    ensures forall k :: 0 <= k < |LinesOf(addrs, a)| ==>
      1 <= LinesOf(addrs, a)[k] <= |addrs| && addrs[LinesOf(addrs, a)[k] - 1] == a
    ensures forall i :: 0 <= i < |addrs| && addrs[i] == a ==> i + 1 in LinesOf(addrs, a)
    ensures forall k, k' :: 0 <= k < k' < |LinesOf(addrs, a)| ==> LinesOf(addrs, a)[k] < LinesOf(addrs, a)[k']
  {
    LinesOfSound(addrs, a);
    LinesOfComplete(addrs, a);
    LinesOfAscending(addrs, a);
  }

  lemma NoLinesWithout(addrs: seq<string>, a: string)
    requires a !in addrs
    ensures LinesOf(addrs, a) == []
  {
    LinesOfSpec(addrs, a);
  }

  /** The distinct addresses in the order they first occur. */
  function FirstSeen(addrs: seq<string>): seq<string> {
    if |addrs| == 0 then []
    else
      var n := |addrs|;
      var before := FirstSeen(addrs[..n - 1]);
      if addrs[n - 1] in before then before else before + [addrs[n - 1]]
  }

  /** `FirstSeen` lists every address once, and only addresses that occur. */
  lemma {:induction false} FirstSeenSpec(addrs: seq<string>)
    ensures Distinct(FirstSeen(addrs))
    ensures forall a :: a in FirstSeen(addrs) <==> a in addrs
  {
    if |addrs| > 0 {
      var n := |addrs|;
      FirstSeenSpec(addrs[..n - 1]);
      assert addrs == addrs[..n - 1] + [addrs[n - 1]];
    }
  }

  /** The map `addresses` after the `forEach`. */
  function Groups(addrs: seq<string>): seq<Group> {
    if |addrs| == 0 then []
    else
      var n := |addrs|;
      Record(Groups(addrs[..n - 1]), addrs[n - 1], n)
  }

  lemma GroupsStep(addrs: seq<string>, i: nat)
    requires i < |addrs|
    ensures Groups(addrs[..i + 1]) == Record(Groups(addrs[..i]), addrs[i], i + 1)
  {
    assert addrs[..i + 1][..i] == addrs[..i];
  }

  /** The map's keys, in iteration order, are the addresses in first-seen order. */
  lemma {:induction false} GroupsKeys(addrs: seq<string>)
    ensures Keys(Groups(addrs)) == FirstSeen(addrs)
  {
    if |addrs| > 0 {
      var n := |addrs|;
      GroupsKeys(addrs[..n - 1]);
      FirstSeenSpec(addrs[..n - 1]);
      RecordSpec(Groups(addrs[..n - 1]), addrs[n - 1], n);
    }
  }

  /** The map has one entry per distinct address, and each entry lists exactly
      that address's lines. */
  lemma {:induction false} GroupsSpec(addrs: seq<string>)
    ensures Distinct(Keys(Groups(addrs)))
    ensures forall a :: a in Keys(Groups(addrs)) <==> a in addrs
    ensures forall k :: 0 <= k < |Groups(addrs)| ==>
      Groups(addrs)[k].lines == LinesOf(addrs, Groups(addrs)[k].address)
  {
    GroupsKeys(addrs);
    FirstSeenSpec(addrs);
    if |addrs| > 0 {
      var n := |addrs|;
      var prefix := addrs[..n - 1];
      var a := addrs[n - 1];
      GroupsSpec(prefix);
      var before := Groups(prefix);
      RecordSpec(before, a, n);
      var g := Groups(addrs);
      assert g == Record(before, a, n);
      forall k | 0 <= k < |g|
        ensures g[k].lines == LinesOf(addrs, g[k].address)
      {
        var b := g[k].address;
        assert LinesOf(addrs, b) == LinesOf(prefix, b) + (if a == b then [n] else []);
        if a in Keys(before) {
          assert g[k] == if before[k].address == a then Group(a, before[k].lines + [n]) else before[k];
          assert before[k].lines == LinesOf(prefix, before[k].address);
        } else if k < |before| {
          assert Keys(before)[k] == before[k].address;
          assert g[k] == before[k] && b != a;
        } else {
          assert g[k] == Group(a, [n]);
          NoLinesWithout(prefix, a);
        }
      }
    }
  }

  /** Every entry has a line, and entries are in ascending order of first line. */
  predicate AscendingFirstLines(m: seq<Group>) {
    && (forall k :: 0 <= k < |m| ==> |m[k].lines| > 0)
    && (forall k, k' :: 0 <= k < k' < |m| ==> m[k].lines[0] < m[k'].lines[0])
  }

  lemma RecordKnownKeepsOrder(m: seq<Group>, address: string, line: nat)
    requires Distinct(Keys(m)) && address in Keys(m) && AscendingFirstLines(m)
    ensures AscendingFirstLines(Record(m, address, line))
  {
    RecordKnown(m, address, line);
    var r := Record(m, address, line);
    assert forall k :: 0 <= k < |r| ==> |r[k].lines| > 0 && r[k].lines[0] == m[k].lines[0];
  }

  lemma RecordNewKeepsOrder(m: seq<Group>, address: string, line: nat)
    requires address !in Keys(m) && AscendingFirstLines(m)
    requires forall k :: 0 <= k < |m| ==> m[k].lines[0] < line
    ensures AscendingFirstLines(Record(m, address, line))
  {
    RecordNew(m, address, line);
    var r := Record(m, address, line);
    assert forall k :: 0 <= k < |m| ==> r[k] == m[k];
  }

  /** The groups appear in ascending order of their first line. */
  lemma {:induction false} GroupsInFirstSeenOrder(addrs: seq<string>)
    ensures AscendingFirstLines(Groups(addrs))
  {
    if |addrs| > 0 {
      var n := |addrs|;
      var prefix := addrs[..n - 1];
      var a := addrs[n - 1];
      var before := Groups(prefix);
      GroupsInFirstSeenOrder(prefix);
      GroupsSpec(prefix);
      assert Groups(addrs) == Record(before, a, n);
      if a in Keys(before) {
        RecordKnownKeepsOrder(before, a, n);
      } else {
        forall k | 0 <= k < |before|
          ensures before[k].lines[0] < n
        {
          LinesOfSound(prefix, before[k].address);
        }
        RecordNewKeepsOrder(before, a, n);
      }
    }
  }

  /** `.filter(lines.length > 1).map(...)` over the map's entries. */
  function Duplicates(groups: seq<Group>): seq<Diagnostic> {
    if |groups| == 0 then []
    else
      var n := |groups|;
      var last := groups[n - 1];
      Duplicates(groups[..n - 1]) + (if |last.lines| > 1 then [Dup(last.address, last.lines)] else [])
  }

  lemma DuplicatesStep(groups: seq<Group>, i: nat)
    requires i < |groups|
    ensures Duplicates(groups[..i + 1]) == Duplicates(groups[..i]) +
      (if |groups[i].lines| > 1 then [Dup(groups[i].address, groups[i].lines)] else [])
  {
    assert groups[..i + 1][..i] == groups[..i];
  }

  /** One duplicate diagnostic per group of two or more lines, and nothing else. */
  lemma {:induction false} DuplicatesSpec(groups: seq<Group>)
    ensures forall k :: 0 <= k < |Duplicates(groups)| ==>
      Duplicates(groups)[k].Dup? && |Duplicates(groups)[k].lines| > 1
    ensures forall a, ls :: Dup(a, ls) in Duplicates(groups) <==> Group(a, ls) in groups && |ls| > 1
  {
    if |groups| > 0 {
      var n := |groups|;
      DuplicatesSpec(groups[..n - 1]);
      assert groups == groups[..n - 1] + [groups[n - 1]];
    }
  }

  /** Filtering keeps the groups' relative order. */
  lemma {:induction false} DuplicatesKeepOrder(groups: seq<Group>)
    requires AscendingFirstLines(groups)
    ensures forall k :: 0 <= k < |Duplicates(groups)| ==>
      Duplicates(groups)[k].Dup? && |Duplicates(groups)[k].lines| > 1
    ensures forall k, k' :: 0 <= k < k' < |Duplicates(groups)| ==>
      Duplicates(groups)[k].lines[0] < Duplicates(groups)[k'].lines[0]
  {
    DuplicatesSpec(groups);
    if |groups| > 0 {
      var n := |groups|;
      var last := groups[n - 1];
      DuplicatesKeepOrder(groups[..n - 1]);
      DuplicatesSpec(groups[..n - 1]);
      var ds := Duplicates(groups[..n - 1]);
      forall k | 0 <= k < |ds|
        ensures ds[k].lines[0] < last.lines[0]
      {
        assert Group(ds[k].address, ds[k].lines) in groups[..n - 1];
      }
    }
  }

  /** `errors` and `hasDuplicates` as `validateInput` leaves them. */
  datatype Validation = Validation(errors: seq<Diagnostic>, hasDuplicates: bool)

  /** Validation of the parsed lines `vs` whose addresses are `addrs`. */
  function ValidateJudged(vs: seq<Verdict>, addrs: seq<string>): Validation {
    var dups := Duplicates(Groups(addrs));
    Validation(FormatDiagnostics(vs) + dups, |dups| > 0)
  }

  /** `validateInput` on the ledger `inputFields`. */
  function Validate(ledger: seq<string>): Validation {
    ValidateJudged(Verdicts(ledger), Addresses(ledger))
  }

  lemma JudgedFormatErrors(vs: seq<Verdict>, addrs: seq<string>, c: Check, line: nat)
    ensures Format(c, line) in ValidateJudged(vs, addrs).errors <==>
      1 <= line <= |vs| && vs[line - 1].Rejects(c)
  {
    var formats := FormatDiagnostics(vs);
    var groups := Groups(addrs);
    var dups := Duplicates(groups);
    DuplicatesSpec(groups);
    assert Format(c, line) !in dups;
    if 1 <= line <= |vs| {
      FormatDiagnosticsComplete(vs, line - 1, c);
    } else {
      FormatDiagnosticsLines(vs);
      assert Format(c, line) !in formats;
    }
  }

  lemma ReportedDuplicateIsGroup(vs: seq<Verdict>, addrs: seq<string>, a: string, lines: seq<nat>)
    requires Dup(a, lines) in ValidateJudged(vs, addrs).errors
    ensures lines == LinesOf(addrs, a) && |lines| > 1
  {
    var g := Groups(addrs);
    FormatDiagnosticsLines(vs);
    DuplicatesSpec(g);
    assert Dup(a, lines) !in FormatDiagnostics(vs);
    var k :| 0 <= k < |g| && g[k] == Group(a, lines);
    GroupsSpec(addrs);
  }

  lemma GroupIsReported(vs: seq<Verdict>, addrs: seq<string>, a: string)
    requires |LinesOf(addrs, a)| > 1
    ensures Dup(a, LinesOf(addrs, a)) in ValidateJudged(vs, addrs).errors
  {
    var lines := LinesOf(addrs, a);
    var g := Groups(addrs);
    LinesOfSpec(addrs, a);
    assert addrs[lines[0] - 1] == a;
    GroupsSpec(addrs);
    assert a in Keys(g);
    var k :| 0 <= k < |g| && Keys(g)[k] == a;
    assert g[k] == Group(a, lines);
    DuplicatesSpec(g);
  }

  lemma JudgedDuplicates(vs: seq<Verdict>, addrs: seq<string>, a: string, lines: seq<nat>)
    ensures Dup(a, lines) in ValidateJudged(vs, addrs).errors <==>
      lines == LinesOf(addrs, a) && |lines| > 1
  {
    if Dup(a, lines) in ValidateJudged(vs, addrs).errors {
      ReportedDuplicateIsGroup(vs, addrs, a, lines);
    }
    if lines == LinesOf(addrs, a) && |lines| > 1 {
      GroupIsReported(vs, addrs, a);
    }
  }

  /** The order `setErrors` receives: every format diagnostic before every
      duplicate group, format diagnostics by line and then by check, and
      duplicate groups of two or more lines ascending by first line. */
  predicate InReportOrder(es: seq<Diagnostic>) {
    && (forall k, k' :: 0 <= k < k' < |es| && es[k].Dup? ==> es[k'].Dup?)
    && (forall k, k' :: 0 <= k < k' < |es| && es[k'].Format? ==> Precedes(es[k], es[k']))
    && (forall k :: 0 <= k < |es| && es[k].Dup? ==> |es[k].lines| > 1)
    && (forall k, k' :: 0 <= k < k' < |es| && es[k].Dup? && es[k'].Dup? ==> es[k].lines[0] < es[k'].lines[0])
  }

  lemma JudgedOrder(vs: seq<Verdict>, addrs: seq<string>)
    ensures InReportOrder(ValidateJudged(vs, addrs).errors)
  {
    var formats := FormatDiagnostics(vs);
    var groups := Groups(addrs);
    var dups := Duplicates(groups);
    FormatDiagnosticsLines(vs);
    FormatDiagnosticsSorted(vs);
    GroupsInFirstSeenOrder(addrs);
    DuplicatesKeepOrder(groups);
    var es := formats + dups;
    assert forall k :: 0 <= k < |formats| ==> es[k] == formats[k];
    assert forall k :: |formats| <= k < |es| ==> es[k] == dups[k - |formats|];
  }

  lemma JudgedHasDuplicates(vs: seq<Verdict>, addrs: seq<string>)
    ensures ValidateJudged(vs, addrs).hasDuplicates <==>
      exists k :: 0 <= k < |ValidateJudged(vs, addrs).errors| && ValidateJudged(vs, addrs).errors[k].Dup?
  {
    var formats := FormatDiagnostics(vs);
    var dups := Duplicates(Groups(addrs));
    FormatDiagnosticsLines(vs);
    DuplicatesSpec(Groups(addrs));
    var es := formats + dups;
    if |dups| > 0 {
      assert es[|formats|] == dups[0];
    }
    assert forall k :: 0 <= k < |formats| ==> es[k] == formats[k];
    assert forall k :: |formats| <= k < |es| ==> es[k] == dups[k - |formats|];
  }

  /** The format diagnostics are exactly the failed checks on the ledger's lines. */
  lemma ValidateReportsFormatErrors(ledger: seq<string>, c: Check, line: nat)
    ensures Format(c, line) in Validate(ledger).errors <==>
      1 <= line <= |ledger| && Fails(c, Parse(ledger[line - 1]))
  {
    JudgedFormatErrors(Verdicts(ledger), Addresses(ledger), c, line);
    if 1 <= line <= |ledger| {
      assert Verdicts(ledger)[line - 1] == Judge(Parse(ledger[line - 1]));
    }
  }

  /** A line without separator, or with an empty amount token, is reported
      as a wrong amount. */
  lemma MissingAmountReported(ledger: seq<string>, i: nat)
    requires i < |ledger|
    requires NoSeparator(ledger[i]) || AmountToken(ledger[i]) == Some("")
    ensures Format(Amount, i + 1) in Validate(ledger).errors
  {
    MissingOrEmptyAmountRejected(ledger[i]);
    ValidateReportsFormatErrors(ledger, Amount, i + 1);
  }

  /** The duplicate groups: one per address on two or more lines, listing
      exactly that address's lines. */
  lemma ValidateReportsDuplicates(ledger: seq<string>, a: string, lines: seq<nat>)
    ensures Dup(a, lines) in Validate(ledger).errors <==>
      lines == LinesOf(Addresses(ledger), a) && |lines| > 1
  {
    JudgedDuplicates(Verdicts(ledger), Addresses(ledger), a, lines);
  }

  /** The ordering law: format diagnostics first, in line and check order,
      then duplicate groups in ascending order of first line. */
  lemma ValidateOrder(ledger: seq<string>)
    ensures InReportOrder(Validate(ledger).errors)
  {
    JudgedOrder(Verdicts(ledger), Addresses(ledger));
  }

  lemma TwoLinesFromGroup(addrs: seq<string>, a: string)
    requires |LinesOf(addrs, a)| > 1
    ensures exists i, j :: 0 <= i < j < |addrs| && addrs[i] == a && addrs[j] == a
  {
    var ls := LinesOf(addrs, a);
    LinesOfSpec(addrs, a);
    assert ls[0] < ls[1];
    var i, j := ls[0] - 1, ls[1] - 1;
    assert addrs[i] == a && addrs[j] == a;
  }

  lemma GroupFromTwoLines(addrs: seq<string>, a: string, i: nat, j: nat)
    requires i < j < |addrs| && addrs[i] == a && addrs[j] == a
    ensures |LinesOf(addrs, a)| > 1
  {
    var ls := LinesOf(addrs, a);
    LinesOfSpec(addrs, a);
    assert i + 1 in ls && j + 1 in ls;
  }

  /** An address has two or more lines exactly when two lines carry it. */
  lemma SharedAddress(addrs: seq<string>, a: string)
    ensures |LinesOf(addrs, a)| > 1 <==>
      exists i, j :: 0 <= i < j < |addrs| && addrs[i] == a && addrs[j] == a
  {
    if |LinesOf(addrs, a)| > 1 {
      TwoLinesFromGroup(addrs, a);
    } else {
      forall i, j | 0 <= i < j < |addrs| && addrs[i] == a
        ensures addrs[j] != a
      {
        if addrs[j] == a {
          GroupFromTwoLines(addrs, a, i, j);
        }
      }
    }
  }

  /** `hasDuplicates` holds exactly when two lines carry the same address, and
      exactly when a duplicate group is reported. */
  lemma HasDuplicatesIff(ledger: seq<string>)
    ensures Validate(ledger).hasDuplicates <==>
      exists k :: 0 <= k < |Validate(ledger).errors| && Validate(ledger).errors[k].Dup?
    ensures Validate(ledger).hasDuplicates <==>
      exists i, j :: 0 <= i < j < |ledger| && Address(ledger[i]) == Address(ledger[j])
  {
    var vs := Verdicts(ledger);
    var addrs := Addresses(ledger);
    var v := ValidateJudged(vs, addrs);
    JudgedHasDuplicates(vs, addrs);
    if v.hasDuplicates {
      var k :| 0 <= k < |v.errors| && v.errors[k].Dup?;
      var d := v.errors[k];
      JudgedDuplicates(vs, addrs, d.address, d.lines);
      SharedAddress(addrs, d.address);
    }
    if exists i, j :: 0 <= i < j < |ledger| && addrs[i] == addrs[j] {
      var i, j :| 0 <= i < j < |ledger| && addrs[i] == addrs[j];
      var a := addrs[i];
      SharedAddress(addrs, a);
      JudgedDuplicates(vs, addrs, a, LinesOf(addrs, a));
    }
  }

  /** The three `if`s of the loop body, pushing onto `newErrors`. */
  method CheckLine(parts: Parsed, line: nat) returns (ds: seq<Diagnostic>)
    ensures ds == LineDiagnostics(Judge(parts), line)
  {
    ds := [];
    if |parts.address| != AddressLength {
      ds := ds + [Format(Length, line)];
    }
    if !HasHexPrefix(parts.address) {
      ds := ds + [Format(Prefix, line)];
    }
    if !AmountAccepted(parts.amount) {
      ds := ds + [Format(Amount, line)];
    }
  }

  /** The `forEach` of `validateInput`: the format diagnostics of every line
      and the map from address to lines. */
  method CollectLines(inputFields: seq<string>) returns (newErrors: seq<Diagnostic>, addresses: seq<Group>)
    ensures newErrors == FormatDiagnostics(Verdicts(inputFields))
    ensures addresses == Groups(Addresses(inputFields))
  {
    ghost var vs := Verdicts(inputFields);
    ghost var addrs := Addresses(inputFields);
    addresses := [];
    newErrors := [];
    var index := 0;
    while index < |inputFields|
      invariant 0 <= index <= |inputFields|
      invariant newErrors == FormatDiagnostics(vs[..index])
      invariant addresses == Groups(addrs[..index])
    {
      var parts := Parse(inputFields[index]);
      assert Judge(parts) == vs[index] && parts.address == addrs[index];
      FormatDiagnosticsStep(vs, index);
      GroupsStep(addrs, index);
      var lineErrors := CheckLine(parts, index + 1);
      newErrors := newErrors + lineErrors;
      addresses := Record(addresses, parts.address, index + 1);
      index := index + 1;
    }
    assert vs[..index] == vs;
    assert addrs[..index] == addrs;
  }

  /** `duplicateErrors`: the entries of the map with two or more lines. */
  method CollectDuplicates(addresses: seq<Group>) returns (duplicateErrors: seq<Diagnostic>)
    ensures duplicateErrors == Duplicates(addresses)
  {
    duplicateErrors := [];
    var k := 0;
    while k < |addresses|
      invariant 0 <= k <= |addresses|
      invariant duplicateErrors == Duplicates(addresses[..k])
    {
      DuplicatesStep(addresses, k);
      if |addresses[k].lines| > 1 {
        duplicateErrors := duplicateErrors + [Dup(addresses[k].address, addresses[k].lines)];
      }
      k := k + 1;
    }
    assert addresses[..k] == addresses;
  }

  /** `validateInput` itself: what it hands to `setErrors` and `setHasDuplicates`. */
  method ValidateInput(inputFields: seq<string>) returns (errors: seq<Diagnostic>, hasDuplicates: bool)
    ensures Validation(errors, hasDuplicates) == Validate(inputFields)
  {
    var newErrors, addresses := CollectLines(inputFields);
    var duplicateErrors := CollectDuplicates(addresses);
    errors := newErrors + duplicateErrors;
    hasDuplicates := |duplicateErrors| > 0;
  }
}
