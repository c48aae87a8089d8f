/**
  `handleDuplicateAddress`, behind both the "Keep the first one" and the
  "Combine Balance" buttons: keep each line whose address has not been seen
  on an earlier line, then clear the diagnostics.
 */
module Dedup {
  import opened Tokenizer
  import opened Validator

  /** The addresses of the lines of `s`, as a set: `seenAddresses` once the
      filter has passed over `s`. */
  function AddressSet(s: seq<string>): set<string> {
    set j | 0 <= j < |s| :: Address(s[j])
  }

  /** Line `i` is the first line of `s` carrying its address. */
  predicate IsFirstOccurrence(s: seq<string>, i: nat)
    requires i < |s|
  {
    Address(s[i]) !in AddressSet(s[..i])
  }

  /** No two lines of `s` carry the same address. */
  predicate DistinctAddresses(s: seq<string>) {
    forall i, j :: 0 <= i < j < |s| ==> Address(s[i]) != Address(s[j])
  }

  /** `inputFields.filter(...)` with the `seenAddresses` set. */
  function KeepFirst(ledger: seq<string>): seq<string> {
    if |ledger| == 0 then []
    else
      var n := |ledger|;
      KeepFirst(ledger[..n - 1]) + (if Address(ledger[n - 1]) in AddressSet(ledger[..n - 1]) then [] else [ledger[n - 1]])
  }

  /** The positions of `ledger` that the filter keeps. */
  function KeptIndices(ledger: seq<string>): seq<nat> {
    if |ledger| == 0 then []
    else
      var n := |ledger|;
      KeptIndices(ledger[..n - 1]) + (if Address(ledger[n - 1]) in AddressSet(ledger[..n - 1]) then [] else [n - 1])
  }

  lemma AddressSetSnoc(s: seq<string>, x: string)
    ensures AddressSet(s + [x]) == AddressSet(s) + {Address(x)}
  {
    var t := s + [x];
    assert forall j :: 0 <= j < |s| ==> t[j] == s[j];
    assert t[|s|] == x;
  }

  lemma KeepFirstStep(s: seq<string>, i: nat)
    requires i < |s|
    ensures KeepFirst(s[..i + 1]) ==
      KeepFirst(s[..i]) + (if Address(s[i]) in AddressSet(s[..i]) then [] else [s[i]])
    ensures AddressSet(s[..i + 1]) == AddressSet(s[..i]) + {Address(s[i])}
  {
    assert s[..i + 1][..i] == s[..i];
    assert s[..i + 1] == s[..i] + [s[i]];
    AddressSetSnoc(s[..i], s[i]);
  }

  /** Filtering forgets no address: the kept lines carry exactly the
      addresses of the ledger. */
  lemma {:induction false} KeepFirstSameAddresses(ledger: seq<string>)
    ensures AddressSet(KeepFirst(ledger)) == AddressSet(ledger)
  {
    if |ledger| > 0 {
      var n := |ledger|;
      var prefix := ledger[..n - 1];
      var last := ledger[n - 1];
      KeepFirstSameAddresses(prefix);
      assert ledger == prefix + [last];
      AddressSetSnoc(prefix, last);
      if Address(last) !in AddressSet(prefix) {
        assert KeepFirst(ledger) == KeepFirst(prefix) + [last];
        AddressSetSnoc(KeepFirst(prefix), last);
      } else {
        assert KeepFirst(ledger) == KeepFirst(prefix);
      }
    }
  }

  /** The kept lines carry pairwise different addresses. */
  lemma {:induction false} KeepFirstDistinct(ledger: seq<string>)
    ensures DistinctAddresses(KeepFirst(ledger))
  {
    if |ledger| > 0 {
      var n := |ledger|;
      var prefix := ledger[..n - 1];
      var last := ledger[n - 1];
      KeepFirstDistinct(prefix);
      var kept := KeepFirst(prefix);
      if Address(last) !in AddressSet(prefix) {
        KeepFirstSameAddresses(prefix);
        var r := kept + [last];
        forall i, j | 0 <= i < j < |r|
          ensures Address(r[i]) != Address(r[j])
        {
          if j == |kept| {
            assert Address(kept[i]) in AddressSet(kept);
          } else {
            assert r[i] == kept[i] && r[j] == kept[j];
          }
        }
      }
    }
  }

  /** The result is a subsequence of the ledger that keeps exactly the first
      line of every address, in ledger order. */
  lemma {:induction false} KeepFirstIsFirstOccurrences(ledger: seq<string>)
    ensures |KeptIndices(ledger)| == |KeepFirst(ledger)|
    ensures forall k :: 0 <= k < |KeptIndices(ledger)| ==>
      KeptIndices(ledger)[k] < |ledger| && KeepFirst(ledger)[k] == ledger[KeptIndices(ledger)[k]]
    ensures forall k, k' :: 0 <= k < k' < |KeptIndices(ledger)| ==> KeptIndices(ledger)[k] < KeptIndices(ledger)[k']
    ensures forall i :: 0 <= i < |ledger| ==> (i in KeptIndices(ledger) <==> IsFirstOccurrence(ledger, i))
  {
    if |ledger| > 0 {
      var n := |ledger|;
      var prefix := ledger[..n - 1];
      var last := ledger[n - 1];
      KeepFirstIsFirstOccurrences(prefix);
      var idx := KeptIndices(prefix);
      var kept := KeepFirst(prefix);
      assert forall i :: 0 <= i < n - 1 ==> ledger[i] == prefix[i] && ledger[..i] == prefix[..i];
      assert ledger[..n - 1] == prefix;
      if Address(last) !in AddressSet(prefix) {
        var idx' := idx + [n - 1];
        var kept' := kept + [last];
        assert forall k :: 0 <= k < |idx| ==> idx'[k] == idx[k] && kept'[k] == kept[k];
        assert idx'[|idx|] == n - 1 && kept'[|idx|] == last;
      }
    }
  }

  /** Line 0 survives: the first line is always the first of its address. */
  lemma KeepFirstKeepsHead(ledger: seq<string>)
    requires |ledger| > 0
    ensures |KeepFirst(ledger)| > 0 && KeepFirst(ledger)[0] == ledger[0]
  {
    KeepFirstIsFirstOccurrences(ledger);
    assert ledger[..0] == [];
    assert IsFirstOccurrence(ledger, 0);
    var idx := KeptIndices(ledger);
    assert 0 in idx;
  }

  lemma DistinctSnoc(s: seq<string>, x: string)
    requires DistinctAddresses(s + [x])
    ensures DistinctAddresses(s) && Address(x) !in AddressSet(s)
  {
    var t := s + [x];
    assert forall i :: 0 <= i < |s| ==> t[i] == s[i];
    assert t[|s|] == x;
  }

  /** A ledger without repeated addresses passes through unchanged. */
  lemma {:induction false} KeepFirstOfDistinct(ledger: seq<string>)
    requires DistinctAddresses(ledger)
    ensures KeepFirst(ledger) == ledger
  {
    if |ledger| > 0 {
      var n := |ledger|;
      var prefix := ledger[..n - 1];
      var last := ledger[n - 1];
      assert ledger == prefix + [last];
      DistinctSnoc(prefix, last);
      KeepFirstOfDistinct(prefix);
      assert KeepFirst(ledger) == KeepFirst(prefix) + [last];
    }
  }

  /** Pressing either button twice is the same as pressing it once. */
  lemma KeepFirstIdempotent(ledger: seq<string>)
    ensures KeepFirst(KeepFirst(ledger)) == KeepFirst(ledger)
  {
    KeepFirstDistinct(ledger);
    KeepFirstOfDistinct(KeepFirst(ledger));
  }

  /** Validating the filtered ledger finds no duplicate group. */
  lemma KeepFirstLeavesNoDuplicates(ledger: seq<string>)
    ensures !Validate(KeepFirst(ledger)).hasDuplicates
    ensures forall k :: 0 <= k < |Validate(KeepFirst(ledger)).errors| ==> Validate(KeepFirst(ledger)).errors[k].Format?
  {
    KeepFirstDistinct(ledger);
    HasDuplicatesIff(KeepFirst(ledger));
  }

  /** `handleDuplicateAddress`: the filter with its `seenAddresses` set, and
      the cleared `errors` and `hasDuplicates`. */
  method HandleDuplicateAddress(inputFields: seq<string>)
    returns (filteredInputFields: seq<string>, errors: seq<Diagnostic>, hasDuplicates: bool)
    ensures filteredInputFields == KeepFirst(inputFields)
    ensures errors == [] && !hasDuplicates
  {
    var seenAddresses: set<string> := {};
    filteredInputFields := [];
    var i := 0;
    while i < |inputFields|
      invariant 0 <= i <= |inputFields|
      invariant seenAddresses == AddressSet(inputFields[..i])
      invariant filteredInputFields == KeepFirst(inputFields[..i])
    {
      KeepFirstStep(inputFields, i);
      var address := Parse(inputFields[i]).address;
      if address !in seenAddresses {
        seenAddresses := seenAddresses + {address};
        filteredInputFields := filteredInputFields + [inputFields[i]];
      }
      i := i + 1;
    }
    assert inputFields[..i] == inputFields;
    errors := [];
    hasDuplicates := false;
  }
}
