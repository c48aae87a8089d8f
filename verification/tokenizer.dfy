/**
  The entry grammar of the ledger editor: an entry is cut into pieces by
  `input.split(/=|,| /)`; piece 0 is the address and piece 1 the amount token.
  Also the recogniser for an amount that `Number` turns into a positive value.
 */
module Tokenizer {
  import opened Wrappers

  /** The three characters of the pattern `/=|,| /`. */
  predicate IsSeparator(c: char) {
    c == '=' || c == ',' || c == ' '
  }

  predicate NoSeparator(s: string) {
    forall i :: 0 <= i < |s| ==> !IsSeparator(s[i])
  }

  /** `s.split(/=|,| /)`: every separator closes one piece and opens the next,
      so adjacent separators give empty pieces and there is always a piece 0. */
  function Split(s: string): (parts: seq<string>)
    ensures |parts| >= 1
    decreases |s|
  {
    if |s| == 0 then [""]
    else
      var rest := Split(s[1..]);
      if IsSeparator(s[0]) then [""] + rest
      else [[s[0]] + rest[0]] + rest[1..]
  }

  /** No piece contains a separator. */
  lemma {:induction false} SplitPiecesArePlain(s: string)
    ensures forall k :: 0 <= k < |Split(s)| ==> NoSeparator(Split(s)[k])
    decreases |s|
  {
    if |s| > 0 {
      SplitPiecesArePlain(s[1..]);
      var rest := Split(s[1..]);
      if !IsSeparator(s[0]) {
        var parts := Split(s);
        assert parts[0] == [s[0]] + rest[0];
        assert forall k :: 1 <= k < |parts| ==> parts[k] == rest[k];
      }
    }
  }

  /** Piece 0 is the longest prefix without a separator. */
  lemma {:induction false} SplitFirstPiece(s: string)
    ensures |Split(s)[0]| <= |s| && Split(s)[0] == s[..|Split(s)[0]|]
    ensures NoSeparator(Split(s)[0])
    ensures |Split(s)[0]| < |s| ==> IsSeparator(s[|Split(s)[0]|])
    decreases |s|
  {
    if |s| > 0 {
      SplitFirstPiece(s[1..]);
      SplitPiecesArePlain(s);
    }
  }

  /** The separator characters of `s`, in order: what `split` throws away. */
  function Separators(s: string): (seps: string)
    ensures forall k :: 0 <= k < |seps| ==> IsSeparator(seps[k])
    ensures |seps| == 0 <==> NoSeparator(s)
    decreases |s|
  {
    if |s| == 0 then []
    else (if IsSeparator(s[0]) then [s[0]] else []) + Separators(s[1..])
  }

  /** Puts the pieces back together with the given separators between them. */
  function Rejoin(parts: seq<string>, seps: string): string
    requires |parts| == |seps| + 1
    decreases |seps|
  {
    if |seps| == 0 then parts[0]
    else parts[0] + [seps[0]] + Rejoin(parts[1..], seps[1..])
  }

  lemma {:induction false} RejoinCons(c: char, parts: seq<string>, seps: string)
    requires |parts| == |seps| + 1
    ensures Rejoin([[c] + parts[0]] + parts[1..], seps) == [c] + Rejoin(parts, seps)
  {
    var parts' := [[c] + parts[0]] + parts[1..];
    assert parts'[0] == [c] + parts[0];
    if |seps| > 0 {
      assert parts'[1..] == parts[1..];
    }
  }

  /** Splitting loses nothing: the pieces and the separators rebuild the entry. */
  lemma {:induction false} SplitRejoin(s: string)
    ensures |Split(s)| == |Separators(s)| + 1
    ensures Rejoin(Split(s), Separators(s)) == s
    decreases |s|
  {
    if |s| > 0 {
      SplitRejoin(s[1..]);
      var rest := Split(s[1..]);
      if IsSeparator(s[0]) {
        assert Split(s) == [""] + rest;
        assert Separators(s) == [s[0]] + Separators(s[1..]);
        assert ([""] + rest)[1..] == rest;
        assert s == [s[0]] + s[1..];
      } else {
        assert Separators(s) == Separators(s[1..]);
        RejoinCons(s[0], rest, Separators(s[1..]));
        assert s == [s[0]] + s[1..];
      }
    }
  }

  lemma {:induction false} SplitSeparatorFirst(c: char, y: string)
    requires IsSeparator(c)
    ensures Split([c] + y) == [""] + Split(y)
    ensures Separators([c] + y) == [c] + Separators(y)
  {
    assert ([c] + y)[1..] == y;
  }

  lemma {:induction false} SplitPlainPrefix(x: string, y: string)
    requires NoSeparator(x)
    ensures Split(x + y) == [x + Split(y)[0]] + Split(y)[1..]
    ensures Separators(x + y) == Separators(y)
    decreases |x|
  {
    var py := Split(y);
    if |x| > 0 {
      var s := x + y;
      assert s[0] == x[0] && !IsSeparator(s[0]);
      assert s[1..] == x[1..] + y;
      SplitPlainPrefix(x[1..], y);
      var rest := Split(s[1..]);
      assert rest == [x[1..] + py[0]] + py[1..];
      assert Split(s) == [[s[0]] + rest[0]] + rest[1..];
      assert rest[1..] == py[1..];
      assert [x[0]] + (x[1..] + py[0]) == x + py[0];
    } else {
      assert x + y == y;
      assert x + py[0] == py[0];
      assert py == [py[0]] + py[1..];
    }
  }

  /** Conversely, separator-free pieces joined by separators split back into
      exactly those pieces and separators. */
  lemma {:induction false} RejoinSplit(parts: seq<string>, seps: string)
    requires |parts| == |seps| + 1
    requires forall k :: 0 <= k < |parts| ==> NoSeparator(parts[k])
    requires forall k :: 0 <= k < |seps| ==> IsSeparator(seps[k])
    ensures Split(Rejoin(parts, seps)) == parts
    ensures Separators(Rejoin(parts, seps)) == seps
    decreases |seps|
  {
    if |seps| == 0 {
      SplitPlainPrefix(parts[0], "");
      assert Split("") == [""] && Separators("") == "";
      assert Rejoin(parts, seps) == parts[0] == parts[0] + "";
      assert parts == [parts[0]];
    } else {
      var tail := Rejoin(parts[1..], seps[1..]);
      RejoinSplit(parts[1..], seps[1..]);
      SplitSeparatorFirst(seps[0], tail);
      SplitPlainPrefix(parts[0], [seps[0]] + tail);
      assert parts[0] + [seps[0]] + tail == parts[0] + ([seps[0]] + tail);
      assert Split([seps[0]] + tail)[0] == "" && Split([seps[0]] + tail)[1..] == parts[1..];
      assert parts[0] + "" == parts[0];
      assert parts == [parts[0]] + parts[1..];
      assert seps == [seps[0]] + seps[1..];
    }
  }

  /** Piece 0 of the split: the address. */
  function Address(entry: string): string {
    Split(entry)[0]
  }

  /** The address is the longest prefix of the entry without a separator: the
      whole entry when there is none, else the text before the first one. */
  lemma AddressBeforeFirstSeparator(entry: string)
    ensures |Address(entry)| <= |entry| && Address(entry) == entry[..|Address(entry)|]
    ensures NoSeparator(Address(entry))
    ensures |Address(entry)| < |entry| ==> IsSeparator(entry[|Address(entry)|])
    ensures |Address(entry)| == |entry| <==> NoSeparator(entry)
  {
    SplitFirstPiece(entry);
    if |Address(entry)| == |entry| {
      assert entry == Address(entry);
    }
  }

  /** After the first separator, `split` carries on with the rest of the entry. */
  lemma {:induction false} SplitAfterFirst(s: string)
    requires !NoSeparator(s)
    ensures |Split(s)| > 1
    ensures |Address(s)| < |s|
    ensures Split(s)[1..] == Split(s[|Address(s)| + 1..])
    decreases |s|
  {
    AddressBeforeFirstSeparator(s);
    var rest := Split(s[1..]);
    if IsSeparator(s[0]) {
      assert Split(s) == [""] + rest;
    } else {
      assert !NoSeparator(s[1..]) by {
        var i :| 0 <= i < |s| && IsSeparator(s[i]);
        assert s[1..][i - 1] == s[i];
      }
      SplitAfterFirst(s[1..]);
      assert Split(s)[0] == [s[0]] + rest[0];
      assert s[1..][|Address(s[1..])| + 1..] == s[|Address(s)| + 1..];
    }
  }

  /** Piece 1 of the split, `undefined` when the entry has no separator. */
  function AmountToken(entry: string): Option<string> {
    var parts := Split(entry);
    if |parts| > 1 then Some(parts[1]) else None
  }

  /** The amount token is missing exactly when the entry has no separator, and
      otherwise it is the text between the first and the second separator (or
      the end of the entry). */
  lemma AmountTokenAfterFirstSeparator(entry: string)
    ensures AmountToken(entry).None? <==> NoSeparator(entry)
    ensures AmountToken(entry).Some? ==>
      |Address(entry)| < |entry| && AmountToken(entry).value == Address(entry[|Address(entry)| + 1..])
  {
    SplitRejoin(entry);
    if !NoSeparator(entry) {
      SplitAfterFirst(entry);
    }
  }

  predicate IsDigit(c: char) {
    '0' <= c <= '9'
  }

  /** The amount texts this model takes `Number` to turn into a positive value:
      an optional `+`, then digits with at most one `.`, at least one digit
      being non-zero (`"5"`, `"0.5"`, `".5"`, `"5."`, `"+1"`). */
  predicate PositiveDecimal(t: string) {
    var u := if |t| > 0 && t[0] == '+' then t[1..] else t;
    && (forall i :: 0 <= i < |u| ==> IsDigit(u[i]) || u[i] == '.')
    && (forall i, j :: 0 <= i < j < |u| && u[i] == '.' ==> u[j] != '.')
    && (exists i :: 0 <= i < |u| && '1' <= u[i] <= '9')
  }

  /** The negation of `isNaN(Number(parts[1])) || Number(parts[1]) <= 0`;
      `Number(undefined)` is `NaN`. */
  predicate AmountAccepted(t: Option<string>) {
    t.Some? && PositiveDecimal(t.value)
  }

  /** A line without separator has no amount; a line whose amount token is
      empty (`"abc="`, where `Number("")` is 0) is rejected as well. */
  lemma MissingOrEmptyAmountRejected(entry: string)
    requires NoSeparator(entry) || AmountToken(entry) == Some("")
    ensures !AmountAccepted(AmountToken(entry))
  {
    AmountTokenAfterFirstSeparator(entry);
  }

  /** An entry as `validateInput` sees it: `parts[0]` and `parts[1]`. */
  datatype Parsed = Parsed(address: string, amount: Option<string>)

  function Parse(entry: string): Parsed {
    Parsed(Address(entry), AmountToken(entry))
  }

  /** The addresses of all lines of a ledger, by position. */
  function Addresses(ledger: seq<string>): (addrs: seq<string>)
    ensures |addrs| == |ledger|
    ensures forall i :: 0 <= i < |ledger| ==> addrs[i] == Address(ledger[i])
  {
    seq(|ledger|, i requires 0 <= i < |ledger| => Address(ledger[i]))
  }
}
