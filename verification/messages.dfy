/**
  The text of each diagnostic as `validateInput` pushes it: the template
  literals of the three format checks and of a duplicate group.
 */
module Messages {
  import opened Wrappers
  import opened Tokenizer
  import opened Validator

  function DigitChar(d: nat): char
    requires d < 10
  {
    "0123456789"[d]
  }

  function DigitValue(c: char): nat {
    if IsDigit(c) then (c as int - '0' as int) as nat else 0
  }

  predicate AllDigits(s: string) {
    forall i :: 0 <= i < |s| ==> IsDigit(s[i])
  }

  /** A number as `${n}` writes it: decimal, no leading zero. */
  function Decimal(n: nat): (s: string)
    ensures |s| >= 1 && AllDigits(s)
    ensures |s| > 1 ==> s[0] != '0'
  {
    if n < 10 then [DigitChar(n)] else Decimal(n / 10) + [DigitChar(n % 10)]
  }

  /** The value of a string of decimal digits. */
  function ParseDecimal(s: string): nat {
    if |s| == 0 then 0 else ParseDecimal(s[..|s| - 1]) * 10 + DigitValue(s[|s| - 1])
  }

  lemma DigitRoundTrip(d: nat)
    requires d < 10
    ensures DigitValue(DigitChar(d)) == d
  {
  }

  /** Reading a written number back gives the number. */
  lemma {:induction false} DecimalRoundTrip(n: nat)
    ensures ParseDecimal(Decimal(n)) == n
  {
    var s := Decimal(n);
    if n >= 10 {
      var q, d := n / 10, n % 10;
      DecimalRoundTrip(q);
      DigitRoundTrip(d);
      assert s == Decimal(q) + [DigitChar(d)];
      assert s[..|s| - 1] == Decimal(q) && s[|s| - 1] == DigitChar(d);
      assert ParseDecimal(s) == q * 10 + d;
    } else {
      DigitRoundTrip(n);
      assert s[..0] == [];
    }
  }

  /** The message of each check, after `Line ${index + 1}`. */
  function CheckText(c: Check): string {
    match c
    case Length => " invalid Ethereum address and wrong amount"
    case Prefix => " invalid Ethereum address"
    case Amount => " wrong amount."
  }

  /** `lineNumbers.join(', ')`. */
  function Join(lines: seq<nat>): string {
    if |lines| == 0 then ""
    else if |lines| == 1 then Decimal(lines[0])
    else Join(lines[..|lines| - 1]) + ", " + Decimal(lines[|lines| - 1])
  }

  /** The text between the address and the line list of a duplicate message. */
  const DupText: string := " Duplicates in Line: "

  /** The string `validateInput` pushes for a diagnostic. */
  function Render(d: Diagnostic): string {
    match d
    case Format(c, line) => "Line " + Decimal(line) + CheckText(c)
    case Dup(address, lines) => address + DupText + Join(lines)
  }

  /** The longest prefix of `s` made of digits. */
  function DigitPrefix(s: string): (k: nat)
    ensures k <= |s| && AllDigits(s[..k])
    ensures k < |s| ==> !IsDigit(s[k])
  {
    if |s| == 0 || !IsDigit(s[0]) then 0
    else
      var j := DigitPrefix(s[1..]);
      assert s[..j + 1] == [s[0]] + s[1..][..j];
      j + 1
  }

  /** Reads a format message back into its check and line. */
  function ParseFormatMessage(s: string): Option<Diagnostic> {
    if |s| < 5 || s[..5] != "Line " then None
    else
      var t := s[5..];
      var k := DigitPrefix(t);
      if k == 0 then None
      else
        match CheckOfText(t[k..])
        case Some(c) => Some(Format(c, ParseDecimal(t[..k])))
        case None => None
  }

  /** The check whose message is `rest`, if any. */
  function CheckOfText(rest: string): Option<Check> {
    if rest == CheckText(Length) then Some(Length)
    else if rest == CheckText(Prefix) then Some(Prefix)
    else if rest == CheckText(Amount) then Some(Amount)
    else None
  }

  lemma CheckOfTextRoundTrip(c: Check)
    ensures CheckOfText(CheckText(c)) == Some(c)
  {
    assert CheckText(Length) != CheckText(Prefix) by {
      assert |CheckText(Length)| != |CheckText(Prefix)|;
    }
    assert CheckText(Amount) != CheckText(Length) && CheckText(Amount) != CheckText(Prefix) by {
      assert CheckText(Amount)[1] != CheckText(Length)[1];
      assert CheckText(Amount)[1] != CheckText(Prefix)[1];
    }
  }

  lemma DigitPrefixOfDigitsThen(digits: string, rest: string)
    requires AllDigits(digits)
    requires |rest| > 0 && !IsDigit(rest[0])
    ensures DigitPrefix(digits + rest) == |digits|
    decreases |digits|
  {
    if |digits| > 0 {
      assert (digits + rest)[1..] == digits[1..] + rest;
      DigitPrefixOfDigitsThen(digits[1..], rest);
    } else {
      assert digits + rest == rest;
    }
  }

  lemma ConcatAssoc(a: string, b: string, c: string)
    ensures a + b + c == a + (b + c)
  {
  }

  lemma RenderFormatPieces(c: Check, line: nat)
    ensures Render(Format(c, line)) == "Line " + (Decimal(line) + CheckText(c))
  {
    var d := Decimal(line);
    var t := CheckText(c);
    assert Render(Format(c, line)) == "Line " + d + t;
    ConcatAssoc("Line ", d, t);
  }

  lemma CheckTextStartsWithSpace(c: Check)
    ensures |CheckText(c)| > 0 && CheckText(c)[0] == ' '
  {
  }

  lemma ParsePieces(digits: string, text: string)
    requires |digits| >= 1 && AllDigits(digits)
    requires |text| > 0 && text[0] == ' '
    ensures ParseFormatMessage("Line " + (digits + text)) ==
      if CheckOfText(text).Some? then Some(Format(CheckOfText(text).value, ParseDecimal(digits))) else None
  {
    var s := "Line " + (digits + text);
    assert s[..5] == "Line ";
    var t := s[5..];
    assert t == digits + text;
    DigitPrefixOfDigitsThen(digits, text);
    assert t[..|digits|] == digits;
    assert t[|digits|..] == text;
  }

  /** A format message names its check and its line unambiguously: reading
      it back gives the diagnostic it was written from. */
  lemma FormatMessageRoundTrip(c: Check, line: nat)
    ensures ParseFormatMessage(Render(Format(c, line))) == Some(Format(c, line))
  {
    RenderFormatPieces(c, line);
    CheckTextStartsWithSpace(c);
    ParsePieces(Decimal(line), CheckText(c));
    CheckOfTextRoundTrip(c);
    DecimalRoundTrip(line);
  }

  /** Two format diagnostics with the same text are the same diagnostic. */
  lemma FormatMessagesDistinct(d: Diagnostic, e: Diagnostic)
    requires d.Format? && e.Format? && Render(d) == Render(e)
    ensures d == e
  {
    FormatMessageRoundTrip(d.check, d.line);
    FormatMessageRoundTrip(e.check, e.line);
  }

  /** A duplicate message is its address, the fixed text, then the joined
      line list. */
  lemma DupMessagePieces(address: string, lines: seq<nat>)
    ensures Render(Dup(address, lines))[..|address|] == address
    ensures Render(Dup(address, lines))[|address|..|address| + |DupText|] == DupText
    ensures Render(Dup(address, lines))[|address| + |DupText|..] == Join(lines)
  {
    var s := Render(Dup(address, lines));
    assert s == address + (DupText + Join(lines));
  }

  /** The length of the longest suffix of `s` made of digits. */
  function DigitSuffix(s: string): (k: nat)
    ensures k <= |s|
  {
    if |s| == 0 || !IsDigit(s[|s| - 1]) then 0 else DigitSuffix(s[..|s| - 1]) + 1
  }

  /** Reads a `join(', ')` of line numbers back, from the right. */
  function ReadJoin(s: string): seq<nat>
    decreases |s|
  {
    if |s| == 0 then []
    else
      var k := DigitSuffix(s);
      var cut := |s| - k;
      if k == |s| then [ParseDecimal(s)]
      else if k > 0 && cut >= 2 && s[cut - 2..cut] == ", " then ReadJoin(s[..cut - 2]) + [ParseDecimal(s[cut..])]
      else []
  }

  lemma {:induction false} DigitSuffixOfThenDigits(prefix: string, digits: string)
    requires |prefix| > 0 && !IsDigit(prefix[|prefix| - 1])
    requires AllDigits(digits)
    ensures DigitSuffix(prefix + digits) == |digits|
    decreases |digits|
  {
    var s := prefix + digits;
    if |digits| > 0 {
      assert s[..|s| - 1] == prefix + digits[..|digits| - 1];
      assert s[|s| - 1] == digits[|digits| - 1];
      DigitSuffixOfThenDigits(prefix, digits[..|digits| - 1]);
    } else {
      assert s == prefix;
    }
  }

  lemma DigitSuffixOfDigits(digits: string)
    requires AllDigits(digits)
    ensures DigitSuffix(digits) == |digits|
    decreases |digits|
  {
    if |digits| > 0 {
      assert digits[..|digits| - 1][|digits| - 1..] == [];
      DigitSuffixOfDigits(digits[..|digits| - 1]);
    }
  }

  lemma SnocPieces(head: string, digits: string)
    ensures (head + ", " + digits)[..|head| + 2] == head + ", "
    ensures (head + ", " + digits)[|head|..|head| + 2] == ", "
    ensures (head + ", " + digits)[..|head|] == head
    ensures (head + ", " + digits)[|head| + 2..] == digits
  {
    var s := head + ", " + digits;
    assert s == (head + ", ") + digits;
  }

  /** One more `, n` at the end of a text adds `n` to what is read back. */
  lemma ReadJoinSnoc(head: string, digits: string)
    requires |digits| > 0 && AllDigits(digits)
    ensures ReadJoin(head + ", " + digits) == ReadJoin(head) + [ParseDecimal(digits)]
  {
    SnocPieces(head, digits);
    DigitSuffixOfThenDigits(head + ", ", digits);
  }

  lemma ReadJoinStep(init: seq<nat>, n: nat)
    requires ReadJoin(Join(init)) == init
    ensures ReadJoin(Join(init) + ", " + Decimal(n)) == init + [n]
  {
    ReadJoinSnoc(Join(init), Decimal(n));
    DecimalRoundTrip(n);
  }

  /** Reading a joined line list back gives the list. */
  lemma {:induction false} JoinRoundTrip(lines: seq<nat>)
    ensures ReadJoin(Join(lines)) == lines
  {
    var n := |lines|;
    if n == 1 {
      DigitSuffixOfDigits(Decimal(lines[0]));
      DecimalRoundTrip(lines[0]);
    } else if n > 1 {
      var init := lines[..n - 1];
      JoinRoundTrip(init);
      ReadJoinStep(init, lines[n - 1]);
      assert init + [lines[n - 1]] == lines;
    }
  }

  /** Given its address, a duplicate message gives back its line list. */
  lemma DupMessageLines(address: string, lines: seq<nat>)
    ensures ReadJoin(Render(Dup(address, lines))[|address| + |DupText|..]) == lines
  {
    DupMessagePieces(address, lines);
    JoinRoundTrip(lines);
  }
}
