/** Parsing and checking the requested sequence length (`validate_sequence_length`).
    Python's `int()` is modelled on the grammar: an optional `+` or `-` sign followed by one
    or more ASCII decimal digits (leading zeros allowed). */
module InputValidator {
  import opened Wrappers

  /** The single error kind, carrying its user-facing message. */
  datatype LengthError = InvalidLength(message: string)

  /** The message of every rejected length, whatever the reason for rejecting it. */
  const InvalidLengthMessage: string := "Please enter a valid positive integer"

  predicate IsDigit(c: char) {
    '0' <= c <= '9'
  }

  predicate AllDigits(s: string) {
    forall i :: 0 <= i < |s| ==> IsDigit(s[i])
  }

  /** The decimal integer literal grammar accepted by the parser. */
  predicate IsIntegerLiteral(s: string) {
    || (|s| > 0 && AllDigits(s))
    || (|s| > 1 && (s[0] == '+' || s[0] == '-') && AllDigits(s[1..]))
  }

  function DigitValue(c: char): (d: nat)
    requires IsDigit(c)
    ensures d < 10
  {
    (c as int) - ('0' as int)
  }

  function DigitChar(d: nat): (c: char)
    requires d < 10
    ensures IsDigit(c) && DigitValue(c) == d
  {
    ('0' as int + d) as char
  }

  /** The value of a string of decimal digits, most significant first. */
  function DigitsValue(s: string): (v: nat)
    requires AllDigits(s)
  {
    if s == [] then 0 else DigitsValue(s[..|s| - 1]) * 10 + DigitValue(s[|s| - 1])
  }

  /** The shortest decimal spelling of `n`. */
  function DecimalString(n: nat): (s: string)
    ensures |s| > 0 && AllDigits(s)
  {
    if n < 10 then [DigitChar(n)] else DecimalString(n / 10) + [DigitChar(n % 10)]
  }

  /** How Python's `str(i)` spells an integer. */
  function IntToString(i: int): (s: string)
    ensures IsIntegerLiteral(s)
  {
    if i < 0 then "-" + DecimalString(-i) else DecimalString(i)
  }

  /** `int(s)`: the integer a literal denotes, or `None` where `int` raises `ValueError`. */
  function ParseInt(s: string): (r: Option<int>)
    ensures r.Some? <==> IsIntegerLiteral(s)
    ensures r.Some? && s[0] == '-' ==> r.value <= 0
    ensures r.Some? && s[0] != '-' ==> r.value >= 0
  {
    if |s| > 1 && (s[0] == '+' || s[0] == '-') && AllDigits(s[1..]) then
      var magnitude: int := DigitsValue(s[1..]);
      Some(if s[0] == '-' then -magnitude else magnitude)
    else if |s| > 0 && AllDigits(s) then Some(DigitsValue(s))
    else None
  }

  /** The length the input denotes when that is a positive integer; otherwise the one
      `InvalidLength` error, both for text that is no integer and for zero or a negative
      value. */
  function ValidateSequenceLength(input: string): (r: Result<nat, LengthError>)
    ensures r.Success? ==> r.value > 0 && ParseInt(input) == Some(r.value)
    ensures r.Failure? ==> ParseInt(input).None? || ParseInt(input).value <= 0
    ensures r.Failure? ==> r.error == InvalidLength(InvalidLengthMessage)
  {
    match ParseInt(input)
    case None => Failure(InvalidLength(InvalidLengthMessage))
    case Some(length) =>
      if length <= 0 then Failure(InvalidLength(InvalidLengthMessage)) else Success(length)
  }

  /** Reading back the decimal spelling of `n` gives `n`. */
  lemma {:induction false} DecimalRoundTrip(n: nat)
    ensures DigitsValue(DecimalString(n)) == n
  {
    var s := DecimalString(n);
    if n >= 10 {
      DecimalRoundTrip(n / 10);
      assert s[..|s| - 1] == DecimalString(n / 10);
    }
  }

  /** Every integer is read back from Python's spelling of it. */
  lemma ParseIntRoundTrip(i: int)
    ensures ParseInt(IntToString(i)) == Some(i)
  {
    if i < 0 {
      DecimalRoundTrip(-i);
      assert IntToString(i)[1..] == DecimalString(-i);
    } else {
      DecimalRoundTrip(i);
    }
  }

  /** An integer written out is accepted exactly when it is positive, and then as itself. */
  lemma ValidateIntegers(i: int)
    ensures ValidateSequenceLength(IntToString(i)) ==
      if i > 0 then Success(i) else Failure(InvalidLength(InvalidLengthMessage))
  {
    ParseIntRoundTrip(i);
  }

  /** A leading zero does not change the value of a digit string. */
  lemma {:induction false} LeadingZeroValue(s: string)
    requires AllDigits(s)
    ensures AllDigits("0" + s) && DigitsValue("0" + s) == DigitsValue(s)
  {
    var t := "0" + s;
    assert AllDigits(t) by {
      forall i | 0 <= i < |t| ensures IsDigit(t[i]) {
        if i > 0 { assert t[i] == s[i - 1]; }
      }
    }
    if s != [] {
      assert t[..|t| - 1] == "0" + s[..|s| - 1];
      LeadingZeroValue(s[..|s| - 1]);
    }
  }

  /** Leading zeros are accepted: "0" followed by a positive length's spelling gives that length. */
  lemma ValidateLeadingZero(n: nat)
    requires n > 0
    ensures ValidateSequenceLength("0" + DecimalString(n)) == Success(n)
  {
    LeadingZeroValue(DecimalString(n));
    DecimalRoundTrip(n);
  }

  /** `k` zero digits. */
  function Zeros(k: nat): (z: string)
    ensures |z| == k
  {
    seq(k, i => '0')
  }

  /** A run of zeros is worth nothing. */
  lemma {:induction false} ZerosValue(k: nat)
    ensures DigitsValue(Zeros(k)) == 0
  {
    if k > 0 {
      assert Zeros(k)[..k - 1] == Zeros(k - 1);
      ZerosValue(k - 1);
    }
  }

  /** Any number of leading zeros leaves a digit string's value unchanged. */
  lemma {:induction false} LeadingZerosValue(k: nat, s: string)
    requires AllDigits(s)
    ensures AllDigits(Zeros(k) + s) && DigitsValue(Zeros(k) + s) == DigitsValue(s)
  {
    if k > 0 {
      LeadingZerosValue(k - 1, s);
      assert Zeros(k) + s == "0" + (Zeros(k - 1) + s);
      LeadingZeroValue(Zeros(k - 1) + s);
    } else {
      assert Zeros(k) + s == s;
    }
  }

  /** Appending a digit to a positive number's spelling spells ten times it plus that digit. */
  lemma AppendDigitSpelling(n: nat, d: char)
    requires n > 0 && IsDigit(d)
    ensures DecimalString(n * 10 + DigitValue(d)) == DecimalString(n) + [d]
  {
    var v := n * 10 + DigitValue(d);
    assert v / 10 == n && v % 10 == DigitValue(d);
    assert DigitChar(DigitValue(d)) == d;
  }

  /** Every non-empty digit string is some leading zeros followed by the shortest decimal
      spelling of its value: together with `DecimalRoundTrip`, this pins the value of every
      digit string. */
  lemma {:induction false} DigitsCanonicalForm(s: string)
    requires |s| > 0 && AllDigits(s)
    ensures var canonical := DecimalString(DigitsValue(s));
      |canonical| <= |s| && s == Zeros(|s| - |canonical|) + canonical
  {
    if |s| == 1 {
      assert s[..0] == [];
      assert DigitChar(DigitValue(s[0])) == s[0];
      assert s == Zeros(0) + [s[0]];
    } else {
      DigitsCanonicalForm(s[..|s| - 1]);
      CanonicalAfterDigit(s);
    }
  }

  /** The induction step of `DigitsCanonicalForm`: one more digit after a canonical form. */
  lemma CanonicalAfterDigit(s: string)
    requires |s| > 1 && AllDigits(s)
    requires var t := s[..|s| - 1]; var canonical := DecimalString(DigitsValue(t));
      |canonical| <= |t| && t == Zeros(|t| - |canonical|) + canonical
    ensures var canonical := DecimalString(DigitsValue(s));
      |canonical| <= |s| && s == Zeros(|s| - |canonical|) + canonical
  {
    var t, d := s[..|s| - 1], s[|s| - 1];
    assert s == t + [d];
    var vt := DigitsValue(t);
    if vt == 0 {
      assert DigitChar(DigitValue(d)) == d;
      assert t == Zeros(|t|);
    } else {
      AppendDigitSpelling(vt, d);
    }
  }

  /** A `+` sign and leading zeros do not change what a literal denotes, with or without `-`. */
  lemma ParseIntIgnoresPlusAndZeros(k: nat, s: string)
    requires |s| > 0 && AllDigits(s)
    ensures ParseInt(Zeros(k) + s) == ParseInt(s)
    ensures ParseInt("+" + Zeros(k) + s) == ParseInt(s)
    ensures ParseInt("-" + Zeros(k) + s) == ParseInt("-" + s)
  {
    LeadingZerosValue(k, s);
    var z := Zeros(k) + s;
    var v: int := DigitsValue(s);
    assert ParseInt(s) == Some(v);
    assert ParseInt(z) == Some(v);
    assert ("+" + z)[1..] == z;
    assert ParseInt("+" + z) == Some(v);
    assert ("-" + z)[1..] == z && ("-" + s)[1..] == s;
    assert ParseInt("-" + z) == Some(-v) == ParseInt("-" + s);
    assert "+" + Zeros(k) + s == "+" + z && "-" + Zeros(k) + s == "-" + z;
  }

  /** Every literal the parser accepts is an optional sign, then leading zeros, then the
      shortest decimal spelling of the magnitude of the value it denotes. */
  lemma ParsedLiteralShape(s: string)
    requires ParseInt(s).Some?
    ensures var i := ParseInt(s).value;
      var magnitude: nat := if i < 0 then -i else i;
      var digits := if s[0] == '+' || s[0] == '-' then s[1..] else s;
      var canonical := DecimalString(magnitude);
      |canonical| <= |digits| && digits == Zeros(|digits| - |canonical|) + canonical
  {
    var digits := if s[0] == '+' || s[0] == '-' then s[1..] else s;
    DigitsCanonicalForm(digits);
  }

  /** Non-canonical spellings: "+42" and "0042" denote 42, and "-0" denotes 0. */
  lemma ParseIntSpellings()
    ensures ParseInt("+42") == Some(42)
    ensures ParseInt("0042") == Some(42)
    ensures ParseInt("-0") == Some(0)
  {
    assert "+42"[1..] == "42" && "42"[..1] == "4" && "4"[..0] == "";
    assert "0042"[..3] == "004" && "004"[..2] == "00" && "00"[..1] == "0" && "0"[..0] == "";
    assert "-0"[1..] == "0";
  }

  /** The worked examples: "0", "-5" and "abc" are rejected, "42" is accepted as 42. */
  lemma ValidateExamples()
    ensures ValidateSequenceLength("0") == Failure(InvalidLength(InvalidLengthMessage))
    ensures ValidateSequenceLength("-5") == Failure(InvalidLength(InvalidLengthMessage))
    ensures ValidateSequenceLength("abc") == Failure(InvalidLength(InvalidLengthMessage))
    ensures ValidateSequenceLength("42") == Success(42)
  {
  }
}
