/**
 * The display formatter (utils/formatter.ts): an operand is split on ".",
 * its integer part is read as a `BigInt` and printed with en-US digit
 * grouping, and the text after the first "." is re-attached verbatim.
 */
module Formatter {
  import opened Wrappers

  // ---------------------------------------------------------------------
  // String.prototype.split on one character, and its inverse

  /** `s.split(sep)`: the pieces between occurrences of `sep`. */
  function Split(s: string, sep: char): (parts: seq<string>)
    ensures |parts| >= 1
    ensures forall i :: 0 <= i < |parts| ==> sep !in parts[i]
    decreases |s|
  {
    if s == [] then [""]
    else
      var rest := Split(s[1..], sep);
      if s[0] == sep then [""] + rest
      else [[s[0]] + rest[0]] + rest[1..]
  }

  /** `parts.join(sep)`. */
  function Join(parts: seq<string>, sep: char): string
    requires |parts| >= 1
    decreases |parts|
  {
    if |parts| == 1 then parts[0] else parts[0] + [sep] + Join(parts[1..], sep)
  }

  /** There is one piece exactly when the separator does not occur. */
  lemma {:induction false} SplitSingle(s: string, sep: char)
    ensures |Split(s, sep)| == 1 <==> sep !in s
    ensures sep !in s ==> Split(s, sep) == [s]
    decreases |s|
  {
    if s != [] {
      SplitSingle(s[1..], sep);
      assert s == [s[0]] + s[1..];
    }
  }

  /** Joining the pieces gives back the text. */
  lemma {:induction false} JoinSplit(s: string, sep: char)
    ensures Join(Split(s, sep), sep) == s
    decreases |s|
  {
    if s != [] {
      JoinSplit(s[1..], sep);
      var rest := Split(s[1..], sep);
      if s[0] == sep {
        assert ([""] + rest)[1..] == rest;
      } else {
        var parts := [[s[0]] + rest[0]] + rest[1..];
        assert parts[1..] == rest[1..];
        if |rest| > 1 {
          assert rest == [rest[0]] + rest[1..];
        }
      }
      assert s == [s[0]] + s[1..];
    }
  }

  /** Splitting where `sep` occurs is splitting both sides. */
  lemma {:induction false} SplitAround(a: string, b: string, sep: char)
    ensures Split(a + [sep] + b, sep) == Split(a, sep) + Split(b, sep)
    decreases |a|
  {
    if a == [] {
      assert a + [sep] + b == [sep] + b;
      assert ([sep] + b)[1..] == b;
    } else {
      var s := a + [sep] + b;
      assert s[0] == a[0] && s[1..] == a[1..] + [sep] + b;
      SplitAround(a[1..], b, sep);
    }
  }

  /** Split undoes Join on pieces free of the separator. */
  lemma {:induction false} SplitJoin(parts: seq<string>, sep: char)
    requires |parts| >= 1
    requires forall i :: 0 <= i < |parts| ==> sep !in parts[i]
    ensures Split(Join(parts, sep), sep) == parts
    decreases |parts|
  {
    SplitSingle(parts[0], sep);
    if |parts| > 1 {
      SplitJoin(parts[1..], sep);
      SplitAround(parts[0], Join(parts[1..], sep), sep);
      assert parts == [parts[0]] + parts[1..];
    }
  }

  /** The pieces glued back together without separators. */
  function Concat(parts: seq<string>): string
    decreases |parts|
  {
    if parts == [] then "" else Concat(parts[..|parts| - 1]) + parts[|parts| - 1]
  }

  // ---------------------------------------------------------------------
  // Decimal digits and BigInt

  predicate IsDigit(c: char)
  {
    '0' <= c <= '9'
  }

  predicate IsDigits(s: string)
  {
    |s| > 0 && forall i :: 0 <= i < |s| ==> IsDigit(s[i])
  }

  /** The text `BigInt` reads here: empty (which is 0), or digits after an optional sign. */
  predicate IsIntegerText(t: string)
  {
    t == "" || IsDigits(t) || (|t| >= 2 && (t[0] == '-' || t[0] == '+') && IsDigits(t[1..]))
  }

  function DigitValue(c: char): nat
    requires IsDigit(c)
  {
    c as int - '0' as int
  }

  function DigitChar(d: nat): char
    requires d < 10
  {
    ('0' as int + d) as char
  }

  /** The value of a digit string read in base 10; leading zeros add nothing. */
  function DigitsValue(s: string): nat
    requires forall i :: 0 <= i < |s| ==> IsDigit(s[i])
    decreases |s|
  {
    if s == [] then 0 else DigitsValue(s[..|s| - 1]) * 10 + DigitValue(s[|s| - 1])
  }

  /** `BigInt(t)`. */
  function IntegerValue(t: string): (r: int)
    requires IsIntegerText(t)
    ensures r < 0 ==> |t| > 0 && t[0] == '-'
    ensures |t| > 0 && t[0] == '-' ==> r <= 0
  {
    if t == "" then 0
    else if t[0] == '-' then -(DigitsValue(t[1..]) as int)
    else if t[0] == '+' then DigitsValue(t[1..])
    else DigitsValue(t)
  }

  /** The shortest decimal digits of `n`. */
  function DecimalDigits(n: nat): (r: string)
    ensures IsDigits(r) && DigitsValue(r) == n
    ensures r[0] == '0' ==> r == "0"
    decreases n
  {
    if n < 10 then [DigitChar(n)]
    else
      var r := DecimalDigits(n / 10) + [DigitChar(n % 10)];
      assert r[..|r| - 1] == DecimalDigits(n / 10);
      r
  }

  /** `BigInt` reads back the shortest digits of any value, behind a "-" when negative. */
  lemma IntegerValueReadsDecimal(v: int)
    ensures var text := (if v < 0 then "-" else "") + DecimalDigits(if v < 0 then -v else v);
      IsIntegerText(text) && IntegerValue(text) == v
  {
    var ds := DecimalDigits(if v < 0 then -v else v);
    if v < 0 {
      assert ("-" + ds)[1..] == ds;
    } else {
      assert "" + ds == ds;
    }
  }

  // ---------------------------------------------------------------------
  // en-US grouping

  /** Digits in groups: one to three in front, then exactly three in each group after a comma. */
  predicate WellGrouped(r: string)
  {
    var groups := Split(r, ',');
    && 1 <= |groups[0]| <= 3
    && (forall i :: 1 <= i < |groups| ==> |groups[i]| == 3)
    && (forall i :: 0 <= i < |groups| ==> IsDigits(groups[i]))
  }

  /** A comma before each group of three digits counted from the right. */
  function GroupThousands(ds: string): (r: string)
    requires IsDigits(ds)
    ensures WellGrouped(r)
    ensures Concat(Split(r, ',')) == ds
    ensures forall i :: 0 <= i < |r| ==> IsDigit(r[i]) || r[i] == ','
    decreases |ds|
  {
    if |ds| <= 3 then
      SplitSingle(ds, ',');
      assert Concat([ds]) == Concat([]) + ds;
      ds
    else
      var head := ds[..|ds| - 3];
      var tail := ds[|ds| - 3..];
      var front := GroupThousands(head);
      SplitAround(front, tail, ',');
      SplitSingle(tail, ',');
      var groups := Split(front, ',') + [tail];
      assert groups[..|groups| - 1] == Split(front, ',');
      assert head + tail == ds;
      front + "," + tail
  }

  /**
   * `INTEGER_FORMATTER.format(v)` for a BigInt: en-US, no fraction digits.
   * The result is a "-" exactly for negative values, followed by the
   * magnitude's digits without leading zeros, grouped by three.
   */
  function FormatInteger(v: int): (r: string)
    ensures |r| > 0 && '.' !in r
    ensures r[0] == '-' <==> v < 0
    ensures var g := if v < 0 then r[1..] else r;
      && WellGrouped(g)
      && var ds := Concat(Split(g, ','));
         IsDigits(ds) && DigitsValue(ds) == (if v < 0 then -v else v) && (ds[0] == '0' ==> ds == "0")
  {
    var magnitude := if v < 0 then -v else v;
    var g := GroupThousands(DecimalDigits(magnitude));
    assert |g| > 0 by {
      if g == "" {
        SplitSingle(g, ',');
      }
    }
    assert g[0] != '-' && '.' !in g;
    var r := if v < 0 then "-" + g else g;
    assert (if v < 0 then r[1..] else r) == g;
    r
  }

  // ---------------------------------------------------------------------
  // formatOperand

  /** The text before an operand's first ".", which `BigInt` reads. */
  function IntegerPart(text: string): string
  {
    Split(text, '.')[0]
  }

  /**
   * Operands `formatOperand` can format: `BigInt` throws on any other
   * integer part ("Infinity", "NaN", "1e+21", a lone sign).
   */
  predicate Formattable(operand: Option<string>)
  {
    operand.Some? ==> IsIntegerText(IntegerPart(operand.value))
  }

  /**
   * `formatOperand`: "" for null; otherwise the grouped integer part,
   * followed by "." and the text between the first and second "." when
   * the operand has a ".".
   */
  function FormatOperand(operand: Option<string>): (r: string)
    requires Formattable(operand)
    ensures operand.None? <==> r == ""
    ensures '.' in r <==> operand.Some? && '.' in operand.value
  {
    match operand
    case None => ""
    case Some(text) =>
      SplitSingle(text, '.');
      AttachFraction(FormatInteger(IntegerValue(IntegerPart(text))), text)
  }

  /** The template `${integer}.${decimal}`, or the integer alone when `decimal` is undefined. */
  function AttachFraction(integer: string, text: string): string
  {
    var parts := Split(text, '.');
    if |parts| == 1 then integer else integer + "." + parts[1]
  }

  /** An operand without "." shows as its grouped integer value alone. */
  lemma FormatOperandWithoutDot(text: string)
    requires '.' !in text && IsIntegerText(text)
    ensures Formattable(Some(text))
    ensures FormatOperand(Some(text)) == FormatInteger(IntegerValue(text))
  {
    SplitSingle(text, '.');
  }

  /**
   * With a ".", the fraction text up to any second "." is kept verbatim
   * after the grouped integer part; what follows a second "." is dropped.
   */
  lemma FormatOperandWithDot(integer: string, fraction: string, rest: string)
    requires IsIntegerText(integer) && '.' !in integer && '.' !in fraction
    requires rest == "" || rest[0] == '.'
    ensures Formattable(Some(integer + "." + fraction + rest))
    ensures FormatOperand(Some(integer + "." + fraction + rest))
              == FormatInteger(IntegerValue(integer)) + "." + fraction
  {
    var text := integer + "." + fraction + rest;
    assert text == integer + ['.'] + (fraction + rest);
    SplitAround(integer, fraction + rest, '.');
    SplitSingle(integer, '.');
    if rest == "" {
      assert fraction + rest == fraction;
      SplitSingle(fraction, '.');
    } else {
      assert fraction + rest == fraction + ['.'] + rest[1..];
      SplitAround(fraction, rest[1..], '.');
      SplitSingle(fraction, '.');
    }
    assert Split(text, '.')[1] == fraction;
  }

  /** Proof helper for the examples below: a one-digit value prints as that digit. */
  lemma FormatSingleDigit(n: nat)
    requires n < 10
    ensures FormatInteger(n) == [DigitChar(n)]
  {
  }

  /** Leading zeros are not shown: "05" is shown as "5". */
  lemma FormatOperandDropsLeadingZero()
    ensures Formattable(Some("05"))
    ensures FormatOperand(Some("05")) == "5"
  {
    var text := "05";
    assert IsIntegerText(text) && '.' !in text && IntegerValue(text) == 5 by {
      assert IsDigits(text) && text[..1] == "0" && "0"[..0] == "";
    }
    FormatSingleDigit(5);
    assert [DigitChar(5)] == "5";
    FormatOperandWithoutDot(text);
  }

  /** An empty integer part reads as 0: "" is shown as "0" and "." as "0.". */
  lemma FormatOperandEmptyIntegerPart()
    ensures Formattable(Some("")) && Formattable(Some("."))
    ensures FormatOperand(Some("")) == "0"
    ensures FormatOperand(Some(".")) == "0."
  {
    var empty, dot := "", ".";
    assert empty + "." + empty + empty == dot;
    assert "0" + "." + empty == "0.";
    assert IsIntegerText(empty) && IntegerValue(empty) == 0 && '.' !in empty;
    FormatIntegerZero();
    FormatOperandWithoutDot(empty);
    FormatOperandWithDot(empty, empty, empty);
  }

  /** Proof helper for `FormatOperandGroupsThousands`: 1234 prints as "1,234". */
  lemma FormatInteger1234()
    ensures FormatInteger(1234) == "1,234"
  {
    assert DecimalDigits(1) == "1";
    assert DecimalDigits(12) == "12";
    assert DecimalDigits(123) == "123";
    assert DecimalDigits(1234) == "1234";
    assert "1234"[..1] == "1" && "1234"[1..] == "234";
    assert GroupThousands("1") == "1";
    assert GroupThousands("1234") == "1,234";
  }

  /** Four integer digits get one comma: "1234.5" is shown as "1,234.5". */
  lemma FormatOperandGroupsThousands()
    ensures Formattable(Some("1234.5"))
    ensures FormatOperand(Some("1234.5")) == "1,234.5"
  {
    var t := "1234";
    assert t + "." + "5" + "" == "1234.5";
    assert "1,234" + "." + "5" == "1,234.5";
    assert IsIntegerText(t) && IntegerValue(t) == 1234 by {
      assert IsDigits(t);
      assert t[..3] == "123" && "123"[..2] == "12" && "12"[..1] == "1" && "1"[..0] == "";
    }
    assert '.' !in t && '.' !in "5";
    FormatInteger1234();
    FormatOperandWithDot(t, "5", "");
  }

  // ---------------------------------------------------------------------
  // A negative operand above -1 loses its sign

  /** Proof helper for the sign examples: 0 prints as "0". */
  lemma FormatIntegerZero()
    ensures FormatInteger(0) == "0"
  {
  }

  lemma SignDroppedAboveMinusOne()
    ensures Formattable(Some("-0.5"))
    ensures FormatOperand(Some("-0.5")) == "0.5"
  {
    var t := "-0";
    assert t + "." + "5" + "" == "-0.5";
    assert "0" + "." + "5" == "0.5";
    assert IsIntegerText(t) && IntegerValue(t) == 0 by {
      assert t[1..] == "0" && IsDigits("0");
      assert DigitsValue("0") == 0 by { assert "0"[..0] == ""; }
    }
    assert '.' !in t && '.' !in "5";
    FormatIntegerZero();
    FormatOperandWithDot(t, "5", "");
  }

  /** A negative-zero integer text: a "-" followed by digits whose value is 0. */
  predicate IsNegativeZero(t: string)
    requires IsIntegerText(t)
  {
    |t| > 0 && t[0] == '-' && IntegerValue(t) == 0
  }

  /**
   * The integer part with its sign kept, even when its value is 0. It
   * prints what `FormatInteger` prints, except that a negative zero gets
   * its "-" back in front.
   */
  function FormatIntegerText(t: string): (r: string)
    requires IsIntegerText(t)
    ensures |r| > 0 && '.' !in r
    ensures r[0] == '-' <==> |t| > 0 && t[0] == '-'
    ensures !IsNegativeZero(t) ==> r == FormatInteger(IntegerValue(t))
    ensures IsNegativeZero(t) ==> r == "-" + FormatInteger(0)
  {
    if |t| > 0 && t[0] == '-' then
      var magnitude := DigitsValue(t[1..]);
      assert magnitude != 0 ==> FormatInteger(-(magnitude as int)) == "-" + FormatInteger(magnitude);
      "-" + FormatInteger(magnitude)
    else FormatInteger(IntegerValue(t))
  }

  /** `formatOperand` with the sign of the operand kept on display. */
  function FormatOperandSigned(operand: Option<string>): (r: string)
    requires Formattable(operand)
    ensures operand.None? <==> r == ""
    ensures '.' in r <==> operand.Some? && '.' in operand.value
    ensures operand.Some? ==> (r[0] == '-' <==> |operand.value| > 0 && operand.value[0] == '-')
  {
    match operand
    case None => ""
    case Some(text) =>
      var parts := Split(text, '.');
      SplitSingle(text, '.');
      assert |text| > 0 && text[0] == '-' <==> |parts[0]| > 0 && parts[0][0] == '-' by {
        JoinSplit(text, '.');
        if |parts| > 1 {
          assert text == parts[0] + ['.'] + Join(parts[1..], '.');
        }
      }
      AttachFraction(FormatIntegerText(IntegerPart(text)), text)
  }

  /**
   * The corrected display differs from `formatOperand` only on an operand
   * whose integer part is a negative zero, where it adds the "-" back.
   */
  lemma FormatOperandSignedAgrees(operand: Option<string>)
    requires Formattable(operand)
    ensures operand.Some? && IsNegativeZero(IntegerPart(operand.value)) ==>
              FormatOperandSigned(operand) == "-" + FormatOperand(operand)
    ensures !(operand.Some? && IsNegativeZero(IntegerPart(operand.value))) ==>
              FormatOperandSigned(operand) == FormatOperand(operand)
  {
    if operand.Some? {
      SignedAgreesOn(operand.value);
    }
  }

  /** Proof helper for `FormatOperandSignedAgrees`, on a present operand. */
  lemma SignedAgreesOn(text: string)
    requires IsIntegerText(IntegerPart(text))
    ensures FormatOperandSigned(Some(text))
              == (if IsNegativeZero(IntegerPart(text)) then "-" else "") + FormatOperand(Some(text))
  {
    var t := IntegerPart(text);
    var plain := FormatInteger(IntegerValue(t));
    var sign := if IsNegativeZero(t) then "-" else "";
    assert FormatOperand(Some(text)) == AttachFraction(plain, text);
    assert FormatOperandSigned(Some(text)) == AttachFraction(FormatIntegerText(t), text);
    assert FormatIntegerText(t) == sign + plain;
    AttachFractionAfterSign(sign, plain, text);
  }

  /** Proof helper: a sign in front of the integer stays in front of the whole display. */
  lemma AttachFractionAfterSign(sign: string, integer: string, text: string)
    ensures AttachFraction(sign + integer, text) == sign + AttachFraction(integer, text)
  {
    var parts := Split(text, '.');
    if |parts| > 1 {
      assert sign + (integer + "." + parts[1]) == (sign + integer) + "." + parts[1];
    }
  }

  /** Corrected: "-0.5" is shown as "-0.5". */
  lemma SignKeptAboveMinusOne()
    ensures Formattable(Some("-0.5"))
    ensures FormatOperandSigned(Some("-0.5")) == "-0.5"
  {
    var t := "-0";
    assert t + ['.'] + "5" == "-0.5";
    assert "-" + "0.5" == "-0.5";
    assert IsIntegerText(t) && t[1..] == "0" && DigitsValue("0") == 0 by {
      assert IsDigits("0") && "0"[..0] == "";
    }
    SplitAround(t, "5", '.');
    SplitSingle(t, '.');
    SplitSingle("5", '.');
    assert IntegerPart("-0.5") == t && IsNegativeZero(t);
    SignDroppedAboveMinusOne();
    FormatOperandSignedAgrees(Some("-0.5"));
  }

  // ---------------------------------------------------------------------
  // Results that are not numbers make BigInt throw

  /**
   * As written: "Infinity", "-Infinity" and "NaN", which the reducer's
   * `toString` produces for `5 ÷ 0 =` or for "+/-" on ".", are outside
   * what `formatOperand` can format, because `BigInt` throws on them.
   */
  lemma NonNumericResultsUnformattable()
    ensures !Formattable(Some("Infinity"))
    ensures !Formattable(Some("-Infinity"))
    ensures !Formattable(Some("NaN"))
  {
    var inf, minusInf, nan := "Infinity", "-Infinity", "NaN";
    assert inf[0] == 'I' && '.' !in inf;
    assert minusInf[0] == '-' && minusInf[1] == 'I' && '.' !in minusInf;
    assert nan[0] == 'N' && '.' !in nan;
    UnformattableWithoutDot(inf);
    UnformattableWithoutDot(minusInf);
    UnformattableWithoutDot(nan);
  }

  /**
   * Proof helper: a text without "." whose first character, or first after
   * a sign, is not a digit cannot be formatted.
   */
  lemma UnformattableWithoutDot(text: string)
    requires '.' !in text && |text| >= 2 && !IsDigit(text[0])
    requires text[0] == '-' || text[0] == '+' ==> !IsDigit(text[1])
    ensures !Formattable(Some(text))
  {
    SplitSingle(text, '.');
    assert text[1..][0] == text[1];
  }

  /** Corrected: text BigInt cannot read is shown as it is, instead of throwing. */
  function FormatOperandTotal(operand: Option<string>): (r: string)
    ensures Formattable(operand) ==> r == FormatOperand(operand)
    ensures !Formattable(operand) ==> operand.Some? && r == operand.value
  {
    if Formattable(operand) then FormatOperand(operand) else operand.value
  }

  /** Corrected: "Infinity" and "NaN" are shown verbatim. */
  lemma NonNumericResultsShownVerbatim()
    ensures FormatOperandTotal(Some("Infinity")) == "Infinity"
    ensures FormatOperandTotal(Some("NaN")) == "NaN"
  {
    NonNumericResultsUnformattable();
  }
}
