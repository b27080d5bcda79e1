/**
 * The pieces of Ruby's core library that the vote ranking relies on:
 * String#to_i (decimal), Integer#to_s for non-negative integers,
 * Array#join with a separator, and the inverse view of a joined text
 * as the pieces between its separators.
 */
module RubyText {

  /** Ruby's whitespace for number parsing: space, \t, \n, \v, \f, \r. */
  predicate IsSpace(c: char) {
    c == ' ' || c == '\t' || c == '\n' || c == '\U{B}' || c == '\U{C}' || c == '\r'
  }

  predicate IsDigit(c: char) {
    '0' <= c <= '9'
  }

  function DigitValue(c: char): (d: nat)
    requires IsDigit(c)
    ensures d < 10
  {
    (c - '0') as nat
  }

  function DigitChar(d: nat): (c: char)
    requires d < 10
    ensures IsDigit(c) && DigitValue(c) == d
  {
    ('0' as int + d) as char
  }

  predicate AllDigits(s: string) {
    forall i :: 0 <= i < |s| ==> IsDigit(s[i])
  }

  /** The string with its leading whitespace removed. */
  function DropSpaces(s: string): string
  {
    if s != [] && IsSpace(s[0]) then DropSpaces(s[1..]) else s
  }

  /**
   * The digit values of the numeral at the front of `s`: a run of decimal
   * digits in which a single '_' may stand between two digits.  Anything
   * else ends the numeral; a string not starting with a digit has none.
   */
  function Numeral(s: string): seq<nat>
  {
    if s == [] || !IsDigit(s[0]) then []
    else if |s| >= 3 && s[1] == '_' && IsDigit(s[2]) then [DigitValue(s[0])] + Numeral(s[2..])
    else [DigitValue(s[0])] + Numeral(s[1..])
  }

  /** The value of a sequence of decimal digits, most significant first. */
  function Value(ds: seq<nat>): (v: nat)
  {
    if ds == [] then 0 else Value(ds[..|ds| - 1]) * 10 + ds[|ds| - 1]
  }

  /** Base 10 parsing skips a "0d" or "0D" radix prefix in front of the numeral. */
  function Unprefixed(t: string): string
  {
    if |t| >= 2 && t[0] == '0' && (t[1] == 'd' || t[1] == 'D') then t[2..] else t
  }

  /**
   * String#to_i: leading whitespace is skipped, then an optional '-' or '+'
   * sign, an optional "0d" prefix, then the numeral; a string with no
   * numeral there converts to 0.
   */
  function ToI(s: string): (r: int)
    ensures r < 0 ==> DropSpaces(s) != [] && DropSpaces(s)[0] == '-'
  {
    var t := DropSpaces(s);
    if t != [] && t[0] == '-' then -(Value(Numeral(Unprefixed(t[1..]))) as int)
    else if t != [] && t[0] == '+' then Value(Numeral(Unprefixed(t[1..])))
    else Value(Numeral(Unprefixed(t)))
  }

  /** A string with neither a digit nor a sign after its leading whitespace converts to 0. */
  lemma ToIWithoutNumeral(s: string)
    requires var t := DropSpaces(s); t == [] || !(IsDigit(t[0]) || t[0] == '-' || t[0] == '+')
    ensures ToI(s) == 0
  {
    var t := DropSpaces(s);
    assert Unprefixed(t) == t;
  }

  /** Integer#to_s for a non-negative integer: its decimal digits, no leading zero. */
  function NatToString(n: nat): (s: string)
    ensures |s| > 0 && AllDigits(s)
    ensures |s| > 1 || n > 0 ==> s[0] != '0'
  {
    if n < 10 then [DigitChar(n)] else NatToString(n / 10) + [DigitChar(n % 10)]
  }

  /** The digit values of a run of digits, one per digit; it is the whole run read as a numeral. */
  function DigitValues(s: string): (ds: seq<nat>)
    requires AllDigits(s)
    ensures |ds| == |s|
    ensures forall i :: 0 <= i < |s| ==> ds[i] == DigitValue(s[i])
    ensures Numeral(s) == ds
  {
    if s == [] then [] else [DigitValue(s[0])] + DigitValues(s[1..])
  }

  /**
   * A run of digits followed by something that is neither a digit nor '_'
   * is read in full as the numeral.
   */
  lemma {:induction false} NumeralOfDigits(t: string, u: string)
    requires AllDigits(t)
    requires u == [] || (!IsDigit(u[0]) && u[0] != '_')
    ensures Numeral(t + u) == DigitValues(t)
    decreases |t|
  {
    if t == [] {
      assert t + u == u;
    } else {
      var s := t + u;
      assert s[0] == t[0];
      assert s[1..] == t[1..] + u;
      if |t| == 1 {
        assert t[1..] == [];
        assert u == [] || s[1] == u[0];
        NumeralOfDigits(t[1..], u);
      } else {
        assert s[1] == t[1];
        NumeralOfDigits(t[1..], u);
      }
      assert DigitValues(t) == [DigitValue(t[0])] + DigitValues(t[1..]);
    }
  }

  lemma {:induction false} ValueOfNatToString(n: nat)
    ensures Value(DigitValues(NatToString(n))) == n
  {
    var s := NatToString(n);
    if n >= 10 {
      var p := NatToString(n / 10);
      ValueOfNatToString(n / 10);
      assert s == p + [DigitChar(n % 10)];
      assert DigitValues(s)[..|s| - 1] == DigitValues(p);
    }
  }

  /** Integer#to_s followed by String#to_i gives back the integer. */
  lemma ToIInvertsToS(n: nat)
    ensures ToI(NatToString(n)) == n
  {
    ToIReadsLeadingNumber(n, []);
    assert NatToString(n) + [] == NatToString(n);
  }

  /**
   * String#to_i of a text that starts with the decimal form of `n` and
   * continues with a character that is neither a digit nor '_' is `n`,
   * unless it is "0" followed by a 'd' or 'D', which reads as a radix prefix.
   */
  lemma ToIReadsLeadingNumber(n: nat, u: string)
    requires u == [] || (!IsDigit(u[0]) && u[0] != '_')
    requires n > 0 || u == [] || (u[0] != 'd' && u[0] != 'D')
    ensures ToI(NatToString(n) + u) == n
  {
    var d := NatToString(n);
    var s := d + u;
    assert s[0] == d[0] && IsDigit(s[0]);
    assert !IsSpace(s[0]);
    assert DropSpaces(s) == s;
    assert Unprefixed(s) == s by {
      if |s| >= 2 && s[0] == '0' {
        assert |d| == 1 && s[1] == u[0];
      }
    }
    assert ToI(s) == Value(Numeral(s));
    NumeralOfDigits(d, u);
    ValueOfNatToString(n);
  }

  /** String#to_i reads past a "0d" radix prefix: "0d" then the decimal form of `n` is `n`. */
  lemma ToISkipsRadixPrefix(n: nat, u: string)
    requires u == [] || (!IsDigit(u[0]) && u[0] != '_')
    ensures ToI("0d" + NatToString(n) + u) == n
  {
    var d := NatToString(n);
    var s := "0d" + d + u;
    assert DropSpaces(s) == s;
    assert Unprefixed(s) == d + u;
    assert ToI(s) == Value(Numeral(d + u));
    NumeralOfDigits(d, u);
    ValueOfNatToString(n);
  }

  /**
   * Array#join("\n"): the elements with exactly one newline between
   * neighbours.  The join is empty exactly when there is no element or a
   * single empty one.
   */
  function JoinLines(lines: seq<string>): (s: string)
    ensures s == "" <==> lines == [] || lines == [""]
  {
    if lines == [] then ""
    else if |lines| == 1 then lines[0]
    else lines[0] + "\n" + JoinLines(lines[1..])
  }

  /**
   * The pieces of `s` between its newlines, empty pieces included: a text
   * with k newlines has k + 1 pieces.
   */
  function Pieces(s: string): (ps: seq<string>)
    ensures |ps| >= 1
  {
    if s == [] then [""]
    else
      var rest := Pieces(s[1..]);
      if s[0] == '\n' then [""] + rest else [[s[0]] + rest[0]] + rest[1..]
  }

  lemma {:induction false} PiecesWithoutNewline(a: string)
    requires '\n' !in a
    ensures Pieces(a) == [a]
  {
    if a != [] {
      PiecesWithoutNewline(a[1..]);
      assert [a[0]] + a[1..] == a;
    }
  }

  lemma {:induction false} PiecesAfterLine(a: string, b: string)
    requires '\n' !in a
    ensures Pieces(a + "\n" + b) == [a] + Pieces(b)
  {
    var s := a + "\n" + b;
    if a == [] {
      assert s[1..] == b;
    } else {
      assert s[1..] == a[1..] + "\n" + b;
      PiecesAfterLine(a[1..], b);
      assert [a[0]] + a[1..] == a;
    }
  }

  /** Joining lines that hold no newline can be undone by cutting at the newlines. */
  lemma {:induction false} PiecesOfJoinLines(lines: seq<string>)
    requires |lines| > 0
    requires forall i :: 0 <= i < |lines| ==> '\n' !in lines[i]
    ensures Pieces(JoinLines(lines)) == lines
  {
    if |lines| == 1 {
      PiecesWithoutNewline(lines[0]);
    } else {
      PiecesOfJoinLines(lines[1..]);
      PiecesAfterLine(lines[0], JoinLines(lines[1..]));
      assert [lines[0]] + lines[1..] == lines;
    }
  }

  /** A join of lines ends with its last line. */
  lemma {:induction false} JoinLinesEndsWithLast(lines: seq<string>)
    requires |lines| > 0
    ensures var s, last := JoinLines(lines), lines[|lines| - 1];
      |last| <= |s| && s[|s| - |last|..] == last
  {
    if |lines| > 1 {
      JoinLinesEndsWithLast(lines[1..]);
      var s, t := JoinLines(lines), JoinLines(lines[1..]);
      assert s == lines[0] + "\n" + t;
      assert s[|s| - |t|..] == t;
    }
  }
}
