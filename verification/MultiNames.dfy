/** The name[index] format by which a multi-device wrapper labels the arguments of its devices. */
module MultiNames {

  predicate IsDigit(c: char) {
    '0' <= c <= '9'
  }

  predicate AllDigits(s: string) {
    forall i :: 0 <= i < |s| ==> IsDigit(s[i])
  }

  function Digit(d: nat): char
    requires d < 10
  {
    '0' + d as char
  }

  /** The decimal text of a number. */
  function ToDecimal(n: nat): string {
    if n < 10 then [Digit(n)] else ToDecimal(n / 10) + [Digit(n % 10)]
  }

  /** The number a text of digits stands for. */
  function FromDecimal(s: string): nat
    requires AllDigits(s)
  {
    if s == "" then 0 else FromDecimal(s[..|s| - 1]) * 10 + (s[|s| - 1] as int - '0' as int)
  }

  /** Printing and parsing a number are inverse. */
  lemma {:induction false} DecimalRoundTrip(n: nat)
    ensures ToDecimal(n) != "" && AllDigits(ToDecimal(n)) && FromDecimal(ToDecimal(n)) == n
  {
    if n >= 10 {
      DecimalRoundTrip(n / 10);
      assert ToDecimal(n)[..|ToDecimal(n)| - 1] == ToDecimal(n / 10);
    } else {
      assert ToDecimal(n)[..0] == "";
    }
  }

  function Power10(n: nat): nat {
    if n == 0 then 1 else 10 * Power10(n - 1)
  }

  /** A leading digit counts for its value times ten to the number of digits behind it. */
  lemma {:induction false} DecimalPlaces(d: nat, s: string)
    requires d < 10 && AllDigits(s)
    ensures FromDecimal([Digit(d)] + s) == d * Power10(|s|) + FromDecimal(s)
  {
    var t := [Digit(d)] + s;
    assert AllDigits(t);
    if s == "" {
      assert t[..0] == "";
    } else {
      DecimalPlaces(d, s[..|s| - 1]);
      assert t[..|t| - 1] == [Digit(d)] + s[..|s| - 1];
    }
  }

  /** Printed numbers have no leading zero. */
  lemma {:induction false} DecimalCanonical(n: nat)
    ensures ToDecimal(n) != "" && (n > 0 ==> ToDecimal(n)[0] != '0') && (n == 0 ==> ToDecimal(n) == "0")
  {
    if n >= 10 {
      DecimalCanonical(n / 10);
    }
  }

  /** The position of the last c in s, or -1. */
  function FindLast(s: string, c: char): int {
    if s == "" then -1
    else if s[|s| - 1] == c then |s| - 1
    else FindLast(s[..|s| - 1], c)
  }

  lemma {:induction false} FindLastFinds(s: string, c: char)
    ensures -1 <= FindLast(s, c) < |s|
    ensures FindLast(s, c) >= 0 ==> s[FindLast(s, c)] == c
    ensures forall i :: FindLast(s, c) < i < |s| ==> s[i] != c
  {
    if s != "" && s[|s| - 1] != c {
      FindLastFinds(s[..|s| - 1], c);
    }
  }

  lemma FindLastAt(s: string, c: char, at: nat)
    requires at < |s| && s[at] == c && forall i :: at < i < |s| ==> s[i] != c
    ensures FindLast(s, c) == at
  {
    FindLastFinds(s, c);
  }

  function ToIndexedName(name: string, index: nat): string {
    name + "[" + ToDecimal(index) + "]"
  }

  predicate IsIndexedName(s: string) {
    var open, close := FindLast(s, '['), FindLast(s, ']');
    0 <= open < close < |s| && AllDigits(s[open + 1..close])
  }

  datatype Split = Split(name: string, index: nat) | NotIndexed | NoNumber | OutOfRange

  /** splitIndexedName; ulongMax is the largest value of unsigned long, which std::stoul parses into. */
  function SplitIndexedName(s: string, ulongMax: nat): Split {
    if !IsIndexedName(s) then NotIndexed
    else
      var open, close := FindLast(s, '['), FindLast(s, ']');
      var digits := s[open + 1..close];
      if digits == "" then NoNumber
      else if FromDecimal(digits) > ulongMax then OutOfRange
      else Split(s[..open], FromDecimal(digits))
  }

  /** isIndexedName, with its loop over the digits. */
  method CheckIndexedName(s: string) returns (ok: bool)
    ensures ok <==> IsIndexedName(s)
  {
    var open, close := FindLast(s, '['), FindLast(s, ']');
    FindLastFinds(s, '[');
    FindLastFinds(s, ']');
    if open < 0 || close < 0 || close < open {
      return false;
    }
    for i := open + 1 to close
      invariant forall j :: open < j < i ==> IsDigit(s[j])
    {
      if !IsDigit(s[i]) {
        assert s[open + 1..close][i - (open + 1)] == s[i];
        return false;
      }
    }
    return true;
  }

  /** A name, digits in brackets, and a rest free of brackets. */
  predicate Composed(s: string, name: string, digits: string, rest: string) {
    s == name + "[" + digits + "]" + rest && AllDigits(digits) && '[' !in rest && ']' !in rest
  }

  /** What the test accepts, without naming positions. */
  lemma IndexedNameShape(s: string)
    ensures IsIndexedName(s) <==> exists name, digits, rest :: Composed(s, name, digits, rest)
  {
    FindLastFinds(s, '[');
    FindLastFinds(s, ']');
    var open, close := FindLast(s, '['), FindLast(s, ']');
    if IsIndexedName(s) {
      assert Composed(s, s[..open], s[open + 1..close], s[close + 1..]);
    } else if name, digits, rest :| Composed(s, name, digits, rest) {
      BracketsFound(name, digits, rest);
    }
  }

  lemma BracketsFound(name: string, digits: string, rest: string)
    requires AllDigits(digits) && '[' !in rest && ']' !in rest
    ensures var s := name + "[" + digits + "]" + rest;
            && FindLast(s, '[') == |name| && FindLast(s, ']') == |name| + 1 + |digits|
            && s[|name| + 1..|name| + 1 + |digits|] == digits && s[..|name|] == name
            && IsIndexedName(s)
  {
    var s := name + "[" + digits + "]" + rest;
    var close := |name| + 1 + |digits|;
    forall i | |name| < i < |s| ensures s[i] != '[' {
      if i < close {
        assert s[i] == digits[i - |name| - 1];
      } else if i > close {
        assert s[i] == rest[i - close - 1];
      }
    }
    forall i | close < i < |s| ensures s[i] != ']' {
      assert s[i] == rest[i - close - 1];
    }
    FindLastAt(s, '[', |name|);
    FindLastAt(s, ']', close);
  }

  /** What the split gives for every string of that shape: the name before the last bracket and the number inside,
      whatever its zeros; and it fails without digits, or for a number that does not fit. */
  lemma SplitShape(s: string, name: string, digits: string, rest: string, ulongMax: nat)
    requires Composed(s, name, digits, rest)
    ensures SplitIndexedName(s, ulongMax) ==
            if digits == "" then NoNumber
            else if FromDecimal(digits) > ulongMax then OutOfRange
            else Split(name, FromDecimal(digits))
  {
    BracketsFound(name, digits, rest);
  }

  /** For every name, brackets included, and every index: the indexed name is recognised, and splitting it gives both
      parts back if and only if the index fits an unsigned long; otherwise the parse is out of range. */
  lemma IndexedNameRoundTrip(name: string, index: nat, ulongMax: nat)
    ensures IsIndexedName(ToIndexedName(name, index))
    ensures SplitIndexedName(ToIndexedName(name, index), ulongMax) ==
            if index <= ulongMax then Split(name, index) else OutOfRange
  {
    DecimalRoundTrip(index);
    BracketsFound(name, ToDecimal(index), "");
    assert ToIndexedName(name, index) == name + "[" + ToDecimal(index) + "]" + "";
  }

  lemma ToIndexedNameInjective(name: string, index: nat, name': string, index': nat)
    requires ToIndexedName(name, index) == ToIndexedName(name', index')
    ensures name == name' && index == index'
  {
    IndexedNameRoundTrip(name, index, index + index');
    IndexedNameRoundTrip(name', index', index + index');
  }
}
