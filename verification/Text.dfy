/** The small string vocabulary the text layers share: blanks, searching, decimal numbers. */
module Text {

  datatype Option<+T> = None | Some(value: T)

  // ----- blanks ------------------------------------------------------------------------------

  /** isspace, and the characters trim() strips. */
  predicate Blank(c: char) {
    c == ' ' || c == '\t' || c == '\n' || c == '\r' || c == '\U{000B}' || c == '\U{000C}'
  }

  predicate AllBlank(s: string) {
    forall i :: 0 <= i < |s| ==> Blank(s[i])
  }

  function TrimLeft(s: string): (t: string)
    ensures |t| <= |s|
    ensures t != [] ==> !Blank(t[0])
  {
    if s != [] && Blank(s[0]) then TrimLeft(s[1..]) else s
  }

  function TrimRight(s: string): (t: string)
    ensures |t| <= |s|
    ensures t == s[..|t|] && forall i :: |t| <= i < |s| ==> Blank(s[i])
    ensures t != [] ==> !Blank(t[|t| - 1])
  {
    if s != [] && Blank(s[|s| - 1]) then TrimRight(s[..|s| - 1]) else s
  }

  function Trim(s: string): (t: string)
    ensures |t| <= |s|
  {
    TrimRight(TrimLeft(s))
  }

  /** Blanks are stripped off the end only up to the last other character. */
  lemma {:induction false} TrimRightBehind(p: string, s: string)
    requires p != [] && !Blank(p[|p| - 1])
    ensures TrimRight(p + s) == p + TrimRight(s)
    decreases |s|
  {
    if s == [] {
      assert p + s == p;
    } else if Blank(s[|s| - 1]) {
      assert (p + s)[..|p + s| - 1] == p + s[..|s| - 1];
      TrimRightBehind(p, s[..|s| - 1]);
    }
  }

  lemma TrimBehind(p: string, s: string)
    requires p != [] && !Blank(p[0]) && !Blank(p[|p| - 1])
    ensures Trim(p + s) == p + TrimRight(s)
  {
    NotBlankFirst(p + s);
    TrimRightBehind(p, s);
  }

  /** Trimming takes the blanks off both ends and nothing else. */
  lemma TrimIs(b: string, s: string, e: string)
    requires AllBlank(b) && AllBlank(e) && s != [] && !Blank(s[0]) && !Blank(s[|s| - 1])
    ensures Trim(b + s + e) == s
  {
    LeftBlanksOff(b, s + e);
    assert b + s + e == b + (s + e);
    TrimRightBehind(s, e);
    RightBlanksOff(e);
  }

  lemma {:induction false} LeftBlanksOff(b: string, s: string)
    requires AllBlank(b) && s != [] && !Blank(s[0])
    ensures TrimLeft(b + s) == s
  {
    if b == [] {
      assert b + s == s;
    } else {
      assert (b + s)[1..] == b[1..] + s;
      LeftBlanksOff(b[1..], s);
    }
  }

  lemma {:induction false} RightBlanksOff(e: string)
    requires AllBlank(e)
    ensures TrimRight(e) == []
  {
    if e != [] {
      RightBlanksOff(e[..|e| - 1]);
    }
  }

  predicate NoTrailingBlank(s: string) {
    s == [] || !Blank(s[|s| - 1])
  }

  // ----- searching -----------------------------------------------------------------------------

  /** Index of the first c, or |s| when there is none. */
  function Find(s: string, c: char): (i: nat)
    ensures i <= |s|
    ensures i < |s| ==> s[i] == c
    ensures forall j :: 0 <= j < i ==> s[j] != c
  {
    if s == [] || s[0] == c then 0 else 1 + Find(s[1..], c)
  }

  /** Nothing before the first c of a + [c] + b hides it. */
  lemma FindFirst(a: string, c: char, b: string)
    requires c !in a
    ensures Find(a + [c] + b, c) == |a|
  {
    assert (a + [c] + b)[|a|] == c;
  }

  predicate EndsWith(s: string, t: string) {
    |t| <= |s| && s[|s| - |t|..] == t
  }

  // ----- decimal numbers -----------------------------------------------------------------------

  predicate Digit(c: char) {
    '0' <= c <= '9'
  }

  predicate AllDigits(s: string) {
    s != [] && forall i :: 0 <= i < |s| ==> Digit(s[i])
  }

  /** isNumber for integers: decimal digits, with an optional leading minus. */
  predicate IsNumber(s: string) {
    AllDigits(s) || (s != [] && s[0] == '-' && AllDigits(s[1..]))
  }

  function Value(s: string): nat
    requires forall i :: 0 <= i < |s| ==> Digit(s[i])
  {
    if s == [] then 0
    else
      assert Digit(s[|s| - 1]);
      10 * Value(s[..|s| - 1]) + (s[|s| - 1] as int - '0' as int)
  }

  /** The number a text accepted by isNumber denotes. */
  function Signed(s: string): int
    requires IsNumber(s)
  {
    if s[0] == '-' then 0 - Value(s[1..]) else Value(s)
  }

  /** std::to_string of a non-negative number. */
  function Decimal(n: nat): (s: string)
    ensures AllDigits(s)
  {
    var last := ['0' + (n % 10) as char];
    if n < 10 then last else Decimal(n / 10) + last
  }

  lemma {:induction false} DecimalRoundTrip(n: nat)
    ensures Value(Decimal(n)) == n
  {
    var s := Decimal(n);
    if n < 10 {
      assert s[..0] == [];
    } else {
      DecimalRoundTrip(n / 10);
      assert s[..|s| - 1] == Decimal(n / 10);
    }
  }

  lemma DecimalIsNumber(n: nat)
    ensures IsNumber(Decimal(n)) && Signed(Decimal(n)) == n
    ensures '-' !in Decimal(n) && ']' !in Decimal(n)
  {
    DecimalRoundTrip(n);
    assert Digit(Decimal(n)[0]);
  }

  /** std::stoi / std::stoll: blanks, an optional sign, then as many digits as there are; nothing
      when there is no digit.  Range checks are the caller's. */
  function LeadingNumber(s: string): Option<int> {
    var t := TrimLeft(s);
    var negative := t != [] && t[0] == '-';
    var u := if t != [] && (t[0] == '-' || t[0] == '+') then t[1..] else t;
    var n := DigitRun(u);
    if n == 0 then None else Some(if negative then 0 - Value(u[..n]) else Value(u[..n]))
  }

  function DigitRun(s: string): (n: nat)
    ensures n <= |s|
    ensures forall i :: 0 <= i < n ==> Digit(s[i])
    ensures n < |s| ==> !Digit(s[n])
  {
    if s == [] || !Digit(s[0]) then 0 else 1 + DigitRun(s[1..])
  }

  lemma LeadingOfDigits(s: string)
    requires AllDigits(s)
    ensures LeadingNumber(s) == Some(Value(s) as int)
    ensures LeadingNumber("-" + s) == Some(0 - Value(s))
  {
    WholeRun(s);
    assert Digit(s[0]);
    NotBlankFirst(s);
    var m := "-" + s;
    NotBlankFirst(m);
    assert m[1..] == s;
  }

  lemma WholeRun(s: string)
    requires AllDigits(s)
    ensures DigitRun(s) == |s| && s[..DigitRun(s)] == s
  {
  }

  lemma NotBlankFirst(s: string)
    requires s != [] && !Blank(s[0])
    ensures TrimLeft(s) == s
  {
  }

  // ----- joining -------------------------------------------------------------------------------

  function Join(parts: seq<string>, sep: string): string {
    if parts == [] then ""
    else if |parts| == 1 then parts[0]
    else parts[0] + sep + Join(parts[1..], sep)
  }

  /** Splitting at every c: at least one part, none containing it. */
  function SplitOn(s: string, c: char): (ps: seq<string>)
    ensures ps != [] && forall k :: 0 <= k < |ps| ==> c !in ps[k]
    decreases |s|
  {
    var i := Find(s, c);
    if i == |s| then [s] else [s[..i]] + SplitOn(s[i + 1..], c)
  }

  lemma {:induction false} JoinUndoesSplit(s: string, c: char)
    ensures Join(SplitOn(s, c), [c]) == s
    decreases |s|
  {
    var i := Find(s, c);
    if i < |s| {
      JoinUndoesSplit(s[i + 1..], c);
      assert SplitOn(s, c)[1..] == SplitOn(s[i + 1..], c);
      assert s == s[..i] + [c] + s[i + 1..];
    }
  }

  lemma {:induction false} JoinAppend(a: seq<string>, b: seq<string>, sep: string)
    requires a != [] && b != []
    ensures Join(a + b, sep) == Join(a, sep) + sep + Join(b, sep)
    decreases |a|
  {
    assert (a + b)[1..] == a[1..] + b;
    if |a| > 1 {
      JoinAppend(a[1..], b, sep);
      assert a[0] + sep + (Join(a[1..], sep) + sep + Join(b, sep)) == a[0] + sep + Join(a[1..], sep) + sep + Join(b, sep);
    }
  }

  lemma {:induction false} JoinSnoc(rs: seq<string>, r: string, sep: string)
    requires rs != []
    ensures Join(rs + [r], sep) == Join(rs, sep) + sep + r
  {
    if |rs| == 1 {
      assert (rs + [r])[1..] == [r];
    } else {
      assert (rs + [r])[1..] == rs[1..] + [r];
      JoinSnoc(rs[1..], r, sep);
    }
  }
}
