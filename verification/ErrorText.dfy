/** The error overlay's text: the first lines of a message and a count of the others. */
module ErrorText {
  import opened Text

  function Newlines(s: string): nat {
    if s == [] then 0 else Newlines(s[..|s| - 1]) + if s[|s| - 1] == '\n' then 1 else 0
  }

  /** A text has one line more than it has newlines. */
  function LineCount(s: string): nat {
    1 + Newlines(s)
  }

  lemma {:induction false} NewlinesAdd(a: string, b: string)
    ensures Newlines(a + b) == Newlines(a) + Newlines(b)
    decreases |b|
  {
    if b == [] {
      assert a + b == a;
    } else {
      assert (a + b)[..|a + b| - 1] == a + b[..|b| - 1];
      NewlinesAdd(a, b[..|b| - 1]);
    }
  }

  lemma {:induction false} NoNewlines(s: string)
    requires '\n' !in s
    ensures Newlines(s) == 0
  {
    if s != [] {
      NoNewlines(s[..|s| - 1]);
    }
  }

  /** text.find('\n', from); |text| for npos.  Up to there the text has no further newline. */
  function FindLine(text: string, from: nat): (i: nat)
    requires from <= |text|
    ensures from <= i <= |text|
    ensures i < |text| ==> text[i] == '\n'
  {
    from + Find(text[from..], '\n')
  }

  lemma NewlinesUpTo(text: string, from: nat)
    requires from <= |text|
    ensures Newlines(text[..FindLine(text, from)]) == Newlines(text[..from])
    ensures FindLine(text, from) < |text| ==> Newlines(text[..FindLine(text, from) + 1]) == Newlines(text[..from]) + 1
  {
    var i := FindLine(text, from);
    var line := text[from..i];
    assert forall j :: 0 <= j < |line| ==> line[j] == text[from..][j];
    NoNewlines(line);
    NewlinesAdd(text[..from], line);
    assert text[..i] == text[..from] + line;
    if i < |text| {
      assert text[..i + 1][..i] == text[..i];
    }
  }

  /** r is the first n lines of the text: a beginning of it that ends at a line's end and has n
      lines, or all of it if it has no more. */
  ghost predicate FirstLines(text: string, n: nat, r: string) {
    && |r| <= |text| && r == text[..|r|]
    && (r == text || text[|r|] == '\n')
    && LineCount(r) == if n < LineCount(text) then n else LineCount(text)
  }

  /** There is only one such r. */
  lemma FirstLinesUnique(text: string, n: nat, r: string, q: string)
    requires FirstLines(text, n, r) && FirstLines(text, n, q)
    ensures r == q
  {
    if |r| < |q| {
      Shorter(text, r, q);
    } else if |q| < |r| {
      Shorter(text, q, r);
    }
  }

  lemma Shorter(text: string, r: string, q: string)
    requires |r| < |q| <= |text| && r == text[..|r|] && q == text[..|q|] && text[|r|] == '\n'
    ensures Newlines(r) < Newlines(q)
  {
    var head, tail := text[..|r| + 1], text[|r| + 1..|q|];
    NewlinesAdd(head, tail);
    assert head[..|r|] == r && q == head + tail;
  }

  method TakeFirstNLines(text: string, lines: nat) returns (r: string)
    ensures lines == 0 ==> r == ""
    ensures lines > 0 ==> FirstLines(text, lines, r)
  {
    if lines <= 0 {
      return "";
    }
    var begin: nat, count: nat := 0, 1;
    while count < lines
      invariant begin <= |text| && 1 <= count <= lines
      invariant Newlines(text[..begin]) == count - 1
    {
      var pos := FindLine(text, begin);
      NewlinesUpTo(text, begin);
      if pos == |text| {
        assert text[..pos] == text;
        return text;
      }
      begin := pos + 1;
      count := count + 1;
    }
    var cut := FindLine(text, begin);
    NewlinesUpTo(text, begin);
    assert text[..|text|] == text;
    NewlinesAdd(text[..cut], text[cut..]);
    assert text[..cut] + text[cut..] == text;
    r := if cut == |text| then text else text[..cut];
  }

  method CountLines(text: string) returns (n: nat)
    ensures n == LineCount(text)
  {
    n := 1;
    for i := 0 to |text|
      invariant n == LineCount(text[..i])
    {
      assert text[..i + 1][..i] == text[..i];
      if text[i] == '\n' {
        n := n + 1;
      }
    }
    assert text[..|text|] == text;
  }

  /** The lines shown under a limit. */
  ghost predicate Shown(text: string, limit: nat, first: string) {
    if limit == 0 then first == "" else FirstLines(text, limit, first)
  }

  /** r is the text `first`, on lines of its own unless it is empty, and behind it the number k. */
  predicate Displays(first: string, k: nat, r: string) {
    r == (if first == "" then "" else first + "\n") + "(" + Decimal(k) + " more...)"
  }

  /** r shows the first `limit` lines of the text and the number of all the others. */
  ghost predicate Shortened(text: string, limit: nat, r: string) {
    exists first, k: nat :: Shown(text, limit, first) && Displays(first, k, r) && limit + k == LineCount(text)
  }

  /** The visible text: the whole message if it fits, otherwise the lines that do. */
  method BuildVisibleText(text: string, lineLimit: nat) returns (r: string)
    ensures if lineLimit >= LineCount(text) then r == text else Shortened(text, lineLimit, r)
  {
    var lineCount := CountLines(text);
    var visible := if lineLimit < lineCount then lineLimit else lineCount;
    r := TakeFirstNLines(text, visible);
    if visible < lineCount {
      ghost var first := r;
      assert Shown(text, lineLimit, first);
      if r != "" {
        r := r + "\n";
      }
      r := r + ("(" + Decimal(lineCount - visible) + " more...)");
      assert Displays(first, lineCount - visible, r);
    } else {
      assert text[..|text|] == text;
      FirstLinesUnique(text, visible, r, text);
    }
  }

  /** What stands behind the last newline. */
  function LastLine(s: string): (l: string)
    ensures '\n' !in l && |l| <= |s| && l == s[|s| - |l|..]
    ensures |l| < |s| ==> s[|s| - |l| - 1] == '\n'
  {
    if s == [] || s[|s| - 1] == '\n' then [] else LastLine(s[..|s| - 1]) + [s[|s| - 1]]
  }

  lemma {:induction false} LastLineIs(head: string, l: string)
    requires '\n' !in l && (head == "" || head[|head| - 1] == '\n')
    ensures LastLine(head + l) == l
  {
    assert (head + l)[|head|..] == l;
  }

  /** The last line of a shortened text is "(k more...)", where k and the limit add up to the lines of
      the message.  Above it stand as many lines as the limit says -- except when one line fits and it
      is empty: then it is not displayed at all. */
  lemma DisplayAddsUp(text: string, limit: nat, r: string)
    requires limit < LineCount(text) && Shortened(text, limit, r)
    ensures exists d :: AllDigits(d) && LastLine(r) == "(" + d + " more...)" && limit + Value(d) == LineCount(text)
    ensures LineCount(r) == limit + 1 <==> !(limit == 1 && text[0] == '\n')
  {
    var first, k: nat :| Shown(text, limit, first) && Displays(first, k, r) && limit + k == LineCount(text);
    DisplayLines(first, k, r);
    DecimalRoundTrip(k);
    if limit == 1 {
      OneLine(text, first);
    }
  }

  lemma DisplayLines(first: string, k: nat, r: string)
    requires Displays(first, k, r)
    ensures LastLine(r) == "(" + Decimal(k) + " more...)"
    ensures LineCount(r) == if first == "" then 1 else LineCount(first) + 1
  {
    var head, more := if first == "" then "" else first + "\n", "(" + Decimal(k) + " more...)";
    assert r == head + more;
    NoNewlineIn(k);
    NoNewlines(more);
    LastLineIs(head, more);
    NewlinesAdd(head, more);
    if first != "" {
      NewlinesAdd(first, "\n");
      assert Newlines("\n") == 1;
    }
  }

  /** The first of several lines is empty exactly when the text begins with a newline. */
  lemma OneLine(text: string, first: string)
    requires FirstLines(text, 1, first) && LineCount(text) > 1
    ensures text != "" && (first == "" <==> text[0] == '\n')
  {
    if first != "" && text[0] == '\n' {
      assert first == [first[0]] + first[1..];
      NewlinesAdd([first[0]], first[1..]);
    }
  }

  lemma NoNewlineIn(hidden: nat)
    ensures '\n' !in "(" + Decimal(hidden) + " more...)"
  {
    var d := Decimal(hidden);
    assert forall i :: 0 <= i < |d| ==> Digit(d[i]);
    assert '\n' !in "(" && '\n' !in " more...)";
  }
}
