/** A workspace's config name used as a selector. */
module NameLaws {
  import opened Text
  import N = Names
  import S = Selector

  lemma TrimOfDecimal(n: nat)
    ensures Trim(Decimal(n)) == Decimal(n)
  {
    var d := Decimal(n);
    assert Digit(d[0]) && Digit(d[|d| - 1]);
    NotBlankFirst(d);
  }

  /** The selector sees the workspace of a table entry. */
  predicate Shows(u: S.Workspace, e: N.Entry) {
    u.id == e.id && u.name == e.name && u.special == e.special
  }

  lemma SpecialSelector(mons: S.Monitors, active: Option<int>, u: S.Workspace, text: string, s: string)
    requires Trim(text) == s && "special" <= s
    ensures S.Match(u, mons, active, text) == S.Decide(u.name == s)
  {
    NotTheOthers(s, 's');
  }

  /** A text that begins with a letter is no number, and no name: but for its letter. */
  lemma NotTheOthers(s: string, c: char)
    requires s != [] && s[0] == c && (c == 's' || c == 'n')
    ensures !IsNumber(s) && (c == 's' ==> !("name:" <= s)) && (c == 'n' ==> !("special" <= s))
  {
    assert !Digit(s[0]);
  }

  lemma NamedSelector(mons: S.Monitors, active: Option<int>, u: S.Workspace, text: string, s: string)
    requires Trim(text) == s && "name:" <= s
    ensures S.Match(u, mons, active, text) == S.Decide(u.name == s[5..])
  {
    NotTheOthers(s, 'n');
  }

  lemma NumberSelector(mons: S.Monitors, active: Option<int>, u: S.Workspace, text: string)
    requires Trim(text) == text && AllDigits(text) && Value(text) > 0
    ensures S.Match(u, mons, active, text) ==
            if Value(text) > N.INT_MAX then S.Throws else S.Decide(u.id == Value(text))
  {
    assert Digit(text[0]);
  }

  /** A numeric selector, with any blanks around it, is matched by exactly the workspace it resolves to:
      n itself, but 1 for 0; -k counts from the active workspace, down to 1. */
  lemma NumericSelector(mons: S.Monitors, active: Option<int>, u: S.Workspace, n: nat)
    ensures S.Match(u, mons, active, Decimal(n)) ==
            if n > 2147483647 then S.Throws else S.Decide(u.id == if n == 0 then 1 else n)
    ensures S.Match(u, mons, None, "-" + Decimal(n)) == S.Fails
    ensures active.Some? ==>
              S.Match(u, mons, active, "-" + Decimal(n)) ==
              S.Decide(u.id == if active.value - n >= 1 then active.value - n else 1)
  {
    hide S.Eval, Decimal, Trim;
    NegativeText(n);
    DecimalRoundTrip(n);
    DecimalIsNumber(n);
    TrimOfDecimal(n);
    var d, m := Decimal(n), "-" + Decimal(n);
    assert Digit(d[0]);
    assert S.Match(u, mons, active, d) == S.MatchNumber(u, active, d);
    assert S.Match(u, mons, active, m) == S.MatchNumber(u, active, m);
    assert S.Match(u, mons, None, m) == S.MatchNumber(u, None, m);
  }

  lemma NegativeText(n: nat)
    ensures var m := "-" + Decimal(n);
            Trim(m) == m && m[0] == '-' && IsNumber(m) && Signed(m) == 0 - n
  {
    hide Decimal;
    var d, m := Decimal(n), "-" + Decimal(n);
    DecimalRoundTrip(n);
    assert m[0] == '-' && m[1..] == d;
    assert Digit(d[|d| - 1]) && m[|m| - 1] == d[|d| - 1];
    NotBlankFirst(m);
  }

  /** Without anything to match, every workspace matches. */
  lemma BlankSelector(mons: S.Monitors, active: Option<int>, u: S.Workspace, b: string)
    requires AllBlank(b)
    ensures S.Match(u, mons, active, b) == S.Matches
  {
    BlanksVanish(b);
  }

  lemma {:induction false} BlanksVanish(b: string)
    requires AllBlank(b)
    ensures Trim(b) == []
  {
    if b != [] {
      BlanksVanish(b[1..]);
    }
  }

  /** The verdict of every workspace u on the config name of w. */
  lemma ConfigNameVerdict(mons: S.Monitors, active: Option<int>, w: N.Entry, u: S.Workspace)
    requires w.special ==> "special:" <= w.name
    ensures S.Match(u, mons, active, N.ConfigName(w)) ==
            if w.special || w.id <= 0 then S.Decide(u.name == TrimRight(w.name))
            else if w.id > N.INT_MAX then S.Throws
            else S.Decide(u.id == w.id)
  {
    if w.special {
      var rest := w.name[8..];
      assert w.name == "special:" + rest;
      TrimBehind("special:", rest);
      TrimRightBehind("special:", rest);
      SpecialSelector(mons, active, u, w.name, "special:" + TrimRight(rest));
    } else if w.id > 0 {
      TrimOfDecimal(w.id);
      DecimalRoundTrip(w.id);
      NumberSelector(mons, active, u, Decimal(w.id));
    } else {
      TrimBehind("name:", w.name);
      NamedSelector(mons, active, u, "name:" + w.name, "name:" + TrimRight(w.name));
    }
  }

  /** When that verdict singles out w. */
  ghost predicate Faithful(w: N.Entry) {
    if w.special || w.id <= 0 then NoTrailingBlank(w.name) else w.id <= N.INT_MAX
  }

  lemma FaithfulName(w: N.Entry)
    ensures NoTrailingBlank(w.name) <==> TrimRight(w.name) == w.name
  {
  }

  /** Used as a selector, a config name picks out its workspace and no other -- for numbered
      workspaces when the id fits an int, for the others exactly when the name has no trailing
      blank. */
  lemma ConfigNameSelects(mons: S.Monitors, active: Option<int>, t: seq<N.Entry>, w: N.Entry)
    requires N.Table(t) && w in t && !w.inert
    ensures Faithful(w) ==> forall e, u | e in t && !e.inert && Shows(u, e) ::
              S.Match(u, mons, active, N.ConfigName(w)) == S.Decide(e == w)
    ensures !Faithful(w) ==> forall u | Shows(u, w) :: S.Match(u, mons, active, N.ConfigName(w)) != S.Matches
  {
    FaithfulName(w);
    forall e, u | e in t && !e.inert && Shows(u, e)
      ensures Faithful(w) ==> S.Match(u, mons, active, N.ConfigName(w)) == S.Decide(e == w)
    {
      ConfigNameVerdict(mons, active, w, u);
      SameEntry(t, e, w);
    }
    forall u | Shows(u, w)
      ensures !Faithful(w) ==> S.Match(u, mons, active, N.ConfigName(w)) != S.Matches
    {
      ConfigNameVerdict(mons, active, w, u);
    }
  }

  lemma SameEntry(t: seq<N.Entry>, e: N.Entry, w: N.Entry)
    requires N.Table(t) && e in t && w in t && !e.inert && !w.inert
    ensures e == w <==> e.id == w.id
    ensures e == w <==> e.name == w.name
  {
    var i :| 0 <= i < |t| && t[i] == e;
    var j :| 0 <= j < |t| && t[j] == w;
  }
}
