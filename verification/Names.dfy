/** Workspace names: getConfigName, the name branches of getWorkspaceIDNameFromString, and the
    ids handed out for names nobody has yet. */
module Names {
  import opened Text

  const INT_MAX: int := 0x7FFF_FFFF
  const SPECIAL_START: int := -99
  const INVALID: int := -1

  datatype Entry = Entry(id: int, name: string, special: bool, inert: bool)

  /** What a workspace string resolves to. */
  datatype Resolved =
    | Id(id: int)
    | Throws     // std::stoi: out of range
    | Elsewhere  // a branch of its own: empty, prev, next, r, m, e, and non-numeric offsets

  // ----- lookups ---------------------------------------------------------------------------

  /** Index of the first live workspace of that name, |t| for none. */
  function IndexOfName(t: seq<Entry>, name: string): (i: nat)
    ensures i <= |t|
    ensures i < |t| ==> !t[i].inert && t[i].name == name
    ensures forall j :: 0 <= j < i ==> t[j].inert || t[j].name != name
  {
    if t == [] || (!t[0].inert && t[0].name == name) then 0 else 1 + IndexOfName(t[1..], name)
  }

  method QueryName(t: seq<Entry>, name: string) returns (i: nat)
    ensures i == IndexOfName(t, name)
  {
    i := 0;
    while i < |t|
      invariant i <= |t|
      invariant IndexOfName(t, name) == i + IndexOfName(t[i..], name)
    {
      if !t[i].inert && t[i].name == name {
        return;
      }
      i := i + 1;
    }
  }

  /** The highest live special id, but at least the first one. */
  ghost function HighestSpecial(t: seq<Entry>): int {
    if t == [] then SPECIAL_START
    else
      var w, h := t[|t| - 1], HighestSpecial(t[..|t| - 1]);
      if !w.inert && w.special && w.id > h then w.id else h
  }

  method NewSpecialId(t: seq<Entry>) returns (id: int)
    ensures id == HighestSpecial(t) + 1
    ensures forall w :: w in t && !w.inert && w.special ==> w.id < id
    // it is the one behind an id in use, or the second special id, -98
    ensures id == -98 || exists j :: 0 <= j < |t| && !t[j].inert && t[j].special && t[j].id + 1 == id
    // it is a special id as long as the last one, -2, is free; then it is the invalid id
    ensures id < INVALID <==> forall j :: 0 <= j < |t| && !t[j].inert && t[j].special ==> t[j].id < INVALID - 1
  {
    id := SPECIAL_START;
    for i := 0 to |t|
      invariant id == HighestSpecial(t[..i])
      invariant id == SPECIAL_START || exists j :: 0 <= j < i && !t[j].inert && t[j].special && t[j].id == id
      invariant forall j :: 0 <= j < i && !t[j].inert && t[j].special ==> t[j].id <= id
    {
      assert t[..i + 1][..i] == t[..i];
      if !t[i].inert && t[i].special && t[i].id > id {
        id := t[i].id;
      }
    }
    assert t[..|t|] == t;
    id := id + 1;
  }

  /** The id for a name nobody has: below -1336, below every live negative id and below every
      negative id that a persistent rule reserves -- so no workspace and no such rule has it. */
  method NextNamedId(t: seq<Entry>, persistent: seq<int>) returns (id: int)
    ensures id <= -1337
    ensures forall w :: w in t && !w.inert ==> w.id != id
    ensures id !in persistent
    ensures id == -1337 || (exists w :: w in t && !w.inert && w.id == id + 1) || id + 1 in persistent
  {
    var lowest := -1337 + 1;
    for i := 0 to |t|
      invariant lowest <= -1336
      invariant forall j :: 0 <= j < i && !t[j].inert && t[j].id < -1 ==> lowest <= t[j].id
      invariant lowest == -1336 || exists w :: w in t && !w.inert && w.id == lowest
    {
      if !t[i].inert && t[i].id < -1 && t[i].id < lowest {
        lowest := t[i].id;
        assert t[i] in t;
      }
    }
    ghost var afterWorkspaces := lowest;
    for i := 0 to |persistent|
      invariant lowest <= afterWorkspaces
      invariant forall j :: 0 <= j < i && persistent[j] < -1 ==> lowest <= persistent[j]
      invariant lowest == afterWorkspaces || lowest in persistent
    {
      if persistent[i] < -1 && persistent[i] < lowest {
        lowest := persistent[i];
      }
    }
    return lowest - 1;
  }

  // ----- getConfigName and its inverse --------------------------------------------------------

  function ConfigName(w: Entry): string {
    if w.special then w.name
    else if w.id > 0 then Decimal(w.id)
    else "name:" + w.name
  }

  predicate RelativeForm(s: string) {
    |s| >= 2 && s[0] in "rme" && s[1] in "-+~" && IsNumber(s[2..])
  }

  /** getWorkspaceIDNameFromString on a table of workspaces; `active` is the id of the focused
      monitor's workspace, if there is a focused monitor; `fresh*` are the ids for new names. */
  function Resolve(t: seq<Entry>, active: Option<int>, freshSpecial: int, freshNamed: int, s: string): Resolved {
    if "special" <= s then
      if |s| > 8 then
        var i := IndexOfName(t, "special:" + s[8..]);
        Id(if i < |t| then t[i].id else freshSpecial)
      else Id(SPECIAL_START)
    else if "name:" <= s then
      var i := IndexOfName(t, s[5..]);
      Id(if i < |t| then t[i].id else freshNamed)
    else if "empty" <= s || "prev" <= s || s == "next" || RelativeForm(s) then Elsewhere
    else if s != [] && s[0] in "+-" then
      if active.None? then Id(INVALID)
      else if AllDigits(s[1..]) then
        var n := active.value + if s[0] == '+' then Value(s[1..]) else 0 - Value(s[1..]);
        Id(if n < 1 then 1 else n)
      else Elsewhere
    else if AllDigits(s) then
      if Value(s) > INT_MAX then Throws else Id(if Value(s) < 1 then 1 else Value(s))
    else
      var i := IndexOfName(t, s);
      Id(if i < |t| then t[i].id else INVALID)
  }

  /** A table as the compositor keeps it: live workspaces have distinct ids and names, and special
      ones are named special:<something>. */
  ghost predicate Table(t: seq<Entry>) {
    && (forall i, j :: 0 <= i < j < |t| && !t[i].inert && !t[j].inert ==> t[i].id != t[j].id && t[i].name != t[j].name)
    && (forall w :: w in t && w.special ==> "special:" <= w.name && |w.name| > 8)
  }

  lemma NameFinds(t: seq<Entry>, k: nat)
    requires Table(t) && k < |t| && !t[k].inert
    ensures IndexOfName(t, t[k].name) == k
  {
  }

  /** A decimal number is none of the other forms. */
  lemma DecimalIsPlain(n: nat)
    ensures var s := Decimal(n);
            !("special" <= s) && !("name:" <= s) && !("empty" <= s) && !("prev" <= s) && s != "next" &&
            !RelativeForm(s) && s[0] !in "+-"
  {
    assert Digit(Decimal(n)[0]);
  }

  /** Resolving a workspace's config name gives its id back -- for numbered workspaces exactly when
      the id fits an int (std::stoi throws otherwise). */
  lemma ConfigNameResolves(t: seq<Entry>, active: Option<int>, freshSpecial: int, freshNamed: int, w: Entry)
    requires Table(t) && w in t && !w.inert
    ensures var r := Resolve(t, active, freshSpecial, freshNamed, ConfigName(w));
            if !w.special && w.id > INT_MAX then r == Throws else r == Id(w.id)
  {
    var k :| 0 <= k < |t| && t[k] == w;
    NameFinds(t, k);
    if w.special {
      assert "special" <= "special:" <= w.name;
      assert "special:" + w.name[8..] == w.name;
    } else if w.id > 0 {
      DecimalIsPlain(w.id);
      DecimalRoundTrip(w.id);
    } else {
      var s := "name:" + w.name;
      assert s[0] == 'n';
      assert s[5..] == w.name;
    }
  }

  /** +k and -k are relative to the active workspace, and no id below 1 is reached that way; without
      a focused monitor they are invalid. */
  lemma OffsetResolves(t: seq<Entry>, active: Option<int>, freshSpecial: int, freshNamed: int, k: nat)
    ensures Resolve(t, None, freshSpecial, freshNamed, "+" + Decimal(k)) == Id(-1)
    ensures Resolve(t, None, freshSpecial, freshNamed, "-" + Decimal(k)) == Id(-1)
    ensures active.Some? ==>
              && Resolve(t, active, freshSpecial, freshNamed, "+" + Decimal(k)) ==
                 Id(if active.value + k >= 1 then active.value + k else 1)
              && Resolve(t, active, freshSpecial, freshNamed, "-" + Decimal(k)) ==
                 Id(if active.value - k >= 1 then active.value - k else 1)
  {
    hide Decimal;
    DecimalRoundTrip(k);
    SignedResolves(t, active, freshSpecial, freshNamed, '+', Decimal(k));
    SignedResolves(t, active, freshSpecial, freshNamed, '-', Decimal(k));
    SignedResolves(t, None, freshSpecial, freshNamed, '+', Decimal(k));
    SignedResolves(t, None, freshSpecial, freshNamed, '-', Decimal(k));
    assert ['+'] == "+" && ['-'] == "-";
  }

  lemma SignedResolves(t: seq<Entry>, active: Option<int>, freshSpecial: int, freshNamed: int, sign: char, d: string)
    requires sign in "+-" && AllDigits(d)
    ensures Resolve(t, active, freshSpecial, freshNamed, [sign] + d) ==
            if active.None? then Id(-1)
            else
              var n := active.value + if sign == '+' then Value(d) else 0 - Value(d);
              Id(if n >= 1 then n else 1)
  {
    hide IndexOfName, AllDigits, Value;
    var s := [sign] + d;
    assert s[0] == sign && s[1..] == d && sign != 's' && sign != 'n' && sign != 'e' && sign != 'p';
    assert !RelativeForm(s);
  }

  /** A number is the workspace of that id; 0 is taken for 1, and what does not fit an int throws. */
  lemma NumberResolves(t: seq<Entry>, active: Option<int>, freshSpecial: int, freshNamed: int, n: nat)
    ensures Resolve(t, active, freshSpecial, freshNamed, Decimal(n)) ==
            if n > 2147483647 then Throws else Id(if n == 0 then 1 else n)
  {
    DecimalIsPlain(n);
    DecimalRoundTrip(n);
  }
}
