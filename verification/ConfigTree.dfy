/** The Lua stub generator's class tree: config_values_to_config_tree turns dotted config routes
    into nested classes named by the pascal-cased segments. */
module ConfigTree {
  import opened Text

  // ----- names -----------------------------------------------------------------------------------

  function Upper(c: char): char {
    if 'a' <= c <= 'z' then c - 'a' + 'A' else c
  }

  function Lower(c: char): char {
    if 'A' <= c <= 'Z' then c - 'A' + 'a' else c
  }

  function LowerAll(s: string): (t: string)
    ensures |t| == |s| && forall i :: 0 <= i < |s| ==> t[i] == Lower(s[i])
  {
    if s == [] then [] else [Lower(s[0])] + LowerAll(s[1..])
  }

  /** str.capitalize, on ASCII. */
  function Capitalize(s: string): string {
    if s == [] then [] else [Upper(s[0])] + LowerAll(s[1..])
  }

  function CapitalizeAll(ps: seq<string>): string {
    if ps == [] then [] else Capitalize(ps[0]) + CapitalizeAll(ps[1..])
  }

  function PascalCase(s: string): string {
    if s == "opengl" then "OpenGL" else CapitalizeAll(SplitOn(s, '_'))
  }

  // ----- building the tree --------------------------------------------------------------------------

  /** A member of a class: its type, and whether that type is a class of the tree. */
  datatype Member = Member(tp: string, isTree: bool)

  type Class = map<string, Member>

  type Tree = map<string, Class>

  /** A config value: the segments of its dotted route, their class names, and its type. */
  datatype Value = Value(parts: seq<string>, names: seq<string>, tp: string)

  function PascalNames(parts: seq<string>): (names: seq<string>)
    ensures |names| == |parts| && forall k :: 0 <= k < |parts| ==> names[k] == PascalCase(parts[k])
  {
    seq(|parts|, k requires 0 <= k < |parts| => PascalCase(parts[k]))
  }

  function ValueOf(route: string, tp: string): (v: Value)
    ensures Proper(v)
  {
    var parts := SplitOn(route, '.');
    PascalNamesHaveNoDot(parts);
    Value(parts, PascalNames(parts), tp)
  }

  /** The values of the dictionary of routes. */
  function Values(config: seq<(string, string)>): (vs: seq<Value>)
    ensures |vs| == |config|
    ensures forall n :: 0 <= n < |vs| ==> vs[n] == ValueOf(config[n].0, config[n].1) && Proper(vs[n])
  {
    seq(|config|, n requires 0 <= n < |config| => ValueOf(config[n].0, config[n].1))
  }

  predicate Proper(v: Value) {
    v.parts != [] && |v.names| == |v.parts| && forall k :: 0 <= k < |v.names| ==> '.' !in v.names[k]
  }

  /** The class behind some class names; the root class is "". */
  function ClassOf(names: seq<string>): string {
    if names == [] then "" else ClassOf(names[..|names| - 1]) + "." + names[|names| - 1]
  }

  /** One assignment of the inner loop. */
  datatype Write = Write(cls: string, member: string, entry: Member)

  function WriteAt(v: Value, i: nat): Write
    requires i < |v.parts| == |v.names|
  {
    Write(ClassOf(v.names[..i]), v.parts[i],
          if i + 1 < |v.parts| then Member(ClassOf(v.names[..i + 1]), true) else Member(v.tp, false))
  }

  /** The first n assignments for a value. */
  function RouteWrites(v: Value, n: nat): (ws: seq<Write>)
    requires n <= |v.parts| == |v.names|
    ensures |ws| == n && forall i :: 0 <= i < n ==> ws[i] == WriteAt(v, i)
  {
    if n == 0 then [] else RouteWrites(v, n - 1) + [WriteAt(v, n - 1)]
  }

  function AllWrites(values: seq<Value>): seq<Write>
    requires forall n :: 0 <= n < |values| ==> Proper(values[n])
  {
    if values == [] then []
    else
      var v := values[|values| - 1];
      assert Proper(v);
      AllWrites(values[..|values| - 1]) + RouteWrites(v, |v.parts|)
  }

  function Put(t: Tree, w: Write): Tree {
    t[w.cls := (if w.cls in t then t[w.cls] else map[])[w.member := w.entry]]
  }

  function PutAll(ws: seq<Write>): Tree {
    if ws == [] then map[] else Put(PutAll(ws[..|ws| - 1]), ws[|ws| - 1])
  }

  method BuildTree(config: seq<(string, string)>) returns (tree: Tree)
    ensures tree == PutAll(AllWrites(Values(config)))
  {
    tree := map[];
    ghost var values := Values(config);
    for n := 0 to |config|
      invariant tree == PutAll(AllWrites(values[..n]))
    {
      ghost var before := AllWrites(values[..n]);
      ValuesNext(config, n);
      tree := AddRoute(tree, SplitOn(config[n].0, '.'), config[n].1, values[n], before);
    }
    assert values[..|values|] == values;
  }

  lemma {:induction false} ValuesNext(config: seq<(string, string)>, n: nat)
    requires n < |config|
    ensures var values := Values(config);
            && Values(config)[n] == ValueOf(config[n].0, config[n].1)
            && AllWrites(values[..n + 1]) == AllWrites(values[..n]) + RouteWrites(values[n], |values[n].parts|)
  {
    var values := Values(config);
    assert values[..n + 1][..n] == values[..n];
    assert Proper(values[n]);
  }

  /** The inner loop: one route. */
  method AddRoute(tree0: Tree, parts: seq<string>, tp: string, ghost v: Value, ghost before: seq<Write>) returns (tree: Tree)
    requires tree0 == PutAll(before) && v == Value(parts, PascalNames(parts), tp)
    ensures tree == PutAll(before + RouteWrites(v, |parts|))
  {
    tree := tree0;
    var cls := "";
    assert before + [] == before;
    for i := 0 to |parts|
      invariant i < |parts| ==> cls == ClassOf(v.names[..i])
      invariant tree == PutAll(before + RouteWrites(v, i))
    {
      var next := NextType(parts, i, tp, cls, v);
      PutNext(before, v, i);
      tree := Assign(tree, cls, parts[i], Member(next, i + 1 < |parts|));
      cls := next;
    }
  }

  /** The type of the i-th member: the next class, or at the end the value's type. */
  method NextType(parts: seq<string>, i: nat, tp: string, cls: string, ghost v: Value) returns (next: string)
    requires i < |parts| && v == Value(parts, PascalNames(parts), tp) && cls == ClassOf(v.names[..i])
    ensures i + 1 < |parts| ==> next == ClassOf(v.names[..i + 1])
    ensures WriteAt(v, i) == Write(cls, parts[i], Member(next, i + 1 < |parts|))
  {
    if i + 1 < |parts| {
      next := cls + "." + PascalCase(parts[i]);
      assert PascalCase(parts[i]) == v.names[i];
      ClassOfNext(v.names, i);
    } else {
      next := tp;
    }
  }

  lemma ClassOfNext(names: seq<string>, i: nat)
    requires i < |names|
    ensures ClassOf(names[..i + 1]) == ClassOf(names[..i]) + "." + names[i]
  {
    assert names[..i + 1][..i] == names[..i];
  }

  /** setdefault, then the assignment. */
  method Assign(tree0: Tree, cls: string, member: string, entry: Member) returns (tree: Tree)
    ensures tree == Put(tree0, Write(cls, member, entry))
  {
    tree := tree0;
    if cls !in tree {
      tree := tree[cls := map[]];
    }
    tree := tree[cls := tree[cls][member := entry]];
  }

  lemma PutNext(before: seq<Write>, v: Value, i: nat)
    requires i < |v.parts| == |v.names|
    ensures PutAll(before + RouteWrites(v, i + 1)) == Put(PutAll(before + RouteWrites(v, i)), WriteAt(v, i))
  {
    var ws := RouteWrites(v, i);
    assert before + RouteWrites(v, i + 1) == (before + ws) + [WriteAt(v, i)];
    PutLast(before + ws, WriteAt(v, i));
  }

  lemma PutLast(ws: seq<Write>, w: Write)
    ensures PutAll(ws + [w]) == Put(PutAll(ws), w)
  {
    assert (ws + [w])[..|ws|] == ws;
  }

  // ----- what is in the tree ----------------------------------------------------------------------------

  function Get(t: Tree, cls: string, member: string): Option<Member> {
    if cls in t && member in t[cls] then Some(t[cls][member]) else None
  }

  /** All writes to one place agree. */
  ghost predicate Consistent(ws: seq<Write>) {
    forall i, j :: 0 <= i < |ws| && 0 <= j < |ws| && ws[i].cls == ws[j].cls && ws[i].member == ws[j].member ==>
      ws[i].entry == ws[j].entry
  }

  lemma {:induction false} TreeHasWrites(ws: seq<Write>)
    requires Consistent(ws)
    ensures forall i :: 0 <= i < |ws| ==> Get(PutAll(ws), ws[i].cls, ws[i].member) == Some(ws[i].entry)
  {
    if ws != [] {
      TreeHasWrites(ws[..|ws| - 1]);
    }
  }

  lemma {:induction false} TreeOnlyWrites(ws: seq<Write>, cls: string, member: string)
    ensures Get(PutAll(ws), cls, member).Some? ==>
              exists i :: 0 <= i < |ws| && ws[i] == Write(cls, member, Get(PutAll(ws), cls, member).value)
  {
    if ws != [] {
      var init, last := ws[..|ws| - 1], ws[|ws| - 1];
      TreeOnlyWrites(init, cls, member);
      if Get(PutAll(ws), cls, member).Some? && (last.cls != cls || last.member != member) {
        var i :| 0 <= i < |init| && init[i] == Write(cls, member, Get(PutAll(init), cls, member).value);
        assert ws[i] == init[i];
      } else {
        assert ws[|ws| - 1] == last;
      }
    }
  }

  /** A segment of one of the values. */
  ghost predicate Segment(values: seq<Value>, n: int, i: int) {
    0 <= n < |values| && 0 <= i < |values[n].parts| == |values[n].names|
  }

  /** This write is made for some segment. */
  ghost predicate FromSegment(values: seq<Value>, w: Write) {
    exists n, i :: Segment(values, n, i) && w == WriteAt(values[n], i)
  }

  /** Every write comes from a segment of a value, and every segment is written. */
  lemma {:induction false} WritesAreSegments(values: seq<Value>)
    requires forall n :: 0 <= n < |values| ==> Proper(values[n])
    ensures forall k :: 0 <= k < |AllWrites(values)| ==> FromSegment(values, AllWrites(values)[k])
    ensures forall n, i :: Segment(values, n, i) ==> WriteAt(values[n], i) in AllWrites(values)
  {
    if values != [] {
      var m := |values| - 1;
      var init, v := values[..m], values[m];
      WritesAreSegments(init);
      var a, b := AllWrites(init), RouteWrites(v, |v.parts|);
      assert AllWrites(values) == a + b;
      forall k | 0 <= k < |a + b|
        ensures FromSegment(values, (a + b)[k])
      {
        if k < |a| {
          var n, i :| Segment(init, n, i) && a[k] == WriteAt(init[n], i);
          assert Segment(values, n, i) && values[n] == init[n];
        } else {
          assert Segment(values, m, k - |a|) && (a + b)[k] == WriteAt(values[m], k - |a|);
        }
      }
      forall n, i | Segment(values, n, i)
        ensures WriteAt(values[n], i) in a + b
      {
        if n < m {
          assert Segment(init, n, i) && WriteAt(init[n], i) in a;
        } else {
          assert b[i] == WriteAt(v, i);
        }
      }
    }
  }

  // ----- when classes do not collide -------------------------------------------------------------------

  /** Different class segments behind the same path have different class names. */
  ghost predicate Apart(v: Value, w: Value) {
    Proper(v) && Proper(w) &&
    forall i :: 0 <= i < |v.parts| - 1 && i < |w.parts| - 1 && v.parts[..i] == w.parts[..i] && v.parts[i] != w.parts[i] ==>
      v.names[i] != w.names[i]
  }

  /** Equal segments have equal class names. */
  ghost predicate SameNames(v: Value, w: Value) {
    Proper(v) && Proper(w) &&
    forall i, j :: 0 <= i < |v.parts| && 0 <= j < |w.parts| && v.parts[i] == w.parts[j] ==> v.names[i] == w.names[j]
  }

  /** As the values of a dictionary are. */
  ghost predicate Regular(values: seq<Value>) {
    && (forall n :: 0 <= n < |values| ==> Proper(values[n]))
    && (forall m, n :: 0 <= m < |values| && 0 <= n < |values| ==> SameNames(values[m], values[n]))
  }

  /** The i-th segments are in one place: the same segment behind the same class names. */
  ghost predicate SamePlace(v: Value, w: Value, i: nat) {
    && Proper(v) && Proper(w) && i < |v.parts| && i < |w.parts|
    && v.names[..i] == w.names[..i] && v.parts[i] == w.parts[i]
  }

  /** Route m ends in a place that belongs to route n. */
  ghost predicate EndsIn(values: seq<Value>, m: int, n: int, i: nat) {
    Segment(values, m, i) && Segment(values, n, i) && SamePlace(values[m], values[n], i) && i + 1 == |values[m].parts|
  }

  /** Where a route ends, no other goes on or ends with another type. */
  ghost predicate NoClash(values: seq<Value>) {
    forall m, n, i: nat :: EndsIn(values, m, n, i) ==>
      i + 1 == |values[n].parts| && values[m].tp == values[n].tp
  }

  /** Where a route ends there is no other. */
  ghost predicate Separate(values: seq<Value>) {
    forall m, n, i: nat :: EndsIn(values, m, n, i) ==> m == n
  }

  lemma {:induction false} CapitalizedHasNoDot(ps: seq<string>)
    requires forall k :: 0 <= k < |ps| ==> '.' !in ps[k]
    ensures '.' !in CapitalizeAll(ps)
  {
    if ps != [] {
      CapitalizedHasNoDot(ps[1..]);
      CapitalHasNoDot(ps[0]);
    }
  }

  lemma CapitalHasNoDot(p: string)
    requires '.' !in p
    ensures '.' !in Capitalize(p)
  {
    var c := Capitalize(p);
    forall i | 0 <= i < |c|
      ensures c[i] != '.'
    {
      assert p[i] in p;
      assert c[i] == Upper(p[i]) || c[i] == Lower(p[i]);
    }
  }

  lemma {:induction false} SplitKeepsOut(s: string, c: char, d: char)
    requires d !in s
    ensures forall k :: 0 <= k < |SplitOn(s, c)| ==> d !in SplitOn(s, c)[k]
    decreases |s|
  {
    var i := Find(s, c);
    if i < |s| {
      SplitKeepsOut(s[i + 1..], c, d);
    }
  }

  lemma PascalHasNoDot(s: string)
    requires '.' !in s
    ensures '.' !in PascalCase(s)
  {
    SplitKeepsOut(s, '_', '.');
    CapitalizedHasNoDot(SplitOn(s, '_'));
  }

  /** A text is cut at its last dot in one way only. */
  lemma LastDot(a: string, p: string, b: string, q: string)
    requires a + "." + p == b + "." + q && '.' !in p && '.' !in q
    ensures a == b && p == q
  {
    var s := a + "." + p;
    assert s == b + "." + q;
    assert s[|a|] == '.' && s[|b|] == '.';
    assert a == s[..|a|] && b == s[..|b|];
    assert p == s[|a| + 1..] && q == s[|b| + 1..];
  }

  lemma {:induction false} PascalNamesHaveNoDot(parts: seq<string>)
    requires forall k :: 0 <= k < |parts| ==> '.' !in parts[k]
    ensures forall k :: 0 <= k < |parts| ==> '.' !in PascalNames(parts)[k]
  {
    forall k | 0 <= k < |parts|
      ensures '.' !in PascalNames(parts)[k]
    {
      PascalHasNoDot(parts[k]);
    }
  }

  lemma {:induction false} ClassNames(p: seq<string>, q: seq<string>)
    requires forall k :: 0 <= k < |p| ==> '.' !in p[k]
    requires forall k :: 0 <= k < |q| ==> '.' !in q[k]
    requires ClassOf(p) == ClassOf(q)
    ensures p == q
    decreases |p|
  {
    if p != [] && q != [] {
      var i, j := |p| - 1, |q| - 1;
      LastDot(ClassOf(p[..i]), p[i], ClassOf(q[..j]), q[j]);
      ClassNames(p[..i], q[..j]);
      assert p == p[..i] + [p[i]] && q == q[..j] + [q[j]];
    }
  }

  /** When siblings keep different names a class name belongs to one path. */
  lemma ClassOfInjective(v: Value, i: nat, w: Value, j: nat)
    requires Apart(v, w) && i < |v.parts| && j < |w.parts| && ClassOf(v.names[..i]) == ClassOf(w.names[..j])
    ensures i == j && v.parts[..i] == w.parts[..j]
  {
    hide ClassOf;
    ClassNames(v.names[..i], w.names[..j]);
    assert |v.names[..i]| == i && |w.names[..j]| == j;
    PathOfNames(v, w, i);
  }

  lemma {:induction false} PathOfNames(v: Value, w: Value, i: nat)
    requires Apart(v, w) && i < |v.parts| && i < |w.parts| && v.names[..i] == w.names[..i]
    ensures v.parts[..i] == w.parts[..i]
  {
    hide Apart;
    ApartIsProper(v, w);
    if i > 0 {
      assert v.names[..i - 1] == v.names[..i][..i - 1] && w.names[..i - 1] == w.names[..i][..i - 1];
      assert v.names[i - 1] == v.names[..i][i - 1] && w.names[i - 1] == w.names[..i][i - 1];
      PathOfNames(v, w, i - 1);
      ApartAt(v, w, i - 1);
      assert v.parts[..i] == v.parts[..i - 1] + [v.parts[i - 1]];
      assert w.parts[..i] == w.parts[..i - 1] + [w.parts[i - 1]];
    }
  }

  lemma ApartIsProper(v: Value, w: Value)
    requires Apart(v, w)
    ensures Proper(v) && Proper(w)
  {
  }

  lemma ApartAt(v: Value, w: Value, i: nat)
    requires Apart(v, w) && i + 1 < |v.parts| && i + 1 < |w.parts|
    requires v.parts[..i] == w.parts[..i] && v.names[i] == w.names[i]
    ensures v.parts[i] == w.parts[i]
  {
  }

  /** Two segments are written to the same class and member exactly when they are in one place. */
  lemma PlaceIsName(v: Value, i: nat, w: Value, j: nat)
    requires Proper(v) && Proper(w) && i < |v.parts| && j < |w.parts|
    ensures WriteAt(v, i).cls == WriteAt(w, j).cls && WriteAt(v, i).member == WriteAt(w, j).member <==>
            i == j && SamePlace(v, w, i)
  {
    if WriteAt(v, i).cls == WriteAt(w, j).cls {
      ClassNames(v.names[..i], w.names[..j]);
    }
  }

  /** Both go on, to the same class. */
  lemma SameClassNext(v: Value, w: Value, i: nat)
    requires SamePlace(v, w, i) && SameNames(v, w)
    ensures ClassOf(v.names[..i + 1]) == ClassOf(w.names[..i + 1])
  {
    ClassOfNext(v.names, i);
    ClassOfNext(w.names, i);
  }

  /** Segments in one place write the same, unless a route ends there where another goes on, or ends
      with another type. */
  lemma SamePlaceSameEntry(values: seq<Value>, m: nat, n: nat, i: nat)
    requires Regular(values) && Segment(values, m, i) && Segment(values, n, i) && SamePlace(values[m], values[n], i)
    ensures WriteAt(values[m], i).entry == WriteAt(values[n], i).entry <==>
            ((i + 1 == |values[m].parts| <==> i + 1 == |values[n].parts|) &&
             (i + 1 == |values[m].parts| ==> values[m].tp == values[n].tp))
  {
    hide ClassOf;
    assert SameNames(values[m], values[n]);
    SameClassNext(values[m], values[n], i);
  }

  lemma WritesConsistent(values: seq<Value>)
    requires Regular(values) && NoClash(values)
    ensures Consistent(AllWrites(values))
  {
    hide Regular, ClassOf, SamePlace;
    assert forall n :: 0 <= n < |values| ==> Proper(values[n]) by { AreProper(values); }
    var ws := AllWrites(values);
    WritesAreSegments(values);
    forall a, b | 0 <= a < |ws| && 0 <= b < |ws| && ws[a].cls == ws[b].cls && ws[a].member == ws[b].member
      ensures ws[a].entry == ws[b].entry
    {
      assert FromSegment(values, ws[a]) && FromSegment(values, ws[b]);
      var m, i :| Segment(values, m, i) && ws[a] == WriteAt(values[m], i);
      var n, j :| Segment(values, n, j) && ws[b] == WriteAt(values[n], j);
      PlaceIsName(values[m], i, values[n], j);
      PlaceIsName(values[n], j, values[m], i);
      SamePlaceSameEntry(values, m, n, i);
      assert i + 1 == |values[m].parts| ==> EndsIn(values, m, n, i);
      assert i + 1 == |values[n].parts| ==> EndsIn(values, n, m, i);
    }
  }

  lemma AreProper(values: seq<Value>)
    requires Regular(values)
    ensures forall n :: 0 <= n < |values| ==> Proper(values[n])
  {
  }

  // ----- walking the tree ----------------------------------------------------------------------------------

  /** The type reached from a class along some segments. */
  function Walk(t: Tree, cls: string, parts: seq<string>): Option<string>
    decreases |parts|
  {
    if parts == [] then None
    else
      var m := Get(t, cls, parts[0]);
      if m.None? then None
      else if |parts| == 1 then if m.value.isTree then None else Some(m.value.tp)
      else if m.value.isTree then Walk(t, m.value.tp, parts[1..])
      else None
  }

  /** The tree holds every segment of the value. */
  ghost predicate Holds(t: Tree, v: Value) {
    Proper(v) && forall i :: 0 <= i < |v.parts| ==> Get(t, WriteAt(v, i).cls, WriteAt(v, i).member) == Some(WriteAt(v, i).entry)
  }

  lemma {:induction false} WalkFrom(t: Tree, v: Value, i: nat)
    requires i < |v.parts| && Holds(t, v)
    ensures Walk(t, ClassOf(v.names[..i]), v.parts[i..]) == Some(v.tp)
    decreases |v.parts| - i
  {
    var w := WriteAt(v, i);
    assert Get(t, w.cls, w.member) == Some(w.entry);
    if i + 1 < |v.parts| {
      WalkFrom(t, v, i + 1);
      assert v.parts[i..][1..] == v.parts[i + 1..];
    }
  }

  /** Walking the built tree along a route reaches exactly that route's type. */
  lemma {:induction false} RoutesAreReached(values: seq<Value>, n: nat)
    requires Regular(values) && NoClash(values) && n < |values|
    ensures Walk(PutAll(AllWrites(values)), "", values[n].parts) == Some(values[n].tp)
  {
    hide NoClash;
    var ws, v := AllWrites(values), values[n];
    var tree := PutAll(ws);
    WritesConsistent(values);
    WritesAreSegments(values);
    TreeHasWrites(ws);
    forall i | 0 <= i < |v.parts|
      ensures Get(tree, WriteAt(v, i).cls, WriteAt(v, i).member) == Some(WriteAt(v, i).entry)
    {
      assert Segment(values, n, i) && WriteAt(values[n], i) in ws;
    }
    WalkFrom(tree, v, 0);
    assert v.names[..0] == [] && v.parts[0..] == v.parts;
  }

  lemma {:induction false} LeafWrite(values: seq<Value>, cls: string, member: string, entry: Member) returns (n: nat, i: nat)
    requires forall k :: 0 <= k < |values| ==> Proper(values[k])
    requires Get(PutAll(AllWrites(values)), cls, member) == Some(entry)
    ensures Segment(values, n, i) && WriteAt(values[n], i) == Write(cls, member, entry)
  {
    var ws := AllWrites(values);
    TreeOnlyWrites(ws, cls, member);
    var k :| 0 <= k < |ws| && ws[k] == Write(cls, member, entry);
    WritesAreSegments(values);
    assert FromSegment(values, ws[k]);
    n, i :| Segment(values, n, i) && ws[k] == WriteAt(values[n], i);
  }

  /** A class entry leads to the class its place says, whichever route wrote it last. */
  lemma ClassEntry(values: seq<Value>, n: nat, i: nat)
    requires Regular(values) && Segment(values, n, i)
    ensures var w := WriteAt(values[n], i);
            var e := Get(PutAll(AllWrites(values)), w.cls, w.member);
            e.Some? && e.value.isTree ==> e == Some(Member(ClassOf(values[n].names[..i + 1]), true))
  {
    hide ClassOf, PutAll, AllWrites, Get;
    AreProper(values);
    var w := WriteAt(values[n], i);
    var e := Get(PutAll(AllWrites(values)), w.cls, w.member);
    if e.Some? && e.value.isTree {
      var m, j := LeafWrite(values, w.cls, w.member, e.value);
      PlaceIsName(values[n], i, values[m], j);
      assert SameNames(values[n], values[m]);
      SameClassNext(values[n], values[m], i);
    }
  }

  /** A route that is reached finds its own entries on the way. */
  lemma {:induction false} WalkFinds(values: seq<Value>, n: nat, i: nat)
    requires Regular(values) && Segment(values, n, i)
    requires Walk(PutAll(AllWrites(values)), ClassOf(values[n].names[..i]), values[n].parts[i..]) == Some(values[n].tp)
    ensures forall k :: i <= k < |values[n].parts| ==>
              Get(PutAll(AllWrites(values)), WriteAt(values[n], k).cls, WriteAt(values[n], k).member) ==
              Some(WriteAt(values[n], k).entry)
    decreases |values[n].parts| - i
  {
    hide ClassOf, PutAll, AllWrites, Get, Regular;
    var v := values[n];
    ClassEntry(values, n, i);
    assert v.parts[i..][0] == v.parts[i];
    if i + 1 < |v.parts| {
      assert v.parts[i..][1..] == v.parts[i + 1..];
      WalkFinds(values, n, i + 1);
    }
  }

  // ----- exactly when --------------------------------------------------------------------------------------

  /** Walking the built tree along every route reaches that route's type. */
  ghost predicate AllReached(values: seq<Value>) {
    && (forall n :: 0 <= n < |values| ==> Proper(values[n]))
    && forall n :: 0 <= n < |values| ==> Walk(PutAll(AllWrites(values)), "", values[n].parts) == Some(values[n].tp)
  }

  lemma {:induction false} ReachedHolds(values: seq<Value>, n: nat)
    requires Regular(values) && AllReached(values) && n < |values|
    ensures Holds(PutAll(AllWrites(values)), values[n])
  {
    hide PutAll, AllWrites, Get, Walk;
    var v := values[n];
    assert v.names[..0] == [] && v.parts[0..] == v.parts && ClassOf([]) == "";
    assert Proper(v) && Segment(values, n, 0);
    WalkFinds(values, n, 0);
  }

  /** Every route is reached exactly when no route ends where another goes on or ends differently. */
  lemma {:induction false} ReachedExactly(values: seq<Value>)
    requires Regular(values)
    ensures AllReached(values) <==> NoClash(values)
  {
    hide PutAll, AllWrites, Get, Walk, ClassOf;
    if NoClash(values) {
      forall n | 0 <= n < |values|
        ensures Walk(PutAll(AllWrites(values)), "", values[n].parts) == Some(values[n].tp)
      {
        RoutesAreReached(values, n);
      }
    }
    if AllReached(values) {
      forall m, n, i: nat | EndsIn(values, m, n, i)
        ensures i + 1 == |values[n].parts| && values[m].tp == values[n].tp
      {
        ReachedHolds(values, m);
        ReachedHolds(values, n);
        PlaceIsName(values[m], i, values[n], i);
        SamePlaceSameEntry(values, m, n, i);
      }
    }
  }

  /** The value's last segment is this member of this class. */
  predicate Ends(v: Value, cls: string, member: string)
    requires Proper(v)
  {
    var w := WriteAt(v, |v.parts| - 1);
    w.cls == cls && w.member == member
  }

  /** Exactly one of the values ends in this member, and it has this type. */
  ghost predicate OneEnd(values: seq<Value>, cls: string, member: string, tp: string) {
    exists n :: 0 <= n < |values| && Proper(values[n]) && Ends(values[n], cls, member) && values[n].tp == tp &&
      forall m :: 0 <= m < |values| && Proper(values[m]) && Ends(values[m], cls, member) ==> m == n
  }

  /** Every leaf of the built tree is the end of exactly one route, and carries that route's type. */
  lemma {:induction false} LeafHasOneRoute(values: seq<Value>, cls: string, member: string, tp: string)
    requires Regular(values) && Separate(values)
    requires Get(PutAll(AllWrites(values)), cls, member) == Some(Member(tp, false))
    ensures OneEnd(values, cls, member, tp)
  {
    hide PutAll, AllWrites, Get, ClassOf;
    AreProper(values);
    var n, i := LeafWrite(values, cls, member, Member(tp, false));
    forall m | 0 <= m < |values| && Proper(values[m]) && Ends(values[m], cls, member)
      ensures m == n
    {
      var j := |values[m].parts| - 1;
      assert Segment(values, m, j);
      PlaceIsName(values[n], i, values[m], j);
      assert EndsIn(values, n, m, i);
    }
  }

  /** The tree says what the routes say: each is reached, and each leaf ends exactly one. */
  ghost predicate Faithful(values: seq<Value>) {
    && AllReached(values)
    && forall cls, member, tp :: Get(PutAll(AllWrites(values)), cls, member) == Some(Member(tp, false)) ==>
         OneEnd(values, cls, member, tp)
  }

  /** It does exactly when no place at which a route ends belongs to another route. */
  lemma {:induction false} FaithfulExactly(values: seq<Value>)
    requires Regular(values)
    ensures Faithful(values) <==> Separate(values)
  {
    hide PutAll, AllWrites, Get, Walk, ClassOf;
    ReachedExactly(values);
    if Separate(values) {
      assert NoClash(values);
      forall cls, member, tp | Get(PutAll(AllWrites(values)), cls, member) == Some(Member(tp, false))
        ensures OneEnd(values, cls, member, tp)
      {
        LeafHasOneRoute(values, cls, member, tp);
      }
    }
    if Faithful(values) {
      forall m, n, i: nat | EndsIn(values, m, n, i)
        ensures m == n
      {
        EndsOnce(values, m, n, i);
      }
    }
  }

  lemma EndsOnce(values: seq<Value>, m: nat, n: nat, i: nat)
    requires Regular(values) && Faithful(values) && NoClash(values)
    requires EndsIn(values, m, n, i)
    ensures m == n
  {
    hide PutAll, AllWrites, Get, Walk, ClassOf;
    var w := WriteAt(values[m], i);
    ReachedHolds(values, m);
    PlaceIsName(values[m], i, values[n], i);
    assert i + 1 == |values[n].parts|;
    assert OneEnd(values, w.cls, w.member, values[m].tp);
    assert Ends(values[m], w.cls, w.member) && Ends(values[n], w.cls, w.member);
  }

  // ----- the generator's own routes ------------------------------------------------------------------------

  lemma ValuesAreRegular(config: seq<(string, string)>)
    ensures Regular(Values(config))
  {
    var values := Values(config);
    forall m, n | 0 <= m < |values| && 0 <= n < |values|
      ensures SameNames(values[m], values[n])
    {
      NamesFollowParts(config[m].0, config[m].1, config[n].0, config[n].1);
    }
  }

  lemma NamesFollowParts(route1: string, tp1: string, route2: string, tp2: string)
    ensures SameNames(ValueOf(route1, tp1), ValueOf(route2, tp2))
  {
  }

  /** No route is another one, or the beginning of another one. */
  ghost predicate PrefixFree(config: seq<(string, string)>) {
    forall m, n :: 0 <= m < |config| && 0 <= n < |config| && m != n ==>
      config[m].0 != config[n].0 && !(config[m].0 + "." <= config[n].0)
  }

  /** What one expects of a dictionary: no route begins another, and sibling classes keep different
      names. */
  ghost predicate GoodConfig(config: seq<(string, string)>) {
    var values := Values(config);
    && PrefixFree(config)
    && (forall m, n :: 0 <= m < |values| && 0 <= n < |values| ==> Apart(values[m], values[n]))
  }

  /** A route whose segments begin those of another is that route, or begins it. */
  lemma BeginsRoute(r: string, s: string)
    requires SplitOn(r, '.') <= SplitOn(s, '.')
    ensures r == s || r + "." <= s
  {
    hide SplitOn, Join;
    var p, q := SplitOn(r, '.'), SplitOn(s, '.');
    JoinUndoesSplit(r, '.');
    JoinUndoesSplit(s, '.');
    if |p| < |q| {
      var rest := q[|p|..];
      assert q == p + rest;
      JoinAppend(p, rest, ".");
      assert s == (r + ".") + Join(rest, ".");
    } else {
      assert p == q;
    }
  }

  lemma {:induction false} GoodIsSeparate(config: seq<(string, string)>)
    requires GoodConfig(config)
    ensures Separate(Values(config))
  {
    var values := Values(config);
    forall m, n, i: nat | EndsIn(values, m, n, i)
      ensures m == n
    {
      EndsInPrefix(values[m], values[n], i);
      BeginsRoute(config[m].0, config[n].0);
    }
  }

  lemma EndsInPrefix(v: Value, w: Value, i: nat)
    requires Apart(v, w) && SamePlace(v, w, i) && i + 1 == |v.parts|
    ensures v.parts <= w.parts
  {
    ClassOfInjective(v, i, w, i);
    assert v.parts == v.parts[..i] + [v.parts[i]];
    assert w.parts[..i + 1] == w.parts[..i] + [w.parts[i]];
  }

  /** For prefix-free routes whose sibling classes keep different names: walking the class tree of
      config_values_to_config_tree along a route reaches that route's type, and every leaf of the
      tree ends exactly one route, with its type. */
  lemma {:induction false} ConfigTreeIsFaithful(config: seq<(string, string)>)
    requires GoodConfig(config)
    ensures var tree := PutAll(AllWrites(Values(config)));
            forall n :: 0 <= n < |config| ==> Walk(tree, "", SplitOn(config[n].0, '.')) == Some(config[n].1)
    ensures forall cls, member, tp :: Get(PutAll(AllWrites(Values(config))), cls, member) == Some(Member(tp, false)) ==>
              OneEnd(Values(config), cls, member, tp)
  {
    hide GoodConfig, PutAll, AllWrites, Get, Walk, OneEnd;
    ValuesAreRegular(config);
    GoodIsSeparate(config);
    FaithfulExactly(Values(config));
  }

  /** Without distinct class names the later route wins: two segments with one class name share the
      class, and the first route's walk ends on the second one's type. */
  lemma CollidingSiblings(first: Value, second: Value)
    requires Proper(first) && Proper(second) && |first.parts| == |second.parts| == 2
    requires first.parts[0] != second.parts[0] && first.names[0] == second.names[0] && first.parts[1] == second.parts[1]
    ensures Walk(PutAll(AllWrites([first, second])), "", first.parts) == Some(second.tp)
  {
    var a, b := RouteWrites(first, 2), RouteWrites(second, 2);
    var cls := ClassOf(first.names[..1]);
    TwoRoutes(first, second);
    assert first.names[..0] == [] == second.names[..0] && first.names[..1] == second.names[..1];
    LastWriteWins(a + b, cls, first.parts[1]);
    FirstClassStays(a, b, cls, first.parts[0]);
    WalkTwo(PutAll(a + b), first.parts, cls, second.tp);
  }

  lemma TwoRoutes(first: Value, second: Value)
    requires Proper(first) && Proper(second)
    ensures AllWrites([first, second]) == RouteWrites(first, |first.parts|) + RouteWrites(second, |second.parts|)
  {
    assert [first, second][..1] == [first] && [first][..0] == [];
    assert AllWrites([first]) == RouteWrites(first, |first.parts|);
  }

  lemma WalkTwo(t: Tree, parts: seq<string>, cls: string, tp: string)
    requires |parts| == 2 && Get(t, "", parts[0]) == Some(Member(cls, true)) && Get(t, cls, parts[1]) == Some(Member(tp, false))
    ensures Walk(t, "", parts) == Some(tp)
  {
  }

  lemma LastWriteWins(ws: seq<Write>, cls: string, member: string)
    requires ws != [] && ws[|ws| - 1].cls == cls && ws[|ws| - 1].member == member
    ensures Get(PutAll(ws), cls, member) == Some(ws[|ws| - 1].entry)
  {
  }

  lemma FirstClassStays(a: seq<Write>, b: seq<Write>, cls: string, p: string)
    requires |a| == |b| == 2 && a[0] == Write("", p, Member(cls, true)) && b[0].cls == "" && b[0].member != p
    requires a[1].cls == cls && b[1].cls == cls && cls != ""
    ensures Get(PutAll(a + b), "", p) == Some(Member(cls, true))
  {
    var ws := a + b;
    assert ws[..3] == [a[0], a[1], b[0]] && ws[..3][..2] == [a[0], a[1]] && ws[..3][..2][..1] == [a[0]];
    LastWriteWins(ws[..1], "", p);
    assert ws[..1] == ws[..3][..2][..1];
    assert Get(PutAll(ws[..3][..2]), "", p) == Some(Member(cls, true));
    assert Get(PutAll(ws[..3]), "", p) == Some(Member(cls, true));
  }

  lemma SplitOnce(a: string, b: string, c: char)
    requires c !in a && c !in b
    ensures SplitOn(a + [c] + b, c) == [a, b]
  {
    var s := a + [c] + b;
    FindFirst(a, c, b);
    assert s[..|a|] == a && s[|a| + 1..] == b;
    assert SplitOn(b, c) == [b];
  }

  lemma TwoSegments(a: string, b: string, tp: string)
    requires '.' !in a && '.' !in b
    ensures ValueOf(a + ['.'] + b, tp) == Value([a, b], [PascalCase(a), PascalCase(b)], tp)
  {
    hide SplitOn, PascalCase;
    SplitOnce(a, b, '.');
    assert PascalNames([a, b]) == [PascalCase(a), PascalCase(b)];
  }

  /** Two routes whose class segments have one class name: the first one's walk ends on the second
      one's type. */
  lemma {:induction false} CollidingPair(a: string, b: string, x: string, tp1: string, tp2: string)
    requires '.' !in a && '.' !in b && '.' !in x && a != b && PascalCase(a) == PascalCase(b)
    ensures Walk(PutAll(AllWrites(Values([(a + ['.'] + x, tp1), (b + ['.'] + x, tp2)]))), "", [a, x]) == Some(tp2)
  {
    hide PascalCase, SplitOn, Walk, PutAll, AllWrites, ValueOf;
    var config := [(a + ['.'] + x, tp1), (b + ['.'] + x, tp2)];
    TwoSegments(a, x, tp1);
    TwoSegments(b, x, tp2);
    var first, second := ValueOf(a + ['.'] + x, tp1), ValueOf(b + ['.'] + x, tp2);
    assert Values(config) == [first, second];
    CollidingSiblings(first, second);
  }

  /** The routes a_b.x and a__b.x are such: both belong to the class AB. */
  lemma {:induction false} CollidingRoutes(tp1: string, tp2: string)
    ensures var config := [("a_b.x", tp1), ("a__b.x", tp2)];
            PrefixFree(config) && Walk(PutAll(AllWrites(Values(config))), "", ["a_b", "x"]) == Some(tp2)
  {
    hide PascalCase, Values, Walk, PutAll, AllWrites;
    SameClassName("a", "b");
    assert "a" + ['_'] + "b" == "a_b" && "a" + ['_'] + (['_'] + "b") == "a__b";
    assert "a_b" + ['.'] + "x" == "a_b.x" && "a__b" + ['.'] + "x" == "a__b.x";
    assert "a_b.x"[2] != "a__b.x"[2];
    CollidingPair("a_b", "a__b", "x", tp1, tp2);
  }

  /** A doubled underscore does not show in a class name. */
  lemma SameClassName(a: string, b: string)
    requires '_' !in a && '_' !in b
    ensures PascalCase(a + ['_'] + b) == PascalCase(a + ['_'] + (['_'] + b))
  {
    hide Capitalize;
    var s, u := a + ['_'] + b, ['_'] + b;
    var t := a + ['_'] + u;
    SplitOnce(a, b, '_');
    FindFirst(a, '_', u);
    assert t[..|a|] == a && t[|a| + 1..] == u;
    SplitOnce("", b, '_');
    assert "" + ['_'] + b == u;
    assert SplitOn(t, '_') == [a] + ["", b];
    assert ([a] + ["", b])[1..] == ["", b] && ["", b][1..] == [b] && [a, b][1..] == [b];
    EmptyVanishes([b]);
    assert s[|a|] == t[|a|] == '_' && '_' !in "opengl";
  }

  lemma EmptyVanishes(ps: seq<string>)
    ensures CapitalizeAll([""] + ps) == CapitalizeAll(ps)
  {
    assert ([""] + ps)[1..] == ps;
  }

  // ----- the names in the tree -------------------------------------------------------------------------------

  predicate LowerWord(w: string) {
    w != [] && forall i :: 0 <= i < |w| ==> 'a' <= w[i] <= 'z' || '0' <= w[i] <= '9'
  }

  /** The words with their first letters made capital, put together. */
  function Titles(words: seq<string>): string
    requires forall i :: 0 <= i < |words| ==> LowerWord(words[i])
  {
    if words == [] then []
    else
      var w := words[0];
      assert LowerWord(w);
      (if w[0] >= 'a' then [(w[0] as int - 32) as char] else [w[0]]) + w[1..] + Titles(words[1..])
  }

  lemma {:induction false} LowerStays(s: string)
    requires forall i :: 0 <= i < |s| ==> 'a' <= s[i] <= 'z' || '0' <= s[i] <= '9'
    ensures LowerAll(s) == s
  {
    if s != [] {
      LowerStays(s[1..]);
    }
  }

  lemma {:induction false} CapitalizedWords(words: seq<string>)
    requires forall i :: 0 <= i < |words| ==> LowerWord(words[i])
    ensures CapitalizeAll(words) == Titles(words)
  {
    if words != [] {
      assert LowerWord(words[0]);
      LowerStays(words[0][1..]);
      CapitalizedWords(words[1..]);
    }
  }

  lemma {:induction false} SplitUndoesJoinOn(words: seq<string>, c: char)
    requires words != [] && forall i :: 0 <= i < |words| ==> c !in words[i]
    ensures SplitOn(Join(words, [c]), c) == words
    decreases |words|
  {
    var s := Join(words, [c]);
    if |words| == 1 {
      assert words == [s];
    } else {
      var rest := Join(words[1..], [c]);
      assert s == words[0] + [c] + rest;
      FindFirst(words[0], c, rest);
      assert s[..|words[0]|] == words[0] && s[|words[0]| + 1..] == rest;
      SplitUndoesJoinOn(words[1..], c);
    }
  }

  /** Words joined by underscores become words with capital first letters; opengl is spelled OpenGL. */
  lemma {:induction false} PascalOfWords(words: seq<string>)
    requires words != [] && forall i :: 0 <= i < |words| ==> LowerWord(words[i])
    ensures PascalCase(Join(words, "_")) == if words == ["opengl"] then "OpenGL" else Titles(words)
  {
    forall i | 0 <= i < |words|
      ensures '_' !in words[i]
    {
      assert LowerWord(words[i]);
    }
    SplitUndoesJoinOn(words, '_');
    CapitalizedWords(words);
    if Join(words, "_") == "opengl" {
      assert '_' !in "opengl";
      FindNone("opengl", '_');
      assert words == ["opengl"];
    }
  }

  lemma FindNone(s: string, c: char)
    requires c !in s
    ensures SplitOn(s, c) == [s]
  {
  }

  /** The class behind some names is those names, each behind a dot. */
  function Dotted(names: seq<string>): string {
    if names == [] then "" else "." + Join(names, ".")
  }

  lemma {:induction false} ClassIsDotted(names: seq<string>)
    ensures ClassOf(names) == Dotted(names)
  {
    if names != [] {
      var init, last := names[..|names| - 1], names[|names| - 1];
      ClassIsDotted(init);
      assert names == init + [last];
      if init == [] {
        assert "" + "." + last == "." + last;
      } else {
        JoinSnoc(init, last, ".");
        assert ("." + Join(init, ".")) + "." + last == "." + (Join(init, ".") + "." + last);
      }
    }
  }

  /** Every segment of a route is a member of the class of the segments before it: a class itself, or
      the route's type at the end. */
  lemma {:induction false} SegmentsAreMembers(values: seq<Value>, n: nat, i: nat)
    requires Regular(values) && NoClash(values) && Segment(values, n, i)
    ensures var v := values[n];
            Get(PutAll(AllWrites(values)), Dotted(v.names[..i]), v.parts[i]) ==
            Some(if i + 1 < |v.parts| then Member(Dotted(v.names[..i + 1]), true) else Member(v.tp, false))
  {
    hide PutAll, AllWrites, Get, Walk, ClassOf, NoClash;
    ReachedExactly(values);
    ReachedHolds(values, n);
    ClassIsDotted(values[n].names[..i]);
    ClassIsDotted(values[n].names[..i + 1]);
    assert Get(PutAll(AllWrites(values)), WriteAt(values[n], i).cls, WriteAt(values[n], i).member) == Some(WriteAt(values[n], i).entry);
  }
}
