/** The damage batching of an animation tick: one record per owner of an active variable, instead of
    one damage call per variable. */
module DamageTick {

  /** What a variable animates.  Ids stand for the compositor's weak pointers. */
  datatype Owner = Window(id: int) | Workspace(id: int) | Layer(id: int)

  datatype Policy = NoDamage | Entire | Border | Shadow | Glow

  /** An active variable: the first live one of its window, workspace and layer is its owner. */
  datatype Variable = Variable(alive: bool, window: int, workspace: int, layer: int, policy: Policy) {
    predicate HasOwner() {
      alive && (window >= 0 || workspace >= 0 || layer >= 0)
    }

    function TheOwner(): Owner
      requires HasOwner()
    {
      if window >= 0 then Window(window) else if workspace >= 0 then Workspace(workspace) else Layer(layer)
    }
  }

  /** One entry of the owners vector. */
  datatype Damage = Damage(owner: Owner, monitor: int, entire: bool, border: bool, shadow: bool, glow: bool) {
    predicate Has(p: Policy) {
      match p
      case NoDamage => true
      case Entire => entire
      case Border => border
      case Shadow => shadow
      case Glow => glow
    }

    function Add(p: Policy): (d: Damage)
      ensures d.owner == owner && d.monitor == monitor && d.Has(p)
      ensures forall q :: d.Has(q) <==> Has(q) || q == p
    {
      match p
      case NoDamage => this
      case Entire => this.(entire := true)
      case Border => this.(border := true)
      case Shadow => this.(shadow := true)
      case Glow => this.(glow := true)
    }
  }

  /** Monitors of the owners that are on one. */
  type Monitors = map<Owner, int>

  /** The variable animates this owner, which is on a monitor. */
  predicate Animates(v: Variable, mons: Monitors, o: Owner) {
    v.HasOwner() && v.TheOwner() == o && o in mons
  }

  ghost predicate Animated(vars: seq<Variable>, mons: Monitors, o: Owner) {
    exists k :: 0 <= k < |vars| && Animates(vars[k], mons, o)
  }

  /** The owner of a live variable is its window; without one its workspace; without that its layer. */
  lemma OwnerIs(v: Variable, mons: Monitors, id: nat)
    ensures Animates(v, mons, Window(id)) <==> v.alive && v.window == id && Window(id) in mons
    ensures Animates(v, mons, Workspace(id)) <==> v.alive && v.window < 0 && v.workspace == id && Workspace(id) in mons
    ensures Animates(v, mons, Layer(id)) <==>
            v.alive && v.window < 0 && v.workspace < 0 && v.layer == id && Layer(id) in mons
  {
  }

  /** Some variable asks for this policy on this owner. */
  ghost predicate Asked(vars: seq<Variable>, mons: Monitors, o: Owner, p: Policy) {
    exists k :: 0 <= k < |vars| && Animates(vars[k], mons, o) && vars[k].policy == p
  }

  ghost predicate Recorded(owners: seq<Damage>, o: Owner) {
    exists i :: 0 <= i < |owners| && owners[i].owner == o
  }

  /** The owners vector says exactly what the variables ask for: each owner at most once, in one
      record, with its monitor; a record for every animated owner and for no other; and in it
      exactly the policies asked for. */
  ghost predicate Batched(vars: seq<Variable>, mons: Monitors, owners: seq<Damage>) {
    && (forall i, j :: 0 <= i < j < |owners| ==> owners[i].owner != owners[j].owner)
    && (forall i :: 0 <= i < |owners| ==> owners[i].owner in mons && owners[i].monitor == mons[owners[i].owner])
    && (forall o :: Recorded(owners, o) <==> Animated(vars, mons, o))
    && (forall i, p :: 0 <= i < |owners| && p != NoDamage ==>
          (owners[i].Has(p) <==> Asked(vars, mons, owners[i].owner, p)))
  }

  /** Index of the record of an owner, |owners| when there is none. */
  function IndexOf(owners: seq<Damage>, o: Owner): (i: nat)
    ensures i <= |owners|
    ensures i < |owners| ==> owners[i].owner == o
    ensures forall j :: 0 <= j < i ==> owners[j].owner != o
  {
    if owners == [] || owners[0].owner == o then 0 else 1 + IndexOf(owners[1..], o)
  }

  method FindOwner(owners: seq<Damage>, o: Owner) returns (i: nat)
    ensures i == IndexOf(owners, o)
  {
    i := 0;
    while i < |owners| && owners[i].owner != o
      invariant i <= |owners|
      invariant IndexOf(owners, o) == i + IndexOf(owners[i..], o)
    {
      i := i + 1;
    }
  }

  lemma AskedMore(vars: seq<Variable>, v: Variable, mons: Monitors, o: Owner, p: Policy)
    ensures Animated(vars + [v], mons, o) <==> Animated(vars, mons, o) || Animates(v, mons, o)
    ensures Asked(vars + [v], mons, o, p) <==> Asked(vars, mons, o, p) || (Animates(v, mons, o) && v.policy == p)
  {
    var all := vars + [v];
    assert all[|vars|] == v;
    if Animated(vars, mons, o) {
      var k :| 0 <= k < |vars| && Animates(vars[k], mons, o);
      assert all[k] == vars[k];
    }
    if Asked(vars, mons, o, p) {
      var k :| 0 <= k < |vars| && Animates(vars[k], mons, o) && vars[k].policy == p;
      assert all[k] == vars[k];
    }
  }

  /** The collecting pass. */
  method CollectOwners(vars: seq<Variable>, mons: Monitors) returns (owners: seq<Damage>)
    ensures Batched(vars, mons, owners)
  {
    owners := [];
    for n := 0 to |vars|
      invariant Batched(vars[..n], mons, owners)
    {
      owners := CollectOne(vars[n], mons, owners, vars[..n]);
      assert vars[..n + 1] == vars[..n] + [vars[n]];
    }
    assert vars[..|vars|] == vars;
  }

  /** The body of that loop: find or make the owner's record, then set the flag of the policy. */
  method CollectOne(v: Variable, mons: Monitors, owners0: seq<Damage>, ghost done: seq<Variable>)
    returns (owners: seq<Damage>)
    requires Batched(done, mons, owners0)
    ensures Batched(done + [v], mons, owners)
  {
    owners := owners0;
    if !v.HasOwner() {
      BatchedSkips(done, v, mons, owners);
      return;
    }
    var o := v.TheOwner();
    var i := FindOwner(owners, o);
    if i == |owners| {
      if o !in mons {
        BatchedSkips(done, v, mons, owners);
        return;
      }
      owners := owners + [Damage(o, mons[o], false, false, false, false)];
      assert owners[i].owner == o;
    }
    ghost var before := owners[i];
    assert forall p :: p != NoDamage ==> (before.Has(p) <==> Asked(done, mons, o, p)) by {
      if i == |owners0| {
        NotRecorded(done, mons, owners0, o);
      }
    }
    owners := owners[i := owners[i].Add(v.policy)];
    BatchedAdds(done, v, mons, owners0, owners, i, before);
  }

  /** A variable without an owner on a monitor changes nothing. */
  lemma BatchedSkips(done: seq<Variable>, v: Variable, mons: Monitors, owners: seq<Damage>)
    requires Batched(done, mons, owners) && (v.HasOwner() ==> v.TheOwner() !in mons)
    ensures Batched(done + [v], mons, owners)
  {
    forall o
      ensures Animated(done + [v], mons, o) <==> Animated(done, mons, o)
    {
      AskedMore(done, v, mons, o, Entire);
    }
    forall o, p
      ensures Asked(done + [v], mons, o, p) <==> Asked(done, mons, o, p)
    {
      AskedMore(done, v, mons, o, p);
    }
  }

  /** A variable with one sets its flag in the owner's record, which may be new. */
  lemma BatchedAdds(done: seq<Variable>, v: Variable, mons: Monitors, old_: seq<Damage>, now: seq<Damage>, i: nat, was: Damage)
    requires Batched(done, mons, old_) && v.HasOwner() && v.TheOwner() in mons && i < |now|
    requires |now| == |old_| || (i == |old_| && |now| == i + 1 && IndexOf(old_, v.TheOwner()) == i)
    requires forall j :: 0 <= j < |now| && j != i ==> j < |old_| && now[j] == old_[j]
    requires now[i] == was.Add(v.policy) && was.owner == v.TheOwner() && was.monitor == mons[v.TheOwner()]
    requires i < |old_| ==> was == old_[i]
    requires forall p :: p != NoDamage ==> (was.Has(p) <==> Asked(done, mons, v.TheOwner(), p))
    ensures Batched(done + [v], mons, now)
  {
    forall o
      ensures Recorded(now, o) <==> Animated(done + [v], mons, o)
    {
      AskedMore(done, v, mons, o, Entire);
      assert now[i].owner == v.TheOwner();
      if Recorded(old_, o) {
        var j :| 0 <= j < |old_| && old_[j].owner == o;
        assert now[j].owner == o;
      }
    }
    forall j, p | 0 <= j < |now| && p != NoDamage
      ensures now[j].Has(p) <==> Asked(done + [v], mons, now[j].owner, p)
    {
      AskedMore(done, v, mons, now[j].owner, p);
      if j != i {
        assert now[j].owner == old_[j].owner != v.TheOwner();
      }
    }
  }

  lemma NotRecorded(vars: seq<Variable>, mons: Monitors, owners: seq<Damage>, o: Owner)
    requires Batched(vars, mons, owners) && IndexOf(owners, o) == |owners|
    ensures forall p :: !Asked(vars, mons, o, p)
  {
    assert !Recorded(owners, o);
    forall p
      ensures !Asked(vars, mons, o, p)
    {
      if Asked(vars, mons, o, p) {
        assert Animated(vars, mons, o);
      }
    }
  }

  // ----- the damage passes ---------------------------------------------------------------------------

  datatype Call =
    | WholeWindow(id: int)
    | Decoration(id: int, policy: Policy)
    | PreWorkspace(id: int, monitor: int)
    | WorkspaceWindows(id: int)
    | LayerBox(id: int)

  /** damageWindowForPolicies: the whole window, or the decorations asked for. */
  function WindowCalls(id: int, d: Damage): seq<Call> {
    if d.entire then [WholeWindow(id)]
    else (if d.border then [Decoration(id, Border)] else []) +
         (if d.shadow then [Decoration(id, Shadow)] else []) +
         (if d.glow then [Decoration(id, Glow)] else [])
  }

  /** What one record damages before the values change, and after. */
  function OwnerCalls(d: Damage, before: bool): seq<Call> {
    match d.owner
    case Window(id) => WindowCalls(id, d)
    case Workspace(id) =>
      if before then [PreWorkspace(id, d.monitor)] else if d.entire then [WorkspaceWindows(id)] else []
    case Layer(id) => if before || d.entire then [LayerBox(id)] else []
  }

  method DamagePass(owners: seq<Damage>, before: bool) returns (calls: seq<Call>)
    ensures calls == PassCalls(owners, before)
  {
    calls := [];
    for i := 0 to |owners|
      invariant calls == PassCalls(owners[..i], before)
    {
      assert owners[..i + 1][..i] == owners[..i];
      calls := calls + OwnerCalls(owners[i], before);
    }
    assert owners[..|owners|] == owners;
  }

  function PassCalls(owners: seq<Damage>, before: bool): seq<Call> {
    if owners == [] then []
    else PassCalls(owners[..|owners| - 1], before) + OwnerCalls(owners[|owners| - 1], before)
  }

  function CallOwner(c: Call): Owner {
    match c
    case WholeWindow(id) => Window(id)
    case Decoration(id, _) => Window(id)
    case PreWorkspace(id, _) => Workspace(id)
    case WorkspaceWindows(id) => Workspace(id)
    case LayerBox(id) => Layer(id)
  }

  /** The call is made for some record. */
  ghost predicate MadeFor(owners: seq<Damage>, before: bool, c: Call) {
    exists i :: 0 <= i < |owners| && c in OwnerCalls(owners[i], before)
  }

  lemma MadeForMore(owners: seq<Damage>, d: Damage, before: bool, c: Call)
    ensures MadeFor(owners + [d], before, c) <==> MadeFor(owners, before, c) || c in OwnerCalls(d, before)
  {
    var all := owners + [d];
    assert all[|owners|] == d;
    if MadeFor(owners, before, c) {
      var i :| 0 <= i < |owners| && c in OwnerCalls(owners[i], before);
      assert all[i] == owners[i];
    }
    if MadeFor(all, before, c) {
      var i :| 0 <= i < |all| && c in OwnerCalls(all[i], before);
      assert i < |owners| ==> all[i] == owners[i];
    }
  }

  lemma {:induction false} PassMembers(owners: seq<Damage>, before: bool, c: Call)
    ensures c in PassCalls(owners, before) <==> MadeFor(owners, before, c)
  {
    hide OwnerCalls;
    if owners != [] {
      var init, last := owners[..|owners| - 1], owners[|owners| - 1];
      PassMembers(init, before, c);
      MadeForMore(init, last, before, c);
      assert owners == init + [last];
    }
  }

  ghost predicate NoRepeats(cs: seq<Call>) {
    forall i, j :: 0 <= i < j < |cs| ==> cs[i] != cs[j]
  }

  /** No damage call is made twice in a pass. */
  lemma {:induction false} PassHasNoRepeats(owners: seq<Damage>, before: bool)
    requires forall i, j :: 0 <= i < j < |owners| ==> owners[i].owner != owners[j].owner
    ensures NoRepeats(PassCalls(owners, before))
    ensures forall c :: c in PassCalls(owners, before) ==> Recorded(owners, CallOwner(c))
  {
    if owners != [] {
      var init, last := owners[..|owners| - 1], owners[|owners| - 1];
      PassHasNoRepeats(init, before);
      assert NoRepeats(OwnerCalls(last, before));
      assert forall c :: c in OwnerCalls(last, before) ==> CallOwner(c) == last.owner;
      forall c | c in PassCalls(init, before)
        ensures CallOwner(c) != last.owner && Recorded(owners, CallOwner(c))
      {
        var i :| 0 <= i < |init| && init[i].owner == CallOwner(c);
        assert owners[i] == init[i];
      }
      assert owners[|owners| - 1].owner == last.owner;
      DisjointRuns(PassCalls(init, before), OwnerCalls(last, before), last.owner);
    }
  }

  lemma DisjointRuns(a: seq<Call>, b: seq<Call>, o: Owner)
    requires NoRepeats(a) && NoRepeats(b)
    requires (forall c :: c in a ==> CallOwner(c) != o) && (forall c :: c in b ==> CallOwner(c) == o)
    ensures NoRepeats(a + b)
  {
    var cs := a + b;
    forall i, j | 0 <= i < j < |cs|
      ensures cs[i] != cs[j]
    {
      if i < |a| <= j {
        assert cs[i] in a && cs[j] in b;
      }
    }
  }

  /** A call damages this part of a window; damaging a whole window damages all its decorations. */
  predicate Damages(c: Call, id: int, part: Policy) {
    c == WholeWindow(id) || c == Decoration(id, part)
  }

  /** Batching changes nothing: a part of a window is damaged in a pass exactly when some variable
      asks for it -- for the part itself or for the entire window -- so no variable's damage is
      lost and none is invented. */
  lemma {:induction false} BatchingIsFaithful(vars: seq<Variable>, mons: Monitors, owners: seq<Damage>, before: bool, id: int, part: Policy)
    requires Batched(vars, mons, owners) && part != NoDamage
    ensures (exists c :: c in PassCalls(owners, before) && Damages(c, id, part)) <==>
            Asked(vars, mons, Window(id), part) || Asked(vars, mons, Window(id), Entire)
  {
    var i := IndexOf(owners, Window(id));
    WindowDamage(owners, before, id, part);
    if i == |owners| {
      NotRecorded(vars, mons, owners, Window(id));
    }
  }

  /** The same for workspaces and layers: before the change each animated one is damaged, on its
      monitor; after it, those for which some variable asks to damage them entirely. */
  lemma {:induction false} OthersAreFaithful(vars: seq<Variable>, mons: Monitors, owners: seq<Damage>, id: int, monitor: int)
    requires Batched(vars, mons, owners)
    ensures PreWorkspace(id, monitor) in PassCalls(owners, true) <==>
            Animated(vars, mons, Workspace(id)) && monitor == mons[Workspace(id)]
    ensures LayerBox(id) in PassCalls(owners, true) <==> Animated(vars, mons, Layer(id))
    ensures WorkspaceWindows(id) in PassCalls(owners, false) <==> Asked(vars, mons, Workspace(id), Entire)
    ensures LayerBox(id) in PassCalls(owners, false) <==> Asked(vars, mons, Layer(id), Entire)
  {
    hide PassCalls, Batched;
    RecordExact(vars, mons, owners, Workspace(id));
    RecordExact(vars, mons, owners, Layer(id));
    OneCall(owners, true, PreWorkspace(id, monitor));
    OneCall(owners, true, LayerBox(id));
    OneCall(owners, false, WorkspaceWindows(id));
    OneCall(owners, false, LayerBox(id));
  }

  /** The record of an owner, if it has one, says what is asked for it. */
  lemma RecordExact(vars: seq<Variable>, mons: Monitors, owners: seq<Damage>, o: Owner)
    requires Batched(vars, mons, owners)
    ensures var i := IndexOf(owners, o);
            && (i < |owners| <==> Animated(vars, mons, o))
            && (i < |owners| ==> o in mons && owners[i].monitor == mons[o])
            && (i < |owners| && owners[i].entire <==> Asked(vars, mons, o, Entire))
    ensures forall i, j :: 0 <= i < j < |owners| ==> owners[i].owner != owners[j].owner
  {
    var i := IndexOf(owners, o);
    if i == |owners| {
      NotRecorded(vars, mons, owners, o);
    } else {
      assert Recorded(owners, o);
      assert owners[i].Has(Entire) <==> Asked(vars, mons, o, Entire);
    }
    assert Recorded(owners, o) <==> i < |owners|;
  }

  /** A call is made exactly when the record of its owner makes it. */
  lemma {:induction false} OneCall(owners: seq<Damage>, before: bool, c: Call)
    requires forall i, j :: 0 <= i < j < |owners| ==> owners[i].owner != owners[j].owner
    ensures var i := IndexOf(owners, CallOwner(c));
            c in PassCalls(owners, before) <==> i < |owners| && c in OwnerCalls(owners[i], before)
  {
    hide PassCalls, OwnerCalls, CallOwner;
    PassMembers(owners, before, c);
    var i := IndexOf(owners, CallOwner(c));
    if MadeFor(owners, before, c) {
      var j :| 0 <= j < |owners| && c in OwnerCalls(owners[j], before);
      CallIsOwners(owners[j], before, c);
      assert i == j;
    }
  }

  lemma CallIsOwners(d: Damage, before: bool, c: Call)
    requires c in OwnerCalls(d, before)
    ensures CallOwner(c) == d.owner
  {
  }

  lemma CallMeans(d: Damage, before: bool, c: Call, id: int, part: Policy)
    requires c in OwnerCalls(d, before) && Damages(c, id, part) && part != NoDamage
    ensures d.owner == Window(id) && (d.Has(part) || d.Has(Entire))
  {
  }

  lemma CallMade(d: Damage, before: bool, id: int, part: Policy)
    requires d.owner == Window(id) && (d.Has(part) || d.Has(Entire)) && part != NoDamage
    ensures (if d.entire then WholeWindow(id) else Decoration(id, part)) in OwnerCalls(d, before)
  {
  }

  lemma {:induction false} WindowDamage(owners: seq<Damage>, before: bool, id: int, part: Policy)
    requires part != NoDamage
    requires forall i, j :: 0 <= i < j < |owners| ==> owners[i].owner != owners[j].owner
    ensures var i := IndexOf(owners, Window(id));
            (exists c :: c in PassCalls(owners, before) && Damages(c, id, part)) <==>
            i < |owners| && (owners[i].Has(part) || owners[i].Has(Entire))
  {
    hide PassCalls, OwnerCalls;
    var i := IndexOf(owners, Window(id));
    if i < |owners| && (owners[i].Has(part) || owners[i].Has(Entire)) {
      var c := if owners[i].entire then WholeWindow(id) else Decoration(id, part);
      CallMade(owners[i], before, id, part);
      CallOfRecord(owners, before, i, c);
      assert Damages(c, id, part);
    }
    forall c | c in PassCalls(owners, before) && Damages(c, id, part)
      ensures i < |owners| && (owners[i].Has(part) || owners[i].Has(Entire))
    {
      RecordOfCall(owners, before, c, id, part);
    }
  }

  lemma {:induction false} CallOfRecord(owners: seq<Damage>, before: bool, i: nat, c: Call)
    requires i < |owners| && c in OwnerCalls(owners[i], before)
    ensures c in PassCalls(owners, before)
  {
    PassMembers(owners, before, c);
  }

  lemma {:induction false} RecordOfCall(owners: seq<Damage>, before: bool, c: Call, id: int, part: Policy)
    requires part != NoDamage && c in PassCalls(owners, before) && Damages(c, id, part)
    requires forall i, j :: 0 <= i < j < |owners| ==> owners[i].owner != owners[j].owner
    ensures var i := IndexOf(owners, Window(id));
            i < |owners| && (owners[i].Has(part) || owners[i].Has(Entire))
  {
    hide PassCalls, OwnerCalls, Damages;
    PassMembers(owners, before, c);
    var j :| 0 <= j < |owners| && c in OwnerCalls(owners[j], before);
    CallMeans(owners[j], before, c, id, part);
    assert IndexOf(owners, Window(id)) == j;
  }
}
