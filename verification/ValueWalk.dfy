/**
 The memoized, cycle-cutting walk that builds a durable field's value shape, against the naive
 expansion of its type.
 */
module ValueWalk {
  import opened Wrappers
  import opened ValueShapes
  import opened ValueContainment

  datatype Refusal =
    | ValueCycle
    | OverWide
    | OverDeep
    | NotDurable
    | IdentityIncomplete(anchor: Anchor)

  /** A failure the compiler owns: incoherent metadata, or a mint outside the builder's domain. */
  datatype Fault = IncoherentEnum | BuilderDomain

  // ----- the walk's state, as a value

  datatype State = State(
    memo: map<GArg, nat>,
    path: seq<GArg>,
    refusal: Option<Refusal>,
    fault: Option<Fault>,
    arena: Arena,
    walked: seq<GArg>)
  {
    ghost predicate Clean() { refusal.None? && fault.None? }

    ghost predicate Full() { |arena.nodes| >= MAX_ARENA }
  }

  /** Every remembered shape stands for the expansion of its type. */
  ghost predicate Truthful(reg: Registry, memo: map<GArg, nat>, nodes: seq<Node>)
    requires WellFormed(nodes)
  {
    forall ty :: ty in memo ==> memo[ty] < |nodes| && Expands(reg, ty, Unfold(nodes, memo[ty]))
  }

  /** What holds between any two steps. The memo is truthful unless something was refused. */
  ghost predicate Inv(reg: Registry, s: State) {
    && Sound(s.arena)
    && (forall ty :: ty in s.memo ==> s.memo[ty] < |s.arena.nodes|)
    && (s.Clean() ==> Truthful(reg, s.memo, s.arena.nodes) && MemoClosed(reg, s.memo))
    && Distinct(s.walked) && (forall ty :: ty in s.memo ==> ty in s.walked)
  }

  predicate Composite(ty: GArg) { ty.Struct? || ty.Enum? }

  /** Whatever struct or enum a remembered type contains is remembered too. */
  ghost predicate MemoClosed(reg: Registry, memo: map<GArg, nat>) {
    forall ty :: ty in memo ==> PartsIn(reg, ty, memo)
  }

  ghost predicate PartsIn(reg: Registry, ty: GArg, memo: map<GArg, nat>) {
    forall b :: Contains(reg, ty, b) && Composite(b) ==> b in memo
  }

  ghost predicate Remembered(s: State, ty: GArg) {
    s.Clean() && Composite(ty) ==> ty in s.memo
  }

  ghost predicate AllRemembered(s: State, fields: seq<Field>) {
    forall i :: 0 <= i < |fields| ==> Remembered(s, fields[i].ty)
  }

  /** Every walked type is still on the path or already remembered. */
  ghost predicate Accounted(s: State) {
    forall ty :: ty in s.walked ==> ty in s.path || ty in s.memo
  }

  /** What every call keeps: the path, every minted node, every remembered type, and the first
      refusal and fault. */
  ghost predicate Progress(s: State, s': State) {
    && s'.path == s.path
    && Extends(s.arena.nodes, s'.arena.nodes)
    && s.memo.Keys <= s'.memo.Keys && s.walked <= s'.walked
    && (s.refusal.Some? ==> s'.refusal == s.refusal)
    && (s.fault.Some? ==> s'.fault == s.fault)
  }

  /** Nothing was refused, and nothing failed but on a full arena. */
  ghost predicate Undisturbed(s: State, s': State) {
    s'.refusal == s.refusal && (s'.fault == s.fault || s'.Full())
  }

  ghost predicate Built(reg: Registry, s: State, ty: GArg, r: Option<nat>)
    requires Inv(reg, s)
  {
    && (r.None? ==> s.fault.Some?)
    && (r.Some? ==> r.value < |s.arena.nodes| && Accounted(s))
    && (s.Clean() ==> Expands(reg, ty, Unfold(s.arena.nodes, r.value)))
  }

  ghost predicate BuiltLeaves(reg: Registry, s: State, fields: seq<Field>, r: Option<seq<LeafRef>>)
    requires Inv(reg, s)
  {
    && (r.None? ==> s.fault.Some?)
    && (r.Some? ==>
          && LeavesBelow(r.value, |s.arena.nodes|) && Accounted(s)
          && SameNames(fields, r.value) && AllRemembered(s, fields))
    && (s.Clean() ==> ExpandsLeaves(reg, fields, UnfoldLeaves(s.arena.nodes, r.value, |s.arena.nodes|)))
  }

  ghost predicate BuiltMembers(reg: Registry, s: State, spelling: string, variants: seq<Variant>,
                               r: Option<seq<MemberRef>>)
    requires Inv(reg, s)
  {
    && (r.None? ==> s.fault.Some?)
    && (r.Some? ==>
          && MembersBelow(r.value, |s.arena.nodes|) && Accounted(s)
          && |r.value| == |variants|
          && (forall i :: 0 <= i < |variants| ==> SameNames(variants[i].payload, r.value[i].payload))
          && (forall i :: 0 <= i < |variants| ==> AllRemembered(s, variants[i].payload)))
    && (s.Clean() ==> ExpandsMembers(reg, spelling, variants, UnfoldMembers(s.arena.nodes, r.value, |s.arena.nodes|)))
  }

  ghost predicate SameNames(fields: seq<Field>, leaves: seq<LeafRef>) {
    |leaves| == |fields| && forall i :: 0 <= i < |fields| ==> leaves[i].name == fields[i].name
  }

  // ----- what a refusal or a fault blames

  ghost predicate IdentityOf(reg: Registry, ty: GArg, anchor: Anchor) {
    && ty.Enum? && ty.id in reg.enums && reg.enums[ty.id].Ready?
    && (|| anchor == SumAnchor(reg.enums[ty.id].spelling)
        || exists v :: 0 <= v < |reg.enums[ty.id].variants|
                       && anchor == MemberAnchor(reg.enums[ty.id].spelling + "." + reg.enums[ty.id].variants[v].name))
  }

  /** What the walk `w` shows, at its last type, for `why` to be said. */
  ghost predicate Shows(reg: Registry, w: seq<GArg>, why: Refusal) {
    && |w| > 0
    && var last := w[|w| - 1];
       match why
       case ValueCycle => last in w[..|w| - 1]
       case OverWide => last.Struct? && last.id in reg.structs && |reg.structs[last.id]| > 64
       case OverDeep => |w| > 32
       case NotDurable =>
         || last.Collection? || last.Group? || last.Param?
         || (last.Struct? && last.id !in reg.structs) || (last.Enum? && last.id !in reg.enums)
       case IdentityIncomplete(anchor) => anchor !in reg.ledger && IdentityOf(reg, last, anchor)
  }

  ghost predicate Culprit(reg: Registry, root: GArg, why: Refusal) {
    exists w :: IsWalk(reg, w) && w[0] == root && Shows(reg, w, why)
  }

  /** The last type of `w` has incoherent metadata, or breaks the builder's own widths and names. */
  ghost predicate Breaks(reg: Registry, w: seq<GArg>, fault: Fault) {
    && |w| > 0
    && var last := w[|w| - 1];
       match fault
       case IncoherentEnum => last.Enum? && last.id in reg.enums && reg.enums[last.id].Incoherent?
       case BuilderDomain =>
         || (last.Struct? && last.id in reg.structs && !Named(reg.structs[last.id]))
         || (last.Enum? && last.id in reg.enums && reg.enums[last.id].Ready?
             && !EnumFits(reg.enums[last.id].variants))
  }

  ghost predicate Faulty(reg: Registry, root: GArg, fault: Fault) {
    exists w :: IsWalk(reg, w) && w[0] == root && Breaks(reg, w, fault)
  }

  /** A new refusal, and a new fault short of a full arena, each has its walk from `root`. */
  ghost predicate Blamed(reg: Registry, root: GArg, s: State, s': State) {
    && (s.refusal.None? && s'.refusal.Some? && s'.fault.None? ==> Culprit(reg, root, s'.refusal.value))
    && (s.fault.None? && s'.fault.Some? ==> s'.Full() || Faulty(reg, root, s'.fault.value))
  }

  lemma BlamedChains(reg: Registry, root: GArg, s: State, t: State, u: State)
    requires Progress(s, t) && Progress(t, u) && Blamed(reg, root, s, t) && Blamed(reg, root, t, u)
    ensures Blamed(reg, root, s, u)
  {
    hide Culprit, Faulty;
  }

  /** Two steps as one. */
  lemma StepsChain(reg: Registry, root: GArg, s: State, t: State, u: State)
    requires Progress(s, t) && Progress(t, u) && Blamed(reg, root, s, t) && Blamed(reg, root, t, u)
    ensures Progress(s, u) && Blamed(reg, root, s, u)
    ensures s.path == t.path == u.path
    ensures (u.Clean() ==> t.Clean()) && (t.Clean() ==> s.Clean())
    ensures Undisturbed(s, t) && Undisturbed(t, u) ==> Undisturbed(s, u)
  {
    hide Blamed;
    BlamedChains(reg, root, s, t, u);
  }

  lemma UndisturbedBlamed(reg: Registry, root: GArg, s: State, s': State)
    requires Undisturbed(s, s')
    ensures Blamed(reg, root, s, s')
  {
  }

  lemma RefusalBlamed(reg: Registry, w: seq<GArg>, why: Refusal, s: State, s': State)
    requires IsWalk(reg, w) && Shows(reg, w, why) && s'.fault == s.fault
    requires s'.refusal == s.refusal || s'.refusal == Some(why)
    ensures |w| > 0 && Blamed(reg, w[0], s, s')
  {
    hide Shows;
  }

  lemma FaultBlamed(reg: Registry, w: seq<GArg>, fault: Fault, s: State, s': State)
    requires IsWalk(reg, w) && Breaks(reg, w, fault) && s'.refusal == s.refusal
    requires s'.fault == s.fault || s'.fault == Some(fault)
    ensures Blamed(reg, w[0], s, s')
  {
    hide Breaks;
  }

  /** A mint is at fault only on a full arena or a node outside the builder's domain. */
  lemma MintBlamed(reg: Registry, w: seq<GArg>, s: State, node: Node)
    requires Inv(reg, s) && |s.arena.depths| == |s.arena.nodes| && Below(node, |s.arena.nodes|) && IsWalk(reg, w)
    requires Admissible(node) || Breaks(reg, w, BuilderDomain)
    ensures Blamed(reg, w[0], s, Minted(s, node).0)
  {
    assert |w| > 0;
    hide Inv, Breaks, Admissible, IsWalk, Progress;
    MintedMeans(reg, s, node);
    if Breaks(reg, w, BuilderDomain) {
      FaultBlamed(reg, w, BuilderDomain, s, Minted(s, node).0);
    } else {
      UndisturbedBlamed(reg, w[0], s, Minted(s, node).0);
    }
  }

  /** The types of `fields` lie one step beyond the path. */
  ghost predicate PartsOf(reg: Registry, path: seq<GArg>, fields: seq<Field>) {
    && path != [] && IsWalk(reg, path)
    && forall i :: 0 <= i < |fields| ==> Contains(reg, path[|path| - 1], fields[i].ty)
  }

  /** `variants` are the last ones of the enum on top of the path. */
  ghost predicate VariantsOf(reg: Registry, path: seq<GArg>, spelling: string, variants: seq<Variant>) {
    && path != [] && IsWalk(reg, path)
    && var last := path[|path| - 1];
       && last.Enum? && last.id in reg.enums && reg.enums[last.id].Ready? && reg.enums[last.id].spelling == spelling
       && var all := reg.enums[last.id].variants;
          |variants| <= |all| && variants == all[|all| - |variants|..]
  }

  lemma PartsRest(reg: Registry, path: seq<GArg>, fields: seq<Field>)
    requires PartsOf(reg, path, fields) && fields != []
    ensures PartsOf(reg, path, fields[1..]) && IsWalk(reg, path + [fields[0].ty])
  {
    hide Contains;
    assert Contains(reg, path[|path| - 1], fields[0].ty);
    WalkSnoc(reg, path, fields[0].ty);
    forall i | 0 <= i < |fields[1..]| ensures Contains(reg, path[|path| - 1], fields[1..][i].ty) {
      assert fields[1..][i] == fields[i + 1];
    }
  }

  lemma VariantsRest(reg: Registry, path: seq<GArg>, spelling: string, variants: seq<Variant>)
    requires VariantsOf(reg, path, spelling, variants) && variants != []
    ensures VariantsOf(reg, path, spelling, variants[1..]) && PartsOf(reg, path, variants[0].payload)
    ensures IdentityOf(reg, path[|path| - 1], AnchorOf(spelling, variants[0]))
  {
    var last := path[|path| - 1];
    var all := reg.enums[last.id].variants;
    var k := |all| - |variants|;
    assert variants[0] == all[k] && variants[1..] == all[k + 1..];
    forall i | 0 <= i < |variants[0].payload| ensures Contains(reg, last, variants[0].payload[i].ty) {
      assert all[k].payload[i].ty == variants[0].payload[i].ty;
    }
  }

  lemma StructParts(reg: Registry, path: seq<GArg>)
    requires path != [] && IsWalk(reg, path)
    requires var last := path[|path| - 1]; last.Struct? && last.id in reg.structs
    ensures PartsOf(reg, path, reg.structs[path[|path| - 1].id])
  {
    var last := path[|path| - 1];
    var fields := reg.structs[last.id];
    forall i | 0 <= i < |fields| ensures Contains(reg, last, fields[i].ty) { assert fields[i].ty == fields[i].ty; }
  }

  /** A shape deeper than the bound has a walk longer than it. */
  lemma TooDeep(reg: Registry, s: State, ty: GArg, node: nat)
    requires Inv(reg, s) && s.Clean() && Built(reg, s, ty, Some(node)) && s.arena.depths[node] > MAX_DURABLE_VALUE_DEPTH
    ensures Culprit(reg, ty, OverDeep)
  {
    FieldDecided(reg, s, ty, node);
    ExpandsWalks(reg, ty, Unfold(s.arena.nodes, node));
    var w :| IsWalk(reg, w) && w[0] == ty && !(|w| <= MAX_DURABLE_VALUE_DEPTH && AllDurable(reg, w));
    assert Shows(reg, w, OverDeep);
  }

  // ----- the path and the types still to meet

  ghost function OnPath(path: seq<GArg>): set<GArg> { set ty | ty in path }

  /** How many declared types are not on the path. */
  ghost function Left(reg: Registry, path: seq<GArg>): nat { |Universe(reg) - OnPath(path)| }

  lemma LeftDrops(reg: Registry, path: seq<GArg>, ty: GArg)
    requires ty !in path
    ensures ty in Universe(reg) ==> Left(reg, path + [ty]) < Left(reg, path)
    ensures ty !in Universe(reg) ==> Left(reg, path + [ty]) == Left(reg, path)
  {
    var before, after := Universe(reg) - OnPath(path), Universe(reg) - OnPath(path + [ty]);
    assert after == before - {ty};
    if ty in Universe(reg) { assert ty in before; }
  }

  /** Every type on the path expands to a tree higher than `h`. */
  ghost predicate Above(reg: Registry, path: seq<GArg>, h: nat) {
    forall i :: 0 <= i < |path| ==> Higher(reg, path[i], h)
  }

  ghost predicate Higher(reg: Registry, ty: GArg, h: nat) {
    exists t :: Expands(reg, ty, t) && Height(t) > h
  }

  lemma AboveLower(reg: Registry, path: seq<GArg>, h: nat, lower: nat)
    requires Above(reg, path, h) && lower <= h
    ensures Above(reg, path, lower)
  {
    forall i | 0 <= i < |path| ensures Higher(reg, path[i], lower) {
      assert Higher(reg, path[i], h);
    }
  }

  /** A type that expands is never met again on its own path. */
  lemma NotOnPath(reg: Registry, path: seq<GArg>, ty: GArg, tree: Tree)
    requires Expands(reg, ty, tree) && Above(reg, path, Height(tree))
    ensures ty !in path
  {
    if ty in path {
      var i :| 0 <= i < |path| && path[i] == ty;
      assert Higher(reg, path[i], Height(tree));
      var t :| Expands(reg, ty, t) && Height(t) > Height(tree);
      ExpandsOnce(reg, ty, t, tree);
      assert false;
    }
  }

  lemma PushAbove(reg: Registry, path: seq<GArg>, ty: GArg, tree: Tree, h: nat)
    requires Expands(reg, ty, tree) && Above(reg, path, Height(tree)) && h < Height(tree)
    ensures Above(reg, path + [ty], h)
  {
    AboveLower(reg, path, Height(tree), h);
    forall i | 0 <= i < |path + [ty]| ensures Higher(reg, (path + [ty])[i], h) {
      if i < |path| { assert Higher(reg, path[i], h); } else { assert Expands(reg, ty, tree); }
    }
  }

  lemma TruthfulGrows(reg: Registry, memo: map<GArg, nat>, nodes: seq<Node>, nodes': seq<Node>)
    requires WellFormed(nodes) && WellFormed(nodes') && Extends(nodes, nodes') && Truthful(reg, memo, nodes)
    ensures Truthful(reg, memo, nodes')
  {
    forall ty | ty in memo ensures Expands(reg, ty, Unfold(nodes', memo[ty])) {
      UnfoldStable(nodes, nodes', memo[ty]);
    }
  }

  // ----- minting

  predicate LeavesNamed(leaves: seq<LeafRef>) {
    forall i :: 0 <= i < |leaves| ==> leaves[i].name != ""
  }

  /** The builder's own domain: arities and leaf names. */
  predicate Admissible(node: Node) {
    match node
    case ScalarNode(_) => true
    case StructNode(leaves) => |leaves| <= MAX_STRUCT_LEAVES && LeavesNamed(leaves)
    case EnumNode(_, members) =>
      && |members| <= MAX_VARIANTS
      && forall i :: 0 <= i < |members| ==>
           |members[i].payload| <= MAX_PAYLOAD_FIELDS && LeavesNamed(members[i].payload)
  }

  /** One checked mint. */
  function Minted(s: State, node: Node): (State, Option<nat>)
    requires |s.arena.depths| == |s.arena.nodes| && Below(node, |s.arena.nodes|)
  {
    match if Admissible(node) then Intern(s.arena, node) else None
    case Some((at, arena)) => (s.(arena := arena), Some(at))
    case None => (s.(fault := if s.fault.None? then Some(BuilderDomain) else s.fault), None)
  }

  lemma MintedMeans(reg: Registry, s: State, node: Node)
    requires Inv(reg, s) && Below(node, |s.arena.nodes|)
    ensures var (s', r) := Minted(s, node);
            && Inv(reg, s') && Progress(s, s') && s'.refusal == s.refusal && s'.memo == s.memo && s'.walked == s.walked
            && (r.None? ==> s'.fault.Some? && s'.arena == s.arena && (Admissible(node) ==> s'.Full()))
            && (r.Some? ==>
                  && r.value < |s'.arena.nodes| && s'.fault == s.fault
                  && Unfold(s'.arena.nodes, r.value) == NodeTree(s.arena.nodes, node))
  {
    hide Sound, WellFormed, Unfold, Truthful;
    SoundIsWellFormed(s.arena);
    InternMeans(s.arena, node);
    var (s', r) := Minted(s, node);
    if s'.Clean() {
      SoundIsWellFormed(s'.arena);
      TruthfulGrows(reg, s.memo, s.arena.nodes, s'.arena.nodes);
    }
  }

  lemma SoundIsWellFormed(a: Arena)
    requires Sound(a)
    ensures WellFormed(a.nodes) && |a.depths| == |a.nodes|
  {
  }

  // ----- steps of the walk

  lemma ProgressChains(s: State, t: State, u: State)
    requires Progress(s, t) && Progress(t, u)
    ensures Progress(s, u)
    ensures Undisturbed(s, t) && Undisturbed(t, u) ==> Undisturbed(s, u)
  {
  }

  lemma RefusalKeepsInv(reg: Registry, s: State, s': State)
    requires Inv(reg, s) && Accounted(s) && s' == s.(refusal := s'.refusal)
    requires (s.refusal.Some? ==> s'.refusal == s.refusal)
    ensures Inv(reg, s') && Accounted(s') && Progress(s, s')
  {
  }

  lemma InvShape(reg: Registry, s: State)
    requires Inv(reg, s)
    ensures |s.arena.depths| == |s.arena.nodes|
  {
  }

  lemma FaultKeepsInv(reg: Registry, s: State, s': State)
    requires Inv(reg, s) && Accounted(s) && s' == s.(fault := s'.fault) && s'.fault.Some?
    requires (s.fault.Some? ==> s'.fault == s.fault)
    ensures Inv(reg, s') && Accounted(s') && Progress(s, s') && |s'.arena.depths| == |s'.arena.nodes|
  {
  }

  lemma ProgressPath(s: State, t: State)
    requires Progress(s, t)
    ensures t.path == s.path && (t.Clean() ==> s.Clean())
  {
  }

  lemma NothingDisturbed(s: State)
    ensures Progress(s, s) && Undisturbed(s, s)
  {
  }

  lemma InUniverse(reg: Registry, ty: GArg)
    ensures ty in Universe(reg) <==> (ty.Struct? && ty.id in reg.structs) || (ty.Enum? && ty.id in reg.enums)
  {
  }

  function Pushed(s: State, ty: GArg): State {
    s.(path := s.path + [ty], walked := s.walked + [ty])
  }

  lemma PushedInv(reg: Registry, s: State, ty: GArg)
    requires Inv(reg, s) && Accounted(s) && ty !in s.path && ty !in s.memo
    ensures Inv(reg, Pushed(s, ty)) && Accounted(Pushed(s, ty))
  {
    assert ty !in s.walked;
  }

  /** After the walk of `ty` the path is popped, and a shape that was built is remembered. */
  function Popped(s: State, ty: GArg, r: Option<nat>): State
    requires |s.path| > 0
  {
    s.(path := s.path[..|s.path| - 1], memo := if r.Some? then s.memo[ty := r.value] else s.memo)
  }

  lemma PoppedInv(reg: Registry, s: State, built: State, ty: GArg, r: Option<nat>)
    requires Inv(reg, s) && Inv(reg, built) && Progress(Pushed(s, ty), built) && Built(reg, built, ty, r)
    requires built.Clean() ==> PartsIn(reg, ty, built.memo)
    ensures Remembered(Popped(built, ty, r), ty)
    ensures Inv(reg, Popped(built, ty, r)) && Progress(s, Popped(built, ty, r))
    ensures Built(reg, Popped(built, ty, r), ty, r)
    ensures Undisturbed(Pushed(s, ty), built) ==> Undisturbed(s, Popped(built, ty, r))
  {
    assert (s.path + [ty])[..|s.path|] == s.path;
    assert ty in s.walked + [ty];
  }

  lemma BlamedPopped(reg: Registry, root: GArg, s: State, built: State, ty: GArg, r: Option<nat>)
    requires Blamed(reg, root, Pushed(s, ty), built) && |built.path| > 0
    ensures Blamed(reg, root, s, Popped(built, ty, r))
  {
    hide Culprit, Faulty;
  }

  /** The identity resolver of one durable graph, as far as value shapes go. */
  class IdentityResolver {
    const reg: Registry
    var memo: map<GArg, nat>
    var path: seq<GArg>
    var refusal: Option<Refusal>
    var fault: Option<Fault>
    var arena: Arena
    /** Every struct and enum walked, in order. */
    ghost var walked: seq<GArg>

    constructor (reg: Registry, arena: Arena)
      requires Sound(arena)
      ensures this.reg == reg && this.arena == arena && path == [] && walked == []
      ensures refusal.None? && fault.None? && Inv(reg, Snap()) && Accounted(Snap())
    {
      this.reg, this.arena := reg, arena;
      memo, path, refusal, fault, walked := map[], [], None, None, [];
    }

    ghost function Snap(): State
      reads this
    {
      State(memo, path, refusal, fault, arena, walked)
    }

    /** The first refusal is kept. */
    method Refuse(why: Refusal)
      modifies this`refusal
      ensures refusal == if old(refusal).None? then Some(why) else old(refusal)
    {
      if refusal.None? { refusal := Some(why); }
    }

    method CheckedMint(node: Node) returns (r: Option<nat>)
      requires |arena.depths| == |arena.nodes| && Below(node, |arena.nodes|)
      modifies this`arena, this`fault
      ensures (Snap(), r) == Minted(old(Snap()), node)
    {
      if Admissible(node) {
        var minted := Intern(arena, node);
        if minted.Some? {
          arena := minted.value.1;
          return Some(minted.value.0);
        }
      }
      if fault.None? { fault := Some(BuilderDomain); }
      r := None;
    }

    /** Refuse and answer the placeholder the graph is discarded with. */
    method Placeholder(why: Refusal, node: Node, ghost ty: GArg, ghost w: seq<GArg>) returns (r: Option<nat>)
      requires Inv(reg, Snap()) && Accounted(Snap()) && (node == ScalarNode(INT_SCALAR) || node == StructNode([]))
      requires IsWalk(reg, w) && Shows(reg, w, why)
      modifies this
      ensures Inv(reg, Snap()) && Progress(old(Snap()), Snap()) && Built(reg, Snap(), ty, r) && refusal.Some?
      ensures Blamed(reg, w[0], old(Snap()), Snap())
    {
      hide Shows, Blamed, Inv, IsWalk;
      ghost var was := Snap();
      Refuse(why);
      ghost var mid := Snap();
      RefusalKeepsInv(reg, was, mid);
      InvShape(reg, mid);
      RefusalBlamed(reg, w, why, was, mid);
      MintedMeans(reg, mid, node);
      MintBlamed(reg, w, mid, node);
      r := CheckedMint(node);
      ProgressChains(was, mid, Snap());
      BlamedChains(reg, w[0], was, mid, Snap());
    }

    /** An anchor's live ledger id; a missing one is refused, unless a fault already stopped. */
    method Resolve(anchor: Anchor) returns (id: LedgerId)
      modifies this`refusal
      ensures refusal == if old(refusal).None? && fault.None? && anchor !in reg.ledger
                         then Some(IdentityIncomplete(anchor)) else old(refusal)
      ensures refusal.None? && fault.None? ==> anchor in reg.ledger && id == reg.ledger[anchor]
    {
      if fault.Some? { return 0; }
      if anchor in reg.ledger { return reg.ledger[anchor]; }
      Refuse(IdentityIncomplete(anchor));
      return 0;
    }

    /** Build the shape of `ty`. `goal` is the expansion of `ty`, when it has one: then nothing
        is refused. */
    method BuildValueShape(ty: GArg, ghost goal: Option<Tree>) returns (r: Option<nat>)
      requires Inv(reg, Snap()) && Accounted(Snap())
      requires goal.Some? ==> Expands(reg, ty, goal.value) && Above(reg, path, Height(goal.value))
      requires IsWalk(reg, path + [ty])
      modifies this
      ensures Inv(reg, Snap()) && Progress(old(Snap()), Snap()) && Built(reg, Snap(), ty, r)
      ensures Remembered(Snap(), ty)
      ensures goal.Some? ==> Undisturbed(old(Snap()), Snap())
      ensures Blamed(reg, (old(path) + [ty])[0], old(Snap()), Snap())
      decreases Left(reg, path), 1, 1
    {
      hide Blamed;
      ghost var w := path + [ty];
      match ty {
        case Scalar(scalar) =>
          r := BuildScalar(scalar, ty);
          UndisturbedBlamed(reg, w[0], old(Snap()), Snap());
        case Nominal(_) =>
          r := BuildScalar(INT_SCALAR, ty);
          UndisturbedBlamed(reg, w[0], old(Snap()), Snap());
        case Collection(_) => r := Placeholder(NotDurable, ScalarNode(INT_SCALAR), ty, w);
        case Group(_) => r := Placeholder(NotDurable, ScalarNode(INT_SCALAR), ty, w);
        case Param(_) => r := Placeholder(NotDurable, ScalarNode(INT_SCALAR), ty, w);
        case _ =>
          if goal.Some? { NotOnPath(reg, path, ty, goal.value); }
          if ty in path {
            r := Placeholder(ValueCycle, ScalarNode(INT_SCALAR), ty, w);
          } else if ty in memo {
            UndisturbedBlamed(reg, w[0], Snap(), Snap());
            r := Some(memo[ty]);
          } else {
            r := WalkValue(ty, goal);
          }
      }
    }

    /** One durable field's value, its depth decided at the root. From a clean start, and short
        of a full arena, it stays clean exactly when every containment walk from `ty` is durable
        and within the depth bound; then the node stands for the expansion of `ty`. */
    method BuildFieldValue(ty: GArg) returns (r: Option<nat>)
      requires Inv(reg, Snap()) && Accounted(Snap()) && path == []
      modifies this
      ensures Inv(reg, Snap()) && Progress(old(Snap()), Snap()) && Built(reg, Snap(), ty, r)
      ensures Remembered(Snap(), ty)
      ensures Snap().Clean() ==> WithinLevels(reg, ty, MAX_DURABLE_VALUE_DEPTH) && ReachedWalked(reg, walked, ty)
      ensures old(Snap()).Clean() && WithinLevels(reg, ty, MAX_DURABLE_VALUE_DEPTH) ==> Snap().Clean() || Snap().Full()
      ensures Blamed(reg, ty, old(Snap()), Snap())
    {
      hide Blamed;
      ghost var goal := Expansion(reg, ty);
      ghost var was := Snap();
      WithinLevelsIffExpands(reg, ty, MAX_DURABLE_VALUE_DEPTH);
      assert IsWalk(reg, path + [ty]);
      r := BuildValueShape(ty, goal);
      if r.Some? {
        ghost var built := Snap();
        if arena.depths[r.value] > MAX_DURABLE_VALUE_DEPTH { Refuse(OverDeep); }
        RefusalKeepsInv(reg, built, Snap());
        FieldDecided(reg, built, ty, r.value);
        if built.Clean() { ReachableWalked(reg, built, ty); }
        ProgressChains(was, built, Snap());
        if built.Clean() && arena.depths[r.value] > MAX_DURABLE_VALUE_DEPTH { TooDeep(reg, built, ty, r.value); }
        DepthBlamed(reg, ty, built, Snap());
        BlamedChains(reg, ty, was, built, Snap());
      }
    }

    /** The stored fields of one product, in order: each one's identity and value. */
    method BuildProductFields(product: string, fields: seq<Field>) returns (r: Option<seq<(LedgerId, nat)>>)
      requires Inv(reg, Snap()) && Accounted(Snap()) && path == [] && Snap().Clean()
      modifies this
      ensures Inv(reg, Snap()) && Progress(old(Snap()), Snap())
      ensures !Snap().Full() ==> (Snap().Clean() <==> Storable(reg, product, fields))
      ensures Snap().Clean() ==> r.Some? && Stored(reg, arena.nodes, product, fields, r.value)
      ensures Snap().Clean() ==> FieldsWalked(reg, walked, fields)
      ensures ProductBlamed(reg, product, fields, Snap())
    {
      hide Blamed, ProductBlamed, WithinLevels, Inv, Accounted, ReachedWalked;
      InvWellFormed(reg, Snap());
      NothingBlamed(reg, product, Snap());
      var built := [];
      var i := 0;
      while i < |fields|
        invariant 0 <= i <= |fields|
        invariant Inv(reg, Snap()) && Accounted(Snap()) && path == [] && Progress(old(Snap()), Snap())
        invariant WellFormed(arena.nodes)
        invariant Snap().Clean() ==> Stored(reg, arena.nodes, product, fields[..i], built)
        invariant Snap().Clean() ==> FieldsWalked(reg, walked, fields[..i])
        invariant Snap().Clean() ==> Storable(reg, product, fields[..i])
        invariant Storable(reg, product, fields[..i]) ==> Snap().Clean() || Snap().Full()
        invariant ProductBlamed(reg, product, fields[..i], Snap())
      {
        var field := fields[i];
        ghost var was := Snap();
        var id := Resolve(FieldAnchor(product + "." + field.name));
        ghost var named := Snap();
        RefusalKeepsInv(reg, was, named);
        var value := BuildFieldValue(field.ty);
        ProgressChains(was, named, Snap());
        ProgressChains(old(Snap()), was, Snap());
        assert fields[..i + 1] == fields[..i] + [field];
        StorableSnoc(reg, product, fields[..i], field);
        ProductBlamedSnoc(reg, product, fields[..i], field, was, named, Snap());
        if value.None? {
          StorablePrefix(reg, product, fields, i + 1);
          ProductBlamedPrefix(reg, product, fields, i + 1, Snap());
          return None;
        }
        InvWellFormed(reg, was);
        InvWellFormed(reg, Snap());
        if Snap().Clean() {
          FieldsWalkedSnoc(reg, was.walked, walked, fields[..i], field);
          StoredSnoc(reg, was.arena.nodes, arena.nodes, product, fields[..i], built, field, id, value.value);
        }
        built := built + [(id, value.value)];
        i := i + 1;
      }
      assert fields[..i] == fields;
      r := Some(built);
    }

    method BuildScalar(scalar: nat, ghost ty: GArg) returns (r: Option<nat>)
      requires Inv(reg, Snap()) && Accounted(Snap()) && Expands(reg, ty, ScalarTree(scalar))
      modifies this`arena, this`fault
      ensures Inv(reg, Snap()) && Progress(old(Snap()), Snap()) && Built(reg, Snap(), ty, r)
      ensures Undisturbed(old(Snap()), Snap())
    {
      MintedMeans(reg, Snap(), ScalarNode(scalar));
      r := CheckedMint(ScalarNode(scalar));
    }

    /** Walk a struct or enum that is neither on the path nor remembered. */
    method WalkValue(ty: GArg, ghost goal: Option<Tree>) returns (r: Option<nat>)
      requires Inv(reg, Snap()) && Accounted(Snap()) && ty !in path && ty !in memo && (ty.Struct? || ty.Enum?)
      requires goal.Some? ==> Expands(reg, ty, goal.value) && Above(reg, path, Height(goal.value))
      requires IsWalk(reg, path + [ty])
      modifies this
      ensures Inv(reg, Snap()) && Progress(old(Snap()), Snap()) && Built(reg, Snap(), ty, r)
      ensures Remembered(Snap(), ty)
      ensures goal.Some? ==> Undisturbed(old(Snap()), Snap())
      ensures Blamed(reg, (old(path) + [ty])[0], old(Snap()), Snap())
      decreases Left(reg, path), 1, 0
    {
      hide Blamed;
      ghost var w := path + [ty];
      if ty.Struct? && ty.id !in reg.structs {
        r := Placeholder(NotDurable, StructNode([]), ty, w);
      } else if ty.Struct? && |reg.structs[ty.id]| > MAX_STRUCT_LEAVES {
        r := Placeholder(OverWide, ScalarNode(INT_SCALAR), ty, w);
      } else {
        r := Descend(ty, goal);
      }
    }

    /** Push `ty`, build it, pop it, and remember what was built. */
    method Descend(ty: GArg, ghost goal: Option<Tree>) returns (r: Option<nat>)
      requires Inv(reg, Snap()) && Accounted(Snap()) && ty !in path && ty !in memo && (ty.Struct? || ty.Enum?)
      requires ty.Struct? ==> ty.id in reg.structs && |reg.structs[ty.id]| <= MAX_STRUCT_LEAVES
      requires goal.Some? ==> Expands(reg, ty, goal.value) && Above(reg, path, Height(goal.value))
      requires IsWalk(reg, path + [ty])
      modifies this
      ensures Inv(reg, Snap()) && Progress(old(Snap()), Snap()) && Built(reg, Snap(), ty, r)
      ensures Remembered(Snap(), ty)
      ensures goal.Some? ==> Undisturbed(old(Snap()), Snap())
      ensures Blamed(reg, (old(path) + [ty])[0], old(Snap()), Snap())
      decreases Left(reg, path), 0, 0
    {
      hide Inv, Accounted, Progress, Built, Undisturbed, Above, Expands, Universe, Left, Height, IsWalk, Blamed;
      ghost var was := Snap();
      PushedInv(reg, was, ty);
      LeftDrops(reg, path, ty);
      if goal.Some? { PushAbove(reg, path, ty, goal.value, Height(goal.value) - 1); }
      InUniverse(reg, ty);
      path, walked := path + [ty], walked + [ty];
      assert Snap() == Pushed(was, ty);
      if ty.Struct? {
        r := BuildStructValue(ty, goal);
      } else {
        r := BuildEnumValue(ty, goal);
      }
      ghost var built := Snap();
      PoppedInv(reg, was, built, ty, r);
      ProgressPath(Pushed(was, ty), built);
      path := path[..|path| - 1];
      if r.Some? { memo := memo[ty := r.value]; }
      assert Snap() == Popped(built, ty, r);
      BlamedPopped(reg, (was.path + [ty])[0], was, built, ty, r);
    }

    /** The shape of a struct on top of the path, over its fields in declaration order. */
    method BuildStructValue(ty: GArg, ghost goal: Option<Tree>) returns (r: Option<nat>)
      requires Inv(reg, Snap()) && Accounted(Snap())
      requires ty.Struct? && ty.id in reg.structs && |reg.structs[ty.id]| <= MAX_STRUCT_LEAVES
      requires goal.Some? ==> Expands(reg, ty, goal.value) && Above(reg, path, Height(goal.value) - 1)
      requires path != [] && path[|path| - 1] == ty && IsWalk(reg, path)
      modifies this
      ensures Inv(reg, Snap()) && Progress(old(Snap()), Snap()) && Built(reg, Snap(), ty, r)
      ensures Snap().Clean() ==> PartsIn(reg, ty, memo)
      ensures goal.Some? ==> Undisturbed(old(Snap()), Snap())
      ensures Blamed(reg, old(path)[0], old(Snap()), Snap())
      decreases Left(reg, path), 4, 0
    {
      hide Blamed, PartsOf, Inv, Accounted, Above, PartsIn, BuiltLeaves, IsWalk;
      var fields := reg.structs[ty.id];
      StructParts(reg, path);
      var leaves := BuildLeaves(fields, if goal.Some? then Some(goal.value.leaves) else None);
      ghost var mid := Snap();
      LeavesShape(reg, mid, fields, leaves);
      if leaves.None? { return None; }
      InvShape(reg, mid);
      var node := StructNode(leaves.value);
      r := CheckedMint(node);
      StructDone(reg, path, mid, leaves.value);
      ProgressChains(old(Snap()), mid, Snap());
      BlamedChains(reg, path[0], old(Snap()), mid, Snap());
    }

    /** The shape of an enum on top of the path: its sum, then each member with its payload. */
    method BuildEnumValue(ty: GArg, ghost goal: Option<Tree>) returns (r: Option<nat>)
      requires Inv(reg, Snap()) && Accounted(Snap()) && ty.Enum?
      requires goal.Some? ==> Expands(reg, ty, goal.value) && Above(reg, path, Height(goal.value) - 1)
      requires path != [] && path[|path| - 1] == ty && IsWalk(reg, path)
      modifies this
      ensures Inv(reg, Snap()) && Progress(old(Snap()), Snap()) && Built(reg, Snap(), ty, r)
      ensures Snap().Clean() ==> PartsIn(reg, ty, memo)
      ensures goal.Some? ==> Undisturbed(old(Snap()), Snap())
      ensures Blamed(reg, old(path)[0], old(Snap()), Snap())
      decreases Left(reg, path), if ty in Universe(reg) then 5 else -1, 0
    {
      hide Blamed;
      if ty.id !in reg.enums {
        r := Placeholder(NotDurable, ScalarNode(INT_SCALAR), ty, path);
      } else if reg.enums[ty.id].Incoherent? {
        r := IncoherentPlaceholder(ty);
      } else {
        r := BuildReadyEnum(ty, goal);
      }
    }

    /** Incoherent metadata is the compiler's own fault, not a refusal. */
    method IncoherentPlaceholder(ghost ty: GArg) returns (r: Option<nat>)
      requires Inv(reg, Snap()) && Accounted(Snap())
      requires IsWalk(reg, path) && Breaks(reg, path, IncoherentEnum)
      modifies this
      ensures Inv(reg, Snap()) && Progress(old(Snap()), Snap()) && Built(reg, Snap(), ty, r) && fault.Some?
      ensures Blamed(reg, old(path)[0], old(Snap()), Snap())
    {
      hide Blamed, Breaks;
      ghost var was := Snap();
      if fault.None? { fault := Some(IncoherentEnum); }
      ghost var mid := Snap();
      FaultKeepsInv(reg, was, mid);
      FaultBlamed(reg, path, IncoherentEnum, was, mid);
      MintedMeans(reg, mid, ScalarNode(INT_SCALAR));
      MintBlamed(reg, path, mid, ScalarNode(INT_SCALAR));
      r := CheckedMint(ScalarNode(INT_SCALAR));
      BlamedChains(reg, path[0], was, mid, Snap());
    }

    method BuildReadyEnum(ty: GArg, ghost goal: Option<Tree>) returns (r: Option<nat>)
      requires Inv(reg, Snap()) && Accounted(Snap()) && ty.Enum? && ty.id in reg.enums && reg.enums[ty.id].Ready?
      requires goal.Some? ==> Expands(reg, ty, goal.value) && Above(reg, path, Height(goal.value) - 1)
      requires path != [] && path[|path| - 1] == ty && IsWalk(reg, path)
      modifies this
      ensures Inv(reg, Snap()) && Progress(old(Snap()), Snap()) && Built(reg, Snap(), ty, r)
      ensures Snap().Clean() ==> PartsIn(reg, ty, memo)
      ensures goal.Some? ==> Undisturbed(old(Snap()), Snap())
      ensures Blamed(reg, old(path)[0], old(Snap()), Snap())
      decreases Left(reg, path), 4, 0
    {
      hide Inv, Accounted, PartsIn, BuiltMembers, Above, Blamed, Breaks, VariantsOf, IsWalk, Left, Universe, OnPath;
      var info := reg.enums[ty.id];
      ghost var was := Snap();
      var sum := Resolve(SumAnchor(info.spelling));
      ghost var named := Snap();
      RefusalKeepsInv(reg, was, named);
      SumBlamed(reg, path, was, named);
      var members := BuildMembers(info.spelling, info.variants, if goal.Some? then Some(goal.value.members) else None);
      ghost var mid := Snap();
      ProgressChains(was, named, mid);
      BlamedChains(reg, path[0], was, named, mid);
      if members.None? {
        NoneBuilt(reg, mid, info.spelling, info.variants, ty);
        return None;
      }
      InvShape(reg, mid);
      MembersShape(reg, mid, info.spelling, info.variants, members.value);
      var node := EnumNode(sum, members.value);
      r := CheckedMint(node);
      EnumDone(reg, mid, ty.id, sum, members.value);
      EnumBlamed(reg, path, mid, sum, members.value);
      ProgressChains(was, mid, Snap());
      BlamedChains(reg, path[0], was, mid, Snap());
    }

    /** Each field's shape under its name, in order; the first failure stops. */
    method BuildLeaves(fields: seq<Field>, ghost goal: Option<Leaves>) returns (r: Option<seq<LeafRef>>)
      requires Inv(reg, Snap()) && Accounted(Snap())
      requires goal.Some? ==> ExpandsLeaves(reg, fields, goal.value) && Above(reg, path, LeavesHeight(goal.value))
      requires PartsOf(reg, path, fields)
      modifies this
      ensures Inv(reg, Snap()) && Progress(old(Snap()), Snap()) && BuiltLeaves(reg, Snap(), fields, r)
      ensures goal.Some? ==> Undisturbed(old(Snap()), Snap())
      ensures old(path) != [] && Blamed(reg, old(path)[0], old(Snap()), Snap())
      decreases Left(reg, path), 2, |fields|
    {
      hide Blamed, PartsOf, IsWalk;
      OnWalk(reg, path, fields);
      if fields == [] {
        UndisturbedBlamed(reg, path[0], Snap(), Snap());
        return Some([]);
      }
      PartsRest(reg, path, fields);
      if goal.Some? {
        AboveLower(reg, path, LeavesHeight(goal.value), Height(goal.value.tree));
        AboveLower(reg, path, LeavesHeight(goal.value), LeavesHeight(goal.value.rest));
      }
      var first := BuildValueShape(fields[0].ty, if goal.Some? then Some(goal.value.tree) else None);
      if first.None? { return None; }
      ghost var mid := Snap();
      var rest := BuildLeaves(fields[1..], if goal.Some? then Some(goal.value.rest) else None);
      ProgressChains(old(Snap()), mid, Snap());
      BlamedChains(reg, path[0], old(Snap()), mid, Snap());
      if rest.None? { return None; }
      r := Some([LeafRef(fields[0].name, first.value)] + rest.value);
      LeavesCons(reg, mid, Snap(), fields, first.value, rest.value);
    }

    /** Each member's identity and payload, in declaration order. */
    method BuildMembers(spelling: string, variants: seq<Variant>, ghost goal: Option<Members>)
      returns (r: Option<seq<MemberRef>>)
      requires Inv(reg, Snap()) && Accounted(Snap())
      requires goal.Some? ==>
        ExpandsMembers(reg, spelling, variants, goal.value) && Above(reg, path, MembersHeight(goal.value))
      requires VariantsOf(reg, path, spelling, variants)
      modifies this
      ensures Inv(reg, Snap()) && Progress(old(Snap()), Snap()) && BuiltMembers(reg, Snap(), spelling, variants, r)
      ensures goal.Some? ==> Undisturbed(old(Snap()), Snap())
      ensures old(path) != [] && Blamed(reg, old(path)[0], old(Snap()), Snap())
      decreases Left(reg, path), 3, |variants|
    {
      hide Blamed, VariantsOf, PartsOf, IsWalk, IdentityOf, Inv, Accounted, Above, BuiltMembers, BuiltLeaves, Left,
           Universe, OnPath, ExpandsMembers, ExpandsLeaves, MembersHeight, LeavesHeight, AnchorOf, Progress,
           Undisturbed;
      EnumOnTop(reg, path, spelling, variants);
      ghost var was := Snap();
      if variants == [] {
        NoMembers(reg, was, spelling, variants);
        NothingDisturbed(was);
        UndisturbedBlamed(reg, path[0], was, was);
        return Some([]);
      }
      VariantsRest(reg, path, spelling, variants);
      ghost var payloadGoal, restGoal := MembersSplit(reg, path, spelling, variants, goal);
      var first := BuildMember(spelling, variants[0], payloadGoal);
      ghost var mid := Snap();
      if first.None? {
        NoMembers(reg, mid, spelling, variants);
        return None;
      }
      var rest := BuildMembers(spelling, variants[1..], restGoal);
      StepsChain(reg, was.path[0], was, mid, Snap());
      MembersJoin(reg, mid, Snap(), spelling, variants, first.value, rest);
      r := if rest.None? then None else Some([first.value] + rest.value);
    }

    /** One member's identity and payload. */
    method BuildMember(spelling: string, variant: Variant, ghost goal: Option<Leaves>) returns (r: Option<MemberRef>)
      requires Inv(reg, Snap()) && Accounted(Snap())
      requires PartsOf(reg, path, variant.payload) && IdentityOf(reg, path[|path| - 1], AnchorOf(spelling, variant))
      requires goal.Some? ==>
        && AnchorOf(spelling, variant) in reg.ledger
        && ExpandsLeaves(reg, variant.payload, goal.value) && Above(reg, path, LeavesHeight(goal.value))
      modifies this
      ensures path == old(path) && Inv(reg, Snap()) && Progress(old(Snap()), Snap())
      ensures r.None? ==> fault.Some?
      ensures r.Some? ==> Accounted(Snap()) && BuiltLeaves(reg, Snap(), variant.payload, Some(r.value.payload))
      ensures r.Some? && Snap().Clean() ==>
        AnchorOf(spelling, variant) in reg.ledger && r.value.id == reg.ledger[AnchorOf(spelling, variant)]
      ensures goal.Some? ==> Undisturbed(old(Snap()), Snap())
      ensures Blamed(reg, old(path)[0], old(Snap()), Snap())
      decreases Left(reg, path), 3, 0
    {
      hide Blamed, PartsOf, IsWalk, IdentityOf, Inv, Accounted, Above, BuiltLeaves, Left, Universe, OnPath,
           ExpandsLeaves, LeavesHeight, AnchorOf, Progress, Undisturbed;
      OnWalk(reg, path, variant.payload);
      ghost var was := Snap();
      NothingDisturbed(was);
      var id := Resolve(AnchorOf(spelling, variant));
      ghost var named := Snap();
      RefusalKeepsInv(reg, was, named);
      IdentityBlamed(reg, path, AnchorOf(spelling, variant), was, named);
      var payload := BuildLeaves(variant.payload, goal);
      StepsChain(reg, was.path[0], was, named, Snap());
      LeavesShape(reg, Snap(), variant.payload, payload);
      if payload.Some? { r := Some(MemberRef(id, payload.value)); } else { r := None; }
    }
  }

  lemma OnWalk(reg: Registry, path: seq<GArg>, fields: seq<Field>)
    requires PartsOf(reg, path, fields)
    ensures path != [] && IsWalk(reg, path)
  {
  }

  lemma EnumOnTop(reg: Registry, path: seq<GArg>, spelling: string, variants: seq<Variant>)
    requires VariantsOf(reg, path, spelling, variants)
    ensures path != [] && IsWalk(reg, path)
    ensures IdentityOf(reg, path[|path| - 1], SumAnchor(spelling))
  {
  }

  lemma LeavesShape(reg: Registry, s: State, fields: seq<Field>, r: Option<seq<LeafRef>>)
    requires Inv(reg, s) && BuiltLeaves(reg, s, fields, r)
    ensures r.None? ==> s.fault.Some?
    ensures r.Some? ==> LeavesBelow(r.value, |s.arena.nodes|) && Accounted(s)
  {
  }

  /** What minting a struct over built leaves leaves. */
  lemma StructDone(reg: Registry, path: seq<GArg>, mid: State, leaves: seq<LeafRef>)
    requires Inv(reg, mid) && path != [] && IsWalk(reg, path) && LeavesBelow(leaves, |mid.arena.nodes|)
    requires var last := path[|path| - 1];
      && last.Struct? && last.id in reg.structs && |reg.structs[last.id]| <= MAX_STRUCT_LEAVES
      && BuiltLeaves(reg, mid, reg.structs[last.id], Some(leaves))
    ensures |mid.arena.depths| == |mid.arena.nodes|
    ensures var (s', r) := Minted(mid, StructNode(leaves));
            && Inv(reg, s') && Progress(mid, s') && Built(reg, s', path[|path| - 1], r)
            && (s'.Clean() ==> PartsIn(reg, path[|path| - 1], s'.memo))
            && (Named(reg.structs[path[|path| - 1].id]) ==> Undisturbed(mid, s'))
            && Blamed(reg, path[0], mid, s')
  {
    hide Inv, IsWalk, Admissible, Blamed;
    InvShape(reg, mid);
    var fields := reg.structs[path[|path| - 1].id];
    StructBuilt(reg, mid, fields, leaves);
    MintedMeans(reg, mid, StructNode(leaves));
    assert Named(fields) || Breaks(reg, path, BuilderDomain);
    MintBlamed(reg, path, mid, StructNode(leaves));
  }

  lemma MembersSplit(reg: Registry, path: seq<GArg>, spelling: string, variants: seq<Variant>, goal: Option<Members>)
    returns (payload: Option<Leaves>, rest: Option<Members>)
    requires variants != []
    requires goal.Some? ==>
      ExpandsMembers(reg, spelling, variants, goal.value) && Above(reg, path, MembersHeight(goal.value))
    ensures payload.Some? <==> goal.Some?
    ensures rest.Some? <==> goal.Some?
    ensures payload.Some? ==>
      && AnchorOf(spelling, variants[0]) in reg.ledger
      && ExpandsLeaves(reg, variants[0].payload, payload.value) && Above(reg, path, LeavesHeight(payload.value))
    ensures rest.Some? ==>
      ExpandsMembers(reg, spelling, variants[1..], rest.value) && Above(reg, path, MembersHeight(rest.value))
  {
    if goal.Some? {
      payload, rest := Some(goal.value.payload), Some(goal.value.rest);
      AboveLower(reg, path, MembersHeight(goal.value), LeavesHeight(payload.value));
      AboveLower(reg, path, MembersHeight(goal.value), MembersHeight(rest.value));
    } else {
      payload, rest := None, None;
    }
  }

  /** A member built before the rest, and the rest, make the list. */
  lemma MembersJoin(reg: Registry, mid: State, s: State, spelling: string, variants: seq<Variant>, first: MemberRef,
                    rest: Option<seq<MemberRef>>)
    requires Inv(reg, mid) && Inv(reg, s) && Progress(mid, s) && variants != []
    requires mid.Clean() ==>
      AnchorOf(spelling, variants[0]) in reg.ledger && first.id == reg.ledger[AnchorOf(spelling, variants[0])]
    requires BuiltLeaves(reg, mid, variants[0].payload, Some(first.payload))
    requires BuiltMembers(reg, s, spelling, variants[1..], rest)
    ensures BuiltMembers(reg, s, spelling, variants, if rest.None? then None else Some([first] + rest.value))
  {
    if rest.None? {
      MembersFail(reg, s, spelling, variants[1..]);
      NoMembers(reg, s, spelling, variants);
    } else {
      hide Inv, BuiltMembers, BuiltLeaves, AnchorOf;
      MembersCons(reg, mid, s, spelling, variants, first.id, first.payload, rest.value);
    }
  }

  lemma NoMembers(reg: Registry, s: State, spelling: string, variants: seq<Variant>)
    requires Inv(reg, s)
    ensures s.fault.Some? ==> BuiltMembers(reg, s, spelling, variants, None)
    ensures Accounted(s) ==> BuiltMembers(reg, s, spelling, [], Some([]))
  {
  }

  lemma MembersFail(reg: Registry, s: State, spelling: string, variants: seq<Variant>)
    requires Inv(reg, s) && BuiltMembers(reg, s, spelling, variants, None)
    ensures s.fault.Some?
  {
  }

  /** A missing identity of the enum on top of the path is what its refusal says. */
  lemma IdentityBlamed(reg: Registry, path: seq<GArg>, anchor: Anchor, s: State, s': State)
    requires path != [] && IsWalk(reg, path) && IdentityOf(reg, path[|path| - 1], anchor)
    requires s'.fault == s.fault
    requires s'.refusal == s.refusal || (anchor !in reg.ledger && s'.refusal == Some(IdentityIncomplete(anchor)))
    ensures Blamed(reg, path[0], s, s')
  {
    hide IsWalk, IdentityOf;
    if s'.refusal == s.refusal {
    } else {
      assert Shows(reg, path, IdentityIncomplete(anchor));
      RefusalBlamed(reg, path, IdentityIncomplete(anchor), s, s');
    }
  }

  lemma SumBlamed(reg: Registry, path: seq<GArg>, s: State, s': State)
    requires path != [] && IsWalk(reg, path)
    requires var last := path[|path| - 1]; last.Enum? && last.id in reg.enums && reg.enums[last.id].Ready?
    requires var anchor := SumAnchor(reg.enums[path[|path| - 1].id].spelling);
      && s'.fault == s.fault
      && (s'.refusal == s.refusal || (anchor !in reg.ledger && s'.refusal == Some(IdentityIncomplete(anchor))))
    ensures Blamed(reg, path[0], s, s')
    ensures var info := reg.enums[path[|path| - 1].id]; VariantsOf(reg, path, info.spelling, info.variants)
  {
    hide IsWalk, Blamed;
    var info := reg.enums[path[|path| - 1].id];
    assert info.variants[0..] == info.variants;
    IdentityBlamed(reg, path, SumAnchor(info.spelling), s, s');
  }

  lemma EnumBlamed(reg: Registry, path: seq<GArg>, mid: State, sum: LedgerId, members: seq<MemberRef>)
    requires path != [] && IsWalk(reg, path) && Inv(reg, mid) && |mid.arena.depths| == |mid.arena.nodes|
    requires MembersBelow(members, |mid.arena.nodes|)
    requires var last := path[|path| - 1]; last.Enum? && last.id in reg.enums && reg.enums[last.id].Ready?
    requires var info := reg.enums[path[|path| - 1].id];
      BuiltMembers(reg, mid, info.spelling, info.variants, Some(members))
    ensures Blamed(reg, path[0], mid, Minted(mid, EnumNode(sum, members)).0)
  {
    hide IsWalk, Inv, BuiltMembers, Blamed, Admissible;
    EnumBuilt(reg, mid, path[|path| - 1].id, members);
    assert Admissible(EnumNode(sum, members)) || Breaks(reg, path, BuilderDomain);
    MintBlamed(reg, path, mid, EnumNode(sum, members));
  }

  lemma LeavesCons(reg: Registry, mid: State, s: State, fields: seq<Field>, first: nat, rest: seq<LeafRef>)
    requires Inv(reg, mid) && Inv(reg, s) && Progress(mid, s) && fields != []
    requires Built(reg, mid, fields[0].ty, Some(first)) && BuiltLeaves(reg, s, fields[1..], Some(rest))
    requires Remembered(mid, fields[0].ty)
    ensures BuiltLeaves(reg, s, fields, Some([LeafRef(fields[0].name, first)] + rest))
  {
    var leaves := [LeafRef(fields[0].name, first)] + rest;
    assert leaves[1..] == rest;
    forall i | 0 <= i < |fields| ensures leaves[i].name == fields[i].name {
      if i > 0 { assert fields[1..][i - 1] == fields[i]; }
    }
    forall i | 0 <= i < |fields| ensures Remembered(s, fields[i].ty) {
      if i > 0 { assert fields[1..][i - 1] == fields[i]; }
    }
    if s.Clean() { UnfoldStable(mid.arena.nodes, s.arena.nodes, first); }
  }

  lemma RememberedGrows(mid: State, s: State, fields: seq<Field>)
    requires Progress(mid, s) && AllRemembered(mid, fields)
    ensures AllRemembered(s, fields)
  {
    forall i | 0 <= i < |fields| ensures Remembered(s, fields[i].ty) { assert Remembered(mid, fields[i].ty); }
  }

  lemma MembersCons(reg: Registry, mid: State, s: State, spelling: string, variants: seq<Variant>,
                    id: LedgerId, payload: seq<LeafRef>, rest: seq<MemberRef>)
    requires Inv(reg, mid) && Inv(reg, s) && Progress(mid, s) && variants != []
    requires s.Clean() ==>
      AnchorOf(spelling, variants[0]) in reg.ledger && id == reg.ledger[AnchorOf(spelling, variants[0])]
    requires BuiltLeaves(reg, mid, variants[0].payload, Some(payload))
    requires BuiltMembers(reg, s, spelling, variants[1..], Some(rest))
    ensures BuiltMembers(reg, s, spelling, variants, Some([MemberRef(id, payload)] + rest))
  {
    var members := [MemberRef(id, payload)] + rest;
    assert members[1..] == rest;
    LeavesStable(mid.arena.nodes, s.arena.nodes, payload, |mid.arena.nodes|, |s.arena.nodes|);
    forall i | 0 <= i < |members|
      ensures LeavesBelow(members[i].payload, |s.arena.nodes|) && SameNames(variants[i].payload, members[i].payload)
    {
      if i > 0 { assert members[i] == rest[i - 1] && variants[i] == variants[1..][i - 1]; }
    }
    forall i | 0 <= i < |members| ensures AllRemembered(s, variants[i].payload) {
      if i > 0 { assert variants[i] == variants[1..][i - 1]; } else { RememberedGrows(mid, s, variants[0].payload); }
    }
  }

  /** What a struct node over built leaves stands for, and that only a bad name is inadmissible. */
  lemma StructBuilt(reg: Registry, s: State, fields: seq<Field>, leaves: seq<LeafRef>)
    requires Inv(reg, s) && BuiltLeaves(reg, s, fields, Some(leaves)) && |fields| <= MAX_STRUCT_LEAVES
    ensures Admissible(StructNode(leaves)) <==> Named(fields)
    ensures s.Clean() ==> ExpandsLeaves(reg, fields, NodeTree(s.arena.nodes, StructNode(leaves)).leaves)
    ensures s.Clean() ==> forall i :: 0 <= i < |fields| && Composite(fields[i].ty) ==> fields[i].ty in s.memo
  {
    assert forall i :: 0 <= i < |fields| ==> Remembered(s, fields[i].ty);
    assert forall i :: 0 <= i < |fields| ==> leaves[i].name == fields[i].name;
  }

  lemma EnumBuilt(reg: Registry, s: State, id: nat, members: seq<MemberRef>)
    requires Inv(reg, s) && id in reg.enums && reg.enums[id].Ready?
    requires BuiltMembers(reg, s, reg.enums[id].spelling, reg.enums[id].variants, Some(members))
    ensures forall sum :: Admissible(EnumNode(sum, members)) <==> EnumFits(reg.enums[id].variants)
    ensures s.Clean() ==> PartsIn(reg, Enum(id), s.memo)
  {
    forall b | s.Clean() && Contains(reg, Enum(id), b) && Composite(b) ensures b in s.memo {
      var variants := reg.enums[id].variants;
      var v, i :| 0 <= v < |variants| && 0 <= i < |variants[v].payload| && variants[v].payload[i].ty == b;
      assert AllRemembered(s, variants[v].payload) && Remembered(s, variants[v].payload[i].ty);
    }
  }

  lemma NoneBuilt(reg: Registry, s: State, spelling: string, variants: seq<Variant>, ty: GArg)
    requires Inv(reg, s) && BuiltMembers(reg, s, spelling, variants, None)
    ensures Built(reg, s, ty, None) && !s.Clean()
  {
  }

  lemma MembersShape(reg: Registry, s: State, spelling: string, variants: seq<Variant>, members: seq<MemberRef>)
    requires Inv(reg, s) && BuiltMembers(reg, s, spelling, variants, Some(members))
    ensures MembersBelow(members, |s.arena.nodes|)
  {
  }

  /** What minting an enum over built members leaves. */
  lemma EnumDone(reg: Registry, mid: State, id: nat, sum: LedgerId, members: seq<MemberRef>)
    requires Inv(reg, mid) && id in reg.enums && reg.enums[id].Ready? && MembersBelow(members, |mid.arena.nodes|)
    requires BuiltMembers(reg, mid, reg.enums[id].spelling, reg.enums[id].variants, Some(members))
    requires mid.Clean() ==>
               var anchor := SumAnchor(reg.enums[id].spelling);
               anchor in reg.ledger && sum == reg.ledger[anchor]
    ensures var (s', r) := Minted(mid, EnumNode(sum, members));
            && Inv(reg, s') && Progress(mid, s') && Built(reg, s', Enum(id), r)
            && (s'.Clean() ==> PartsIn(reg, Enum(id), s'.memo))
            && (EnumFits(reg.enums[id].variants) ==> Undisturbed(mid, s'))
  {
    hide Inv, PartsIn;
    InvShape(reg, mid);
    MintedMeans(reg, mid, EnumNode(sum, members));
    EnumBuilt(reg, mid, id, members);
  }

  lemma DepthBlamed(reg: Registry, ty: GArg, built: State, s: State)
    requires s.fault == built.fault
    requires s.refusal != built.refusal ==>
      s.refusal == Some(OverDeep) && (built.Clean() ==> Culprit(reg, ty, OverDeep))
    ensures Blamed(reg, ty, built, s)
  {
    hide Culprit, Faulty;
  }

  // ----- every reachable type, once

  /** Every struct and enum on any containment walk from `ty` has been walked. */
  ghost predicate ReachedWalked(reg: Registry, walked: seq<GArg>, ty: GArg) {
    forall w :: IsWalk(reg, w) && w[0] == ty ==> WalkWalked(w, walked)
  }

  ghost predicate WalkWalked(w: seq<GArg>, walked: seq<GArg>) {
    forall i :: 0 <= i < |w| && Composite(w[i]) ==> w[i] in walked
  }

  lemma {:induction false} WalkRemembered(reg: Registry, s: State, w: seq<GArg>)
    requires Inv(reg, s) && s.Clean() && IsWalk(reg, w) && Remembered(s, w[0])
    ensures WalkWalked(w, s.walked)
    decreases |w|
  {
    if |w| > 1 {
      if Composite(w[1]) { assert PartsIn(reg, w[0], s.memo); }
      WalkRemembered(reg, s, w[1..]);
      forall i | 0 <= i < |w| && Composite(w[i]) ensures w[i] in s.walked {
        if i > 0 { assert w[1..][i - 1] == w[i]; }
      }
    }
  }

  lemma WalkedGrows(reg: Registry, walked: seq<GArg>, more: seq<GArg>, ty: GArg)
    requires ReachedWalked(reg, walked, ty) && walked <= more
    ensures ReachedWalked(reg, more, ty)
  {
    forall w | IsWalk(reg, w) && w[0] == ty ensures WalkWalked(w, more) {
      assert WalkWalked(w, walked);
    }
  }

  ghost predicate FieldsWalked(reg: Registry, walked: seq<GArg>, fields: seq<Field>) {
    forall k :: 0 <= k < |fields| ==> ReachedWalked(reg, walked, fields[k].ty)
  }

  lemma FieldsWalkedSnoc(reg: Registry, walked: seq<GArg>, more: seq<GArg>, fields: seq<Field>, field: Field)
    requires FieldsWalked(reg, walked, fields) && walked <= more && ReachedWalked(reg, more, field.ty)
    ensures FieldsWalked(reg, more, fields + [field])
  {
    forall k | 0 <= k < |fields| ensures ReachedWalked(reg, more, fields[k].ty) {
      WalkedGrows(reg, walked, more, fields[k].ty);
    }
  }

  lemma ReachableWalked(reg: Registry, s: State, ty: GArg)
    requires Inv(reg, s) && s.Clean() && Remembered(s, ty)
    ensures ReachedWalked(reg, s.walked, ty)
  {
    forall w | IsWalk(reg, w) && w[0] == ty ensures WalkWalked(w, s.walked) { WalkRemembered(reg, s, w); }
  }

  // ----- fields

  /** The expansion of `ty`, when it has one. */
  ghost function Expansion(reg: Registry, ty: GArg): (r: Option<Tree>)
    ensures r.Some? ==> Expands(reg, ty, r.value)
    ensures r.None? ==> !Expandable(reg, ty)
  {
    if Expandable(reg, ty) then var t :| Expands(reg, ty, t); Some(t) else None
  }

  lemma FieldDecided(reg: Registry, s: State, ty: GArg, node: nat)
    requires Inv(reg, s) && Built(reg, s, ty, Some(node))
    ensures s.Clean() ==>
      (s.arena.depths[node] <= MAX_DURABLE_VALUE_DEPTH <==> WithinLevels(reg, ty, MAX_DURABLE_VALUE_DEPTH))
  {
    WithinLevelsIffExpands(reg, ty, MAX_DURABLE_VALUE_DEPTH);
    if s.Clean() && ExpandsWithin(reg, ty, MAX_DURABLE_VALUE_DEPTH) {
      var t :| Expands(reg, ty, t) && Height(t) <= MAX_DURABLE_VALUE_DEPTH;
      ExpandsOnce(reg, ty, t, Unfold(s.arena.nodes, node));
    }
  }

  /** Every field's identity is live and its value fits. */
  ghost predicate Storable(reg: Registry, product: string, fields: seq<Field>) {
    forall i :: 0 <= i < |fields| ==> StorableField(reg, product, fields[i])
  }

  ghost predicate StorableField(reg: Registry, product: string, field: Field) {
    FieldAnchor(product + "." + field.name) in reg.ledger && WithinLevels(reg, field.ty, MAX_DURABLE_VALUE_DEPTH)
  }

  /** Each row holds its field's own identity and a node that stands for its type's expansion. */
  ghost predicate Stored(reg: Registry, nodes: seq<Node>, product: string, fields: seq<Field>,
                         rows: seq<(LedgerId, nat)>)
    requires WellFormed(nodes)
  {
    && |rows| == |fields|
    && forall i :: 0 <= i < |fields| ==> StoredField(reg, nodes, product, fields[i], rows[i].0, rows[i].1)
  }

  ghost predicate StoredField(reg: Registry, nodes: seq<Node>, product: string, field: Field, id: LedgerId, node: nat)
    requires WellFormed(nodes)
  {
    && FieldAnchor(product + "." + field.name) in reg.ledger
    && id == reg.ledger[FieldAnchor(product + "." + field.name)]
    && node < |nodes| && Expands(reg, field.ty, Unfold(nodes, node))
  }

  /** `why` names the field's own missing identity, or is shown by a walk from its type. */
  ghost predicate FieldBlame(reg: Registry, product: string, field: Field, why: Refusal) {
    || (why == IdentityIncomplete(FieldAnchor(product + "." + field.name))
        && FieldAnchor(product + "." + field.name) !in reg.ledger)
    || Culprit(reg, field.ty, why)
  }

  /** A refusal, and a fault short of a full arena, is the fault of one of the fields. */
  ghost predicate ProductBlamed(reg: Registry, product: string, fields: seq<Field>, s: State) {
    && (s.refusal.Some? && s.fault.None? ==>
          exists i :: 0 <= i < |fields| && FieldBlame(reg, product, fields[i], s.refusal.value))
    && (s.fault.Some? ==>
          s.Full() || exists i :: 0 <= i < |fields| && Faulty(reg, fields[i].ty, s.fault.value))
  }

  lemma NothingBlamed(reg: Registry, product: string, s: State)
    requires s.Clean()
    ensures ProductBlamed(reg, product, [], s)
  {
  }

  lemma InvWellFormed(reg: Registry, s: State)
    requires Inv(reg, s)
    ensures WellFormed(s.arena.nodes)
  {
  }

  lemma ProductBlamedPrefix(reg: Registry, product: string, fields: seq<Field>, n: nat, s: State)
    requires n <= |fields| && ProductBlamed(reg, product, fields[..n], s)
    ensures ProductBlamed(reg, product, fields, s)
  {
    hide FieldBlame, Faulty;
  }

  lemma ProductBlamedSnoc(reg: Registry, product: string, fields: seq<Field>, field: Field, was: State, named: State,
                          s: State)
    requires ProductBlamed(reg, product, fields, was) && Progress(was, named) && Progress(named, s)
    requires var anchor := FieldAnchor(product + "." + field.name);
      && named.fault == was.fault
      && named.refusal == if was.refusal.None? && was.fault.None? && anchor !in reg.ledger
                          then Some(IdentityIncomplete(anchor)) else was.refusal
    requires Blamed(reg, field.ty, named, s)
    ensures ProductBlamed(reg, product, fields + [field], s)
  {
    hide Culprit, Faulty;
    var all := fields + [field];
    assert all[|fields|] == field;
    assert all[..|fields|] == fields;
    if s.refusal.Some? && s.fault.None? {
      if was.refusal.Some? {
        assert s.refusal == was.refusal;
        ProductBlamedPrefix(reg, product, all, |fields|, was);
      } else {
        assert FieldBlame(reg, product, all[|fields|], s.refusal.value);
      }
    }
    if was.fault.Some? { ProductBlamedPrefix(reg, product, all, |fields|, was); }
  }

  lemma StorableSnoc(reg: Registry, product: string, fields: seq<Field>, field: Field)
    ensures Storable(reg, product, fields + [field]) <==>
      Storable(reg, product, fields) && StorableField(reg, product, field)
  {
    var all := fields + [field];
    if Storable(reg, product, all) {
      forall i | 0 <= i < |fields| ensures StorableField(reg, product, fields[i]) { assert all[i] == fields[i]; }
      assert all[|fields|] == field;
    }
  }

  lemma StorablePrefix(reg: Registry, product: string, fields: seq<Field>, n: nat)
    requires n <= |fields|
    ensures Storable(reg, product, fields) ==> Storable(reg, product, fields[..n])
  {
    forall i | 0 <= i < n && Storable(reg, product, fields) ensures StorableField(reg, product, fields[..n][i]) {
      assert StorableField(reg, product, fields[i]);
    }
  }

  lemma StoredSnoc(reg: Registry, nodes: seq<Node>, nodes': seq<Node>, product: string, fields: seq<Field>,
                   rows: seq<(LedgerId, nat)>,
                   field: Field, id: LedgerId, node: nat)
    requires WellFormed(nodes) && WellFormed(nodes') && Extends(nodes, nodes')
    requires Stored(reg, nodes, product, fields, rows) && StoredField(reg, nodes', product, field, id, node)
    ensures Stored(reg, nodes', product, fields + [field], rows + [(id, node)])
  {
    forall i | 0 <= i < |fields| ensures StoredField(reg, nodes', product, fields[i], rows[i].0, rows[i].1) {
      assert StoredField(reg, nodes, product, fields[i], rows[i].0, rows[i].1);
      UnfoldStable(nodes, nodes', rows[i].1);
    }
  }
}
