/**
 Durable value shapes: the type graph a program declares, the naive expansion of a type into a
 tree, and the arena that shares equal shapes.
 */
module ValueShapes {
  import opened Wrappers

  const MAX_STRUCT_LEAVES: nat := 64
  const MAX_VARIANTS: nat := 256
  const MAX_PAYLOAD_FIELDS: nat := 64
  const MAX_DURABLE_VALUE_DEPTH: nat := 32
  const MAX_ARENA: nat := 0xFFFF_FFFF

  // ----- the declared types

  /** A resolved value type. Scalars are numbered; 0 is `int`. */
  datatype GArg =
    | Scalar(scalar: nat)
    | Nominal(alias: nat)
    | Struct(id: nat)
    | Enum(id: nat)
    | Collection(collection: nat)
    | Group(group: nat)
    | Param(param: nat)

  const INT_SCALAR: nat := 0

  datatype Field = Field(name: string, ty: GArg)

  datatype Variant = Variant(name: string, payload: seq<Field>)

  /** What the metadata session answers for an enum it knows. */
  datatype EnumInfo = Ready(spelling: string, variants: seq<Variant>) | Incoherent

  datatype Anchor = FieldAnchor(path: string) | SumAnchor(path: string) | MemberAnchor(path: string)

  type LedgerId = nat

  /** Everything the walk reads: declared structs and enums, and the identity ledger. */
  datatype Registry = Registry(
    structs: map<nat, seq<Field>>,
    enums: map<nat, EnumInfo>,
    ledger: map<Anchor, LedgerId>)

  function AnchorOf(spelling: string, variant: Variant): Anchor {
    MemberAnchor(spelling + "." + variant.name)
  }

  predicate Named(fields: seq<Field>) {
    forall i :: 0 <= i < |fields| ==> fields[i].name != ""
  }

  predicate EnumFits(variants: seq<Variant>) {
    && |variants| <= MAX_VARIANTS
    && forall i :: 0 <= i < |variants| ==> |variants[i].payload| <= MAX_PAYLOAD_FIELDS && Named(variants[i].payload)
  }

  /** Every declared struct and enum. */
  ghost function Universe(reg: Registry): set<GArg> {
    (set id | id in reg.structs :: Struct(id)) + (set id | id in reg.enums :: Enum(id))
  }

  ghost predicate Distinct(types: seq<GArg>) {
    forall i, j :: 0 <= i < j < |types| ==> types[i] != types[j]
  }

  // ----- naive expansion

  datatype Tree =
    | ScalarTree(scalar: nat)
    | StructTree(leaves: Leaves)
    | EnumTree(sum: LedgerId, members: Members)

  datatype Leaves = NoLeaf | Leaf(name: string, tree: Tree, rest: Leaves)

  datatype Members = NoMember | Member(id: LedgerId, payload: Leaves, rest: Members)

  /** `tree` is the full expansion of `ty`: every struct and enum written out in place. */
  ghost predicate Expands(reg: Registry, ty: GArg, tree: Tree)
    decreases tree
  {
    match ty
    case Scalar(s) => tree == ScalarTree(s)
    case Nominal(_) => tree == ScalarTree(INT_SCALAR)
    case Struct(id) =>
      && id in reg.structs && |reg.structs[id]| <= MAX_STRUCT_LEAVES && Named(reg.structs[id])
      && tree.StructTree? && ExpandsLeaves(reg, reg.structs[id], tree.leaves)
    case Enum(id) =>
      && id in reg.enums && reg.enums[id].Ready? && EnumFits(reg.enums[id].variants)
      && tree.EnumTree?
      && SumAnchor(reg.enums[id].spelling) in reg.ledger && tree.sum == reg.ledger[SumAnchor(reg.enums[id].spelling)]
      && ExpandsMembers(reg, reg.enums[id].spelling, reg.enums[id].variants, tree.members)
    case _ => false
  }

  ghost predicate ExpandsLeaves(reg: Registry, fields: seq<Field>, leaves: Leaves)
    decreases leaves
  {
    match leaves
    case NoLeaf => fields == []
    case Leaf(name, tree, rest) =>
      && fields != [] && fields[0].name == name
      && Expands(reg, fields[0].ty, tree) && ExpandsLeaves(reg, fields[1..], rest)
  }

  ghost predicate ExpandsMembers(reg: Registry, spelling: string, variants: seq<Variant>, members: Members)
    decreases members
  {
    match members
    case NoMember => variants == []
    case Member(id, payload, rest) =>
      && variants != []
      && MemberAnchor(spelling + "." + variants[0].name) in reg.ledger
      && id == reg.ledger[MemberAnchor(spelling + "." + variants[0].name)]
      && ExpandsLeaves(reg, variants[0].payload, payload)
      && ExpandsMembers(reg, spelling, variants[1..], rest)
  }

  /** A type has at most one expansion. */
  lemma {:induction false} ExpandsOnce(reg: Registry, ty: GArg, a: Tree, b: Tree)
    requires Expands(reg, ty, a) && Expands(reg, ty, b)
    ensures a == b
    decreases a
  {
    if ty.Struct? { LeavesOnce(reg, reg.structs[ty.id], a.leaves, b.leaves); }
    if ty.Enum? { MembersOnce(reg, reg.enums[ty.id].spelling, reg.enums[ty.id].variants, a.members, b.members); }
  }

  lemma {:induction false} LeavesOnce(reg: Registry, fields: seq<Field>, a: Leaves, b: Leaves)
    requires ExpandsLeaves(reg, fields, a) && ExpandsLeaves(reg, fields, b)
    ensures a == b
    decreases a
  {
    if a.Leaf? && b.Leaf? {
      ExpandsOnce(reg, fields[0].ty, a.tree, b.tree);
      LeavesOnce(reg, fields[1..], a.rest, b.rest);
    }
  }

  lemma {:induction false} MembersOnce(reg: Registry, spelling: string, variants: seq<Variant>, a: Members, b: Members)
    requires ExpandsMembers(reg, spelling, variants, a) && ExpandsMembers(reg, spelling, variants, b)
    ensures a == b
    decreases a
  {
    if a.Member? && b.Member? {
      LeavesOnce(reg, variants[0].payload, a.payload, b.payload);
      MembersOnce(reg, spelling, variants[1..], a.rest, b.rest);
    }
  }

  // ----- height

  function Max(a: nat, b: nat): nat { if a >= b then a else b }

  /** The levels a value of this shape occupies. */
  ghost function Height(tree: Tree): (h: nat)
    ensures h > 0
  {
    match tree
    case ScalarTree(_) => 1
    case StructTree(leaves) => 1 + LeavesHeight(leaves)
    case EnumTree(_, members) => 1 + MembersHeight(members)
  }

  ghost function LeavesHeight(leaves: Leaves): nat {
    match leaves
    case NoLeaf => 0
    case Leaf(_, tree, rest) => Max(Height(tree), LeavesHeight(rest))
  }

  ghost function MembersHeight(members: Members): nat {
    match members
    case NoMember => 0
    case Member(_, payload, rest) => Max(LeavesHeight(payload), MembersHeight(rest))
  }

  // ----- the arena

  datatype LeafRef = LeafRef(name: string, shape: nat)

  datatype MemberRef = MemberRef(id: LedgerId, payload: seq<LeafRef>)

  datatype Node =
    | ScalarNode(scalar: nat)
    | StructNode(leaves: seq<LeafRef>)
    | EnumNode(sum: LedgerId, members: seq<MemberRef>)

  /** Minted nodes with the depth each was given when minted. */
  datatype Arena = Arena(nodes: seq<Node>, depths: seq<nat>)

  predicate LeavesBelow(leaves: seq<LeafRef>, bound: nat) {
    forall i :: 0 <= i < |leaves| ==> leaves[i].shape < bound
  }

  predicate MembersBelow(members: seq<MemberRef>, bound: nat) {
    forall i :: 0 <= i < |members| ==> LeavesBelow(members[i].payload, bound)
  }

  predicate Below(node: Node, bound: nat) {
    match node
    case ScalarNode(_) => true
    case StructNode(leaves) => LeavesBelow(leaves, bound)
    case EnumNode(_, members) => MembersBelow(members, bound)
  }

  /** Every reference points strictly backwards, and no node is held twice. */
  ghost predicate WellFormed(nodes: seq<Node>) {
    && (forall i :: 0 <= i < |nodes| ==> Below(nodes[i], i))
    && (forall i, j :: 0 <= i < j < |nodes| ==> nodes[i] != nodes[j])
  }

  /** The tree a node stands for. */
  ghost function Unfold(nodes: seq<Node>, at: nat): Tree
    requires WellFormed(nodes) && at < |nodes|
    decreases at, 2, 0
  {
    assert Below(nodes[at], at);
    match nodes[at]
    case ScalarNode(s) => ScalarTree(s)
    case StructNode(leaves) => StructTree(UnfoldLeaves(nodes, leaves, at))
    case EnumNode(sum, members) => EnumTree(sum, UnfoldMembers(nodes, members, at))
  }

  ghost function UnfoldLeaves(nodes: seq<Node>, leaves: seq<LeafRef>, bound: nat): Leaves
    requires WellFormed(nodes) && bound <= |nodes| && LeavesBelow(leaves, bound)
    decreases bound, 0, |leaves|
  {
    if leaves == [] then NoLeaf
    else Leaf(leaves[0].name, Unfold(nodes, leaves[0].shape), UnfoldLeaves(nodes, leaves[1..], bound))
  }

  ghost function UnfoldMembers(nodes: seq<Node>, members: seq<MemberRef>, bound: nat): Members
    requires WellFormed(nodes) && bound <= |nodes| && MembersBelow(members, bound)
    decreases bound, 1, |members|
  {
    if members == [] then NoMember
    else
      assert LeavesBelow(members[0].payload, bound);
      Member(members[0].id, UnfoldLeaves(nodes, members[0].payload, bound), UnfoldMembers(nodes, members[1..], bound))
  }

  ghost predicate Extends(nodes: seq<Node>, nodes': seq<Node>) {
    |nodes| <= |nodes'| && nodes'[..|nodes|] == nodes
  }

  /** Growing the arena changes no tree. */
  lemma {:induction false} UnfoldStable(nodes: seq<Node>, nodes': seq<Node>, at: nat)
    requires WellFormed(nodes) && WellFormed(nodes') && Extends(nodes, nodes') && at < |nodes|
    ensures Unfold(nodes', at) == Unfold(nodes, at)
    decreases at, 2, 0
  {
    assert nodes'[at] == nodes[at] && Below(nodes[at], at);
    match nodes[at]
    case ScalarNode(_) =>
    case StructNode(leaves) => LeavesStable(nodes, nodes', leaves, at, at);
    case EnumNode(_, members) => MembersStable(nodes, nodes', members, at, at);
  }

  lemma {:induction false} LeavesStable(nodes: seq<Node>, nodes': seq<Node>, leaves: seq<LeafRef>, bound: nat,
                                        bound': nat)
    requires WellFormed(nodes) && WellFormed(nodes') && Extends(nodes, nodes')
    requires bound <= |nodes| && bound <= bound' <= |nodes'| && LeavesBelow(leaves, bound)
    ensures LeavesBelow(leaves, bound') && UnfoldLeaves(nodes', leaves, bound') == UnfoldLeaves(nodes, leaves, bound)
    decreases bound, 0, |leaves|
  {
    if leaves != [] {
      UnfoldStable(nodes, nodes', leaves[0].shape);
      LeavesStable(nodes, nodes', leaves[1..], bound, bound');
    }
  }

  lemma {:induction false} MembersStable(nodes: seq<Node>, nodes': seq<Node>, members: seq<MemberRef>, bound: nat,
                                         bound': nat)
    requires WellFormed(nodes) && WellFormed(nodes') && Extends(nodes, nodes')
    requires bound <= |nodes| && bound <= bound' <= |nodes'| && MembersBelow(members, bound)
    ensures MembersBelow(members, bound')
    ensures UnfoldMembers(nodes', members, bound') == UnfoldMembers(nodes, members, bound)
    decreases bound, 1, |members|
  {
    if members != [] {
      assert LeavesBelow(members[0].payload, bound);
      LeavesStable(nodes, nodes', members[0].payload, bound, bound');
      MembersStable(nodes, nodes', members[1..], bound, bound');
      forall i | 0 <= i < |members| ensures LeavesBelow(members[i].payload, bound') {
        if i > 0 { assert members[1..][i - 1] == members[i]; }
      }
    }
  }

  /** The arena is canonical: nodes that stand for the same tree are the same node. */
  lemma {:induction false} OneNodePerTree(nodes: seq<Node>, a: nat, b: nat)
    requires WellFormed(nodes) && a < |nodes| && b < |nodes| && Unfold(nodes, a) == Unfold(nodes, b)
    ensures a == b
    decreases a, 2, 0
  {
    assert Below(nodes[a], a) && Below(nodes[b], b);
    match nodes[a] {
      case ScalarNode(_) =>
      case StructNode(leaves) => OneLeafListPerTree(nodes, leaves, a, nodes[b].leaves, b);
      case EnumNode(_, members) => OneMemberListPerTree(nodes, members, a, nodes[b].members, b);
    }
    assert nodes[a] == nodes[b];
  }

  lemma {:induction false} OneLeafListPerTree(nodes: seq<Node>, xs: seq<LeafRef>, a: nat, ys: seq<LeafRef>, b: nat)
    requires WellFormed(nodes) && a <= |nodes| && b <= |nodes| && LeavesBelow(xs, a) && LeavesBelow(ys, b)
    requires UnfoldLeaves(nodes, xs, a) == UnfoldLeaves(nodes, ys, b)
    ensures xs == ys
    decreases a, 0, |xs|
  {
    if xs != [] {
      OneNodePerTree(nodes, xs[0].shape, ys[0].shape);
      OneLeafListPerTree(nodes, xs[1..], a, ys[1..], b);
      assert xs == [xs[0]] + xs[1..] && ys == [ys[0]] + ys[1..];
    }
  }

  lemma {:induction false} OneMemberListPerTree(nodes: seq<Node>, xs: seq<MemberRef>, a: nat, ys: seq<MemberRef>,
                                                b: nat)
    requires WellFormed(nodes) && a <= |nodes| && b <= |nodes| && MembersBelow(xs, a) && MembersBelow(ys, b)
    requires UnfoldMembers(nodes, xs, a) == UnfoldMembers(nodes, ys, b)
    ensures xs == ys
    decreases a, 1, |xs|
  {
    if xs != [] {
      assert LeavesBelow(xs[0].payload, a) && LeavesBelow(ys[0].payload, b);
      OneLeafListPerTree(nodes, xs[0].payload, a, ys[0].payload, b);
      OneMemberListPerTree(nodes, xs[1..], a, ys[1..], b);
      assert xs == [xs[0]] + xs[1..] && ys == [ys[0]] + ys[1..];
    }
  }

  // ----- minting

  function FindNode(nodes: seq<Node>, node: Node): (r: Option<nat>)
    ensures r.Some? ==> r.value < |nodes| && nodes[r.value] == node
    ensures r.None? ==> forall i :: 0 <= i < |nodes| ==> nodes[i] != node
  {
    if nodes == [] then None
    else
      var n := |nodes| - 1;
      if nodes[n] == node then Some(n) else FindNode(nodes[..n], node)
  }

  function LeavesDepth(depths: seq<nat>, leaves: seq<LeafRef>): nat
    requires LeavesBelow(leaves, |depths|)
  {
    if leaves == [] then 0 else Max(depths[leaves[0].shape], LeavesDepth(depths, leaves[1..]))
  }

  function MembersDepth(depths: seq<nat>, members: seq<MemberRef>): nat
    requires MembersBelow(members, |depths|)
  {
    if members == [] then 0
    else
      assert LeavesBelow(members[0].payload, |depths|);
      Max(LeavesDepth(depths, members[0].payload), MembersDepth(depths, members[1..]))
  }

  function ReferenceDepth(depths: seq<nat>, node: Node): nat
    requires Below(node, |depths|)
  {
    match node
    case ScalarNode(_) => 0
    case StructNode(leaves) => LeavesDepth(depths, leaves)
    case EnumNode(_, members) => MembersDepth(depths, members)
  }

  /** The arena with every recorded depth exact. */
  ghost predicate Sound(a: Arena) {
    && WellFormed(a.nodes) && |a.depths| == |a.nodes|
    && forall i :: 0 <= i < |a.nodes| ==> a.depths[i] == Height(Unfold(a.nodes, i))
  }

  /** The node already held for this shape, or a new one; `None` when the arena is full. */
  function Intern(a: Arena, node: Node): Option<(nat, Arena)>
    requires |a.depths| == |a.nodes| && Below(node, |a.nodes|)
  {
    match FindNode(a.nodes, node)
    case Some(at) => Some((at, a))
    case None =>
      if |a.nodes| >= MAX_ARENA then None
      else Some((|a.nodes|, Arena(a.nodes + [node], a.depths + [1 + ReferenceDepth(a.depths, node)])))
  }

  lemma {:induction false} LeavesDepthIsHeight(a: Arena, leaves: seq<LeafRef>, bound: nat)
    requires Sound(a) && bound <= |a.nodes| && LeavesBelow(leaves, bound)
    ensures LeavesDepth(a.depths, leaves) == LeavesHeight(UnfoldLeaves(a.nodes, leaves, bound))
    decreases |leaves|
  {
    if leaves != [] { LeavesDepthIsHeight(a, leaves[1..], bound); }
  }

  lemma {:induction false} MembersDepthIsHeight(a: Arena, members: seq<MemberRef>, bound: nat)
    requires Sound(a) && bound <= |a.nodes| && MembersBelow(members, bound)
    ensures MembersBelow(members, |a.depths|)
    ensures MembersDepth(a.depths, members) == MembersHeight(UnfoldMembers(a.nodes, members, bound))
    decreases |members|
  {
    forall i | 0 <= i < |members| ensures LeavesBelow(members[i].payload, |a.depths|) {
      assert LeavesBelow(members[i].payload, bound);
    }
    if members != [] {
      assert LeavesBelow(members[0].payload, bound);
      LeavesDepthIsHeight(a, members[0].payload, bound);
      MembersDepthIsHeight(a, members[1..], bound);
    }
  }

  /** The tree a node with these references would stand for. */
  ghost function NodeTree(nodes: seq<Node>, node: Node): Tree
    requires WellFormed(nodes) && Below(node, |nodes|)
  {
    match node
    case ScalarNode(s) => ScalarTree(s)
    case StructNode(leaves) => StructTree(UnfoldLeaves(nodes, leaves, |nodes|))
    case EnumNode(sum, members) => EnumTree(sum, UnfoldMembers(nodes, members, |nodes|))
  }

  /** A node of the arena stands for its own tree, whatever bound it is read under. */
  lemma NodeTreeAt(nodes: seq<Node>, nodes': seq<Node>, at: nat)
    requires WellFormed(nodes) && WellFormed(nodes') && Extends(nodes, nodes') && at < |nodes'|
    requires Below(nodes'[at], |nodes|)
    ensures Unfold(nodes', at) == NodeTree(nodes, nodes'[at])
  {
    assert Below(nodes'[at], at);
    match nodes'[at]
    case ScalarNode(_) =>
    case StructNode(leaves) =>
      LeavesStable(nodes', nodes', leaves, at, |nodes'|);
      LeavesStable(nodes, nodes', leaves, |nodes|, |nodes'|);
    case EnumNode(_, members) =>
      MembersStable(nodes', nodes', members, at, |nodes'|);
      MembersStable(nodes, nodes', members, |nodes|, |nodes'|);
  }

  lemma GrowKeepsWellFormed(nodes: seq<Node>, node: Node)
    requires WellFormed(nodes) && Below(node, |nodes|) && forall i :: 0 <= i < |nodes| ==> nodes[i] != node
    ensures WellFormed(nodes + [node]) && Extends(nodes, nodes + [node])
  {
    var nodes' := nodes + [node];
    forall i | 0 <= i < |nodes'| ensures Below(nodes'[i], i) {
      if i < |nodes| { assert nodes'[i] == nodes[i]; }
    }
  }

  lemma DepthIsHeight(a: Arena, node: Node)
    requires Sound(a) && Below(node, |a.nodes|)
    ensures 1 + ReferenceDepth(a.depths, node) == Height(NodeTree(a.nodes, node))
  {
    match node
    case ScalarNode(_) =>
    case StructNode(leaves) => LeavesDepthIsHeight(a, leaves, |a.nodes|);
    case EnumNode(_, members) => MembersDepthIsHeight(a, members, |a.nodes|);
  }

  /** Interning keeps the arena sound, moves no existing node, and answers a node that stands
      for exactly the shape asked for; it fails only on a full arena. */
  lemma InternMeans(a: Arena, node: Node)
    requires Sound(a) && Below(node, |a.nodes|)
    ensures Intern(a, node).None? ==> |a.nodes| >= MAX_ARENA
    ensures Intern(a, node).Some? ==>
              var (at, a') := Intern(a, node).value;
              && Sound(a') && Extends(a.nodes, a'.nodes) && at < |a'.nodes|
              && Unfold(a'.nodes, at) == NodeTree(a.nodes, node)
  {
    var r := Intern(a, node);
    if r.Some? {
      var at, a' := r.value.0, r.value.1;
      if FindNode(a.nodes, node).None? {
        GrowKeepsWellFormed(a.nodes, node);
        DepthIsHeight(a, node);
        NodeTreeAt(a.nodes, a'.nodes, at);
        forall i | 0 <= i < |a'.nodes| ensures a'.depths[i] == Height(Unfold(a'.nodes, i)) {
          if i < |a.nodes| { UnfoldStable(a.nodes, a'.nodes, i); }
        }
      } else {
        NodeTreeAt(a.nodes, a.nodes, at);
      }
    }
  }
}
