/**
 Containment between value types, and what it decides: a type expands exactly when every
 containment walk from it stays among durable types and meets no type twice, and the height of
 the expansion is the length of its longest walk.
 */
module ValueContainment {
  import opened ValueShapes

  /** A value of type `a` holds a value of type `b` directly. */
  ghost predicate Contains(reg: Registry, a: GArg, b: GArg) {
    match a
    case Struct(id) => id in reg.structs && exists i :: 0 <= i < |reg.structs[id]| && reg.structs[id][i].ty == b
    case Enum(id) =>
      && id in reg.enums && reg.enums[id].Ready?
      && exists v, i :: 0 <= v < |reg.enums[id].variants| && 0 <= i < |reg.enums[id].variants[v].payload|
                        && reg.enums[id].variants[v].payload[i].ty == b
    case _ => false
  }

  /** A non-empty chain of types, each containing the next. */
  ghost predicate IsWalk(reg: Registry, w: seq<GArg>) {
    |w| > 0 && (|w| > 1 ==> Contains(reg, w[0], w[1]) && IsWalk(reg, w[1..]))
  }

  /** What a type must satisfy on its own to be stored: known, within the fixed widths, every
      leaf named, every identity live. */
  ghost predicate Durable(reg: Registry, ty: GArg) {
    match ty
    case Scalar(_) => true
    case Nominal(_) => true
    case Struct(id) => id in reg.structs && |reg.structs[id]| <= MAX_STRUCT_LEAVES && Named(reg.structs[id])
    case Enum(id) =>
      && id in reg.enums && reg.enums[id].Ready? && EnumFits(reg.enums[id].variants)
      && SumAnchor(reg.enums[id].spelling) in reg.ledger
      && forall v :: 0 <= v < |reg.enums[id].variants| ==>
           MemberAnchor(reg.enums[id].spelling + "." + reg.enums[id].variants[v].name) in reg.ledger
    case _ => false
  }

  ghost predicate AllDurable(reg: Registry, w: seq<GArg>) {
    forall i :: 0 <= i < |w| ==> Durable(reg, w[i])
  }

  /** Every walk from `ty` is durable throughout and has at most `n` levels. */
  ghost predicate WithinLevels(reg: Registry, ty: GArg, n: nat) {
    forall w :: IsWalk(reg, w) && w[0] == ty ==> |w| <= n && AllDurable(reg, w)
  }

  /** Every walk from `ty` is durable throughout and meets no type twice. */
  ghost predicate Acyclic(reg: Registry, ty: GArg) {
    forall w :: IsWalk(reg, w) && w[0] == ty ==> Distinct(w) && AllDurable(reg, w)
  }

  ghost predicate Expandable(reg: Registry, ty: GArg) {
    exists t :: Expands(reg, ty, t)
  }

  ghost predicate ExpandsWithin(reg: Registry, ty: GArg, n: nat) {
    exists t :: Expands(reg, ty, t) && Height(t) <= n
  }

  // ----- from an expansion to its walks

  lemma {:induction false} LeafTree(reg: Registry, fields: seq<Field>, leaves: Leaves, i: nat) returns (t: Tree)
    requires ExpandsLeaves(reg, fields, leaves) && i < |fields|
    ensures Expands(reg, fields[i].ty, t) && Height(t) <= LeavesHeight(leaves)
    decreases leaves
  {
    if i == 0 { t := leaves.tree; } else { t := LeafTree(reg, fields[1..], leaves.rest, i - 1); }
  }

  lemma {:induction false} PayloadTree(reg: Registry, spelling: string, variants: seq<Variant>, members: Members,
                                       v: nat, i: nat)
    returns (t: Tree)
    requires ExpandsMembers(reg, spelling, variants, members) && v < |variants| && i < |variants[v].payload|
    ensures Expands(reg, variants[v].payload[i].ty, t) && Height(t) <= MembersHeight(members)
    decreases members
  {
    if v == 0 {
      t := LeafTree(reg, variants[0].payload, members.payload, i);
    } else {
      t := PayloadTree(reg, spelling, variants[1..], members.rest, v - 1, i);
    }
  }

  lemma ContainedTree(reg: Registry, a: GArg, tree: Tree, b: GArg) returns (t: Tree)
    requires Expands(reg, a, tree) && Contains(reg, a, b)
    ensures Expands(reg, b, t) && Height(t) < Height(tree)
  {
    if a.Struct? {
      var i :| 0 <= i < |reg.structs[a.id]| && reg.structs[a.id][i].ty == b;
      t := LeafTree(reg, reg.structs[a.id], tree.leaves, i);
    } else {
      var info := reg.enums[a.id];
      var v, i :| 0 <= v < |info.variants| && 0 <= i < |info.variants[v].payload|
                  && info.variants[v].payload[i].ty == b;
      t := PayloadTree(reg, info.spelling, info.variants, tree.members, v, i);
    }
  }

  lemma {:induction false} AnchorsLive(reg: Registry, spelling: string, variants: seq<Variant>, members: Members,
                                       v: nat)
    requires ExpandsMembers(reg, spelling, variants, members) && v < |variants|
    ensures AnchorOf(spelling, variants[v]) in reg.ledger
    decreases members
  {
    if v > 0 { AnchorsLive(reg, spelling, variants[1..], members.rest, v - 1); }
  }

  lemma ExpandsDurable(reg: Registry, ty: GArg, tree: Tree)
    requires Expands(reg, ty, tree)
    ensures Durable(reg, ty)
  {
    if ty.Enum? {
      var info := reg.enums[ty.id];
      forall v | 0 <= v < |info.variants| ensures AnchorOf(info.spelling, info.variants[v]) in reg.ledger {
        AnchorsLive(reg, info.spelling, info.variants, tree.members, v);
      }
    }
  }

  /** Along a walk every type expands, to lower and lower trees. */
  lemma {:induction false} WalkTree(reg: Registry, w: seq<GArg>, tree: Tree, j: nat) returns (t: Tree)
    requires IsWalk(reg, w) && Expands(reg, w[0], tree) && j < |w|
    ensures Expands(reg, w[j], t) && Height(t) + j <= Height(tree)
    decreases j
  {
    if j == 0 {
      t := tree;
    } else {
      var next := ContainedTree(reg, w[0], tree, w[1]);
      t := WalkTree(reg, w[1..], next, j - 1);
    }
  }

  lemma {:induction false} WalkTail(reg: Registry, w: seq<GArg>, i: nat)
    requires IsWalk(reg, w) && i < |w|
    ensures IsWalk(reg, w[i..])
    decreases i
  {
    if i == 0 {
      assert w[0..] == w;
    } else {
      WalkTail(reg, w[1..], i - 1);
      assert w[1..][i - 1..] == w[i..];
    }
  }

  /** A walk goes on to anything its last type contains. */
  lemma {:induction false} WalkSnoc(reg: Registry, w: seq<GArg>, b: GArg)
    requires IsWalk(reg, w) && Contains(reg, w[|w| - 1], b)
    ensures IsWalk(reg, w + [b])
    decreases |w|
  {
    if |w| > 1 {
      WalkSnoc(reg, w[1..], b);
      assert (w + [b])[1..] == w[1..] + [b];
    }
  }

  /** An expansion of height `h` admits only durable, repetition-free walks of at most `h` levels. */
  lemma ExpandsWalks(reg: Registry, ty: GArg, tree: Tree)
    requires Expands(reg, ty, tree)
    ensures WithinLevels(reg, ty, Height(tree)) && Acyclic(reg, ty)
  {
    forall w | IsWalk(reg, w) && w[0] == ty
      ensures |w| <= Height(tree) && AllDurable(reg, w) && Distinct(w)
    {
      var last := WalkTree(reg, w, tree, |w| - 1);
      forall i | 0 <= i < |w| ensures Durable(reg, w[i]) {
        var t := WalkTree(reg, w, tree, i);
        ExpandsDurable(reg, w[i], t);
      }
      forall i, j | 0 <= i < j < |w| ensures w[i] != w[j] { WalkMovesOn(reg, w, tree, i, j); }
    }
  }

  lemma WalkMovesOn(reg: Registry, w: seq<GArg>, tree: Tree, i: nat, j: nat)
    requires IsWalk(reg, w) && Expands(reg, w[0], tree) && i < j < |w|
    ensures w[i] != w[j]
  {
    var a := WalkTree(reg, w, tree, i);
    WalkTail(reg, w, i);
    var b := WalkTree(reg, w[i..], a, j - i);
    assert w[i..][j - i] == w[j];
    if w[i] == w[j] {
      ExpandsOnce(reg, w[i], a, b);
      assert false;
    }
  }

  // ----- from bounded walks to an expansion

  lemma {:induction false} AssembleLeaves(reg: Registry, fields: seq<Field>, n: nat) returns (leaves: Leaves)
    requires forall i :: 0 <= i < |fields| ==> ExpandsWithin(reg, fields[i].ty, n)
    ensures ExpandsLeaves(reg, fields, leaves) && LeavesHeight(leaves) <= n
    decreases |fields|
  {
    if fields == [] {
      leaves := NoLeaf;
    } else {
      assert ExpandsWithin(reg, fields[0].ty, n);
      var t :| Expands(reg, fields[0].ty, t) && Height(t) <= n;
      var rest := AssembleLeaves(reg, fields[1..], n);
      leaves := Leaf(fields[0].name, t, rest);
    }
  }

  ghost predicate PayloadsWithin(reg: Registry, variant: Variant, n: nat) {
    forall i :: 0 <= i < |variant.payload| ==> ExpandsWithin(reg, variant.payload[i].ty, n)
  }

  lemma {:induction false} AssembleMembers(reg: Registry, spelling: string, variants: seq<Variant>, n: nat)
    returns (members: Members)
    requires forall v :: 0 <= v < |variants| ==>
               AnchorOf(spelling, variants[v]) in reg.ledger && PayloadsWithin(reg, variants[v], n)
    ensures ExpandsMembers(reg, spelling, variants, members) && MembersHeight(members) <= n
    decreases |variants|
  {
    if variants == [] {
      members := NoMember;
    } else {
      assert PayloadsWithin(reg, variants[0], n);
      var payload := AssembleLeaves(reg, variants[0].payload, n);
      var rest := AssembleMembers(reg, spelling, variants[1..], n);
      members := Member(reg.ledger[AnchorOf(spelling, variants[0])], payload, rest);
    }
  }

  lemma ContainedWithin(reg: Registry, a: GArg, b: GArg, n: nat)
    requires WithinLevels(reg, a, n + 1) && Contains(reg, a, b)
    ensures WithinLevels(reg, b, n)
  {
    forall w | IsWalk(reg, w) && w[0] == b ensures |w| <= n && AllDurable(reg, w) {
      var longer := [a] + w;
      assert longer[1..] == w;
      assert IsWalk(reg, longer);
      forall i | 0 <= i < |w| ensures Durable(reg, w[i]) { assert longer[i + 1] == w[i]; }
    }
  }

  lemma {:induction false} WalksExpand(reg: Registry, ty: GArg, n: nat)
    requires WithinLevels(reg, ty, n)
    ensures ExpandsWithin(reg, ty, n)
    decreases n
  {
    assert IsWalk(reg, [ty]);
    assert n > 0 && Durable(reg, [ty][0]);
    match ty
    case Scalar(s) => assert Expands(reg, ty, ScalarTree(s)) && Height(ScalarTree(s)) <= n;
    case Nominal(_) => assert Expands(reg, ty, ScalarTree(INT_SCALAR)) && Height(ScalarTree(INT_SCALAR)) <= n;
    case Struct(id) =>
      forall i | 0 <= i < |reg.structs[id]| ensures ExpandsWithin(reg, reg.structs[id][i].ty, n - 1) {
        ContainedWithin(reg, ty, reg.structs[id][i].ty, n - 1);
        WalksExpand(reg, reg.structs[id][i].ty, n - 1);
      }
      var leaves := AssembleLeaves(reg, reg.structs[id], n - 1);
      assert Expands(reg, ty, StructTree(leaves)) && Height(StructTree(leaves)) <= n;
    case Enum(id) =>
      var info := reg.enums[id];
      forall v | 0 <= v < |info.variants| ensures PayloadsWithin(reg, info.variants[v], n - 1) {
        forall i | 0 <= i < |info.variants[v].payload|
          ensures ExpandsWithin(reg, info.variants[v].payload[i].ty, n - 1)
        {
          ContainedWithin(reg, ty, info.variants[v].payload[i].ty, n - 1);
          WalksExpand(reg, info.variants[v].payload[i].ty, n - 1);
        }
      }
      var members := AssembleMembers(reg, info.spelling, info.variants, n - 1);
      var tree := EnumTree(reg.ledger[SumAnchor(info.spelling)], members);
      assert Expands(reg, ty, tree) && Height(tree) <= n;
  }

  /** Main result: a type expands within `n` levels exactly when each containment walk from it
      is durable and has at most `n` levels. */
  lemma WithinLevelsIffExpands(reg: Registry, ty: GArg, n: nat)
    ensures ExpandsWithin(reg, ty, n) <==> WithinLevels(reg, ty, n)
  {
    if ExpandsWithin(reg, ty, n) {
      var t :| Expands(reg, ty, t) && Height(t) <= n;
      ExpandsWalks(reg, ty, t);
    }
    if WithinLevels(reg, ty, n) { WalksExpand(reg, ty, n); }
  }

  // ----- acyclic walks are bounded

  lemma {:induction false} DistinctFits(w: seq<GArg>, all: set<GArg>)
    requires Distinct(w) && forall i :: 0 <= i < |w| ==> w[i] in all
    ensures |w| <= |all|
    decreases |w|
  {
    if w != [] {
      var n := |w| - 1;
      DistinctFits(w[..n], all - {w[n]});
    }
  }

  /** Every type of a walk but the last contains something, so it is a declared struct or enum. */
  lemma {:induction false} WalkIsDeclared(reg: Registry, w: seq<GArg>, i: nat)
    requires IsWalk(reg, w) && i < |w| - 1
    ensures w[i] in Universe(reg)
    decreases i
  {
    if i > 0 { WalkIsDeclared(reg, w[1..], i - 1); }
  }

  /** Main result: a type expands exactly when no containment walk from it meets a type twice or
      leaves the durable types. */
  lemma AcyclicIffExpandable(reg: Registry, ty: GArg)
    ensures Expandable(reg, ty) <==> Acyclic(reg, ty)
  {
    if Expandable(reg, ty) {
      var t :| Expands(reg, ty, t);
      ExpandsWalks(reg, ty, t);
    }
    if Acyclic(reg, ty) {
      var n := |Universe(reg)| + 1;
      forall w | IsWalk(reg, w) && w[0] == ty ensures |w| <= n && AllDurable(reg, w) {
        var inner := w[..|w| - 1];
        forall i | 0 <= i < |inner| ensures inner[i] in Universe(reg) { WalkIsDeclared(reg, w, i); }
        DistinctFits(inner, Universe(reg));
      }
      WalksExpand(reg, ty, n);
    }
  }
}
