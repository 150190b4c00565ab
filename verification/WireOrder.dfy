/**
 From traversal order to wire order: the buffer a source-order walk fills, projected into the
 flat command vector that lists every parent before its children.
 */
module WireOrder {
  import opened Wrappers

  const MAX_DURABLE_MEMBERS: nat := 8192
  /** One past the member bound, so that an over-wide declaration still shows as one. */
  const MAX_ADMITTED_DECLARATION_COMMANDS: nat := MAX_DURABLE_MEMBERS + 1

  datatype WireClass = FieldClass | GroupClass | BranchClass {
    function Rank(): nat {
      match this case FieldClass => 0 case GroupClass => 1 case BranchClass => 2
    }
  }

  /** One declared node, with the buffer position of the node it nests under. */
  datatype DraftNode<S> = DraftNode(parent: Option<nat>, wireClass: WireClass, shape: Option<S>)

  datatype Command<S> = Command(parent: Option<nat>, shape: S)

  type Nodes<S> = seq<DraftNode<S>>

  /** Every node nests under one the traversal met before it. */
  predicate ParentsPrecede<S>(nodes: Nodes<S>) {
    forall at :: 0 <= at < |nodes| ==> nodes[at].parent.Some? ==> nodes[at].parent.value < at
  }

  /** Bucket 0 holds the product's own members; bucket `n + 1` holds those of node `n`. */
  function BucketOf<S>(nodes: Nodes<S>, at: nat): nat
    requires at < |nodes|
  {
    if nodes[at].parent.None? then 0 else nodes[at].parent.value + 1
  }

  /** Siblings compare by class, then by traversal position. */
  predicate KeyLess<S>(nodes: Nodes<S>, a: nat, b: nat)
    requires a < |nodes| && b < |nodes|
  {
    nodes[a].wireClass.Rank() < nodes[b].wireClass.Rank() || (nodes[a].wireClass == nodes[b].wireClass && a < b)
  }

  // ----- the children of a bucket, in wire order

  predicate InRange<S>(nodes: Nodes<S>, list: seq<nat>) {
    forall i :: 0 <= i < |list| ==> list[i] < |nodes|
  }

  function MembersOf<S>(nodes: Nodes<S>, bucket: nat, upTo: nat): (r: seq<nat>)
    requires upTo <= |nodes|
    ensures InRange(nodes, r)
  {
    if upTo == 0 then []
    else if BucketOf(nodes, upTo - 1) == bucket then MembersOf(nodes, bucket, upTo - 1) + [upTo - 1]
    else MembersOf(nodes, bucket, upTo - 1)
  }

  function InsertByKey<S>(nodes: Nodes<S>, sorted: seq<nat>, at: nat): (r: seq<nat>)
    requires at < |nodes| && InRange(nodes, sorted)
    ensures InRange(nodes, r)
  {
    if sorted == [] then [at]
    else if KeyLess(nodes, at, sorted[0]) then [at] + sorted
    else [sorted[0]] + InsertByKey(nodes, sorted[1..], at)
  }

  function SortByKey<S>(nodes: Nodes<S>, bucket: seq<nat>): (r: seq<nat>)
    requires InRange(nodes, bucket)
    ensures InRange(nodes, r)
  {
    if bucket == [] then []
    else InsertByKey(nodes, SortByKey(nodes, bucket[..|bucket| - 1]), bucket[|bucket| - 1])
  }

  ghost predicate KeySorted<S>(nodes: Nodes<S>, list: seq<nat>)
    requires InRange(nodes, list)
  {
    forall i, j :: 0 <= i < j < |list| ==> KeyLess(nodes, list[i], list[j])
  }

  lemma {:induction false} MembersAre<S>(nodes: Nodes<S>, bucket: nat, upTo: nat)
    requires upTo <= |nodes|
    ensures forall x: nat :: x in MembersOf(nodes, bucket, upTo) <==> x < upTo && BucketOf(nodes, x) == bucket
    ensures forall i, j :: 0 <= i < j < |MembersOf(nodes, bucket, upTo)| ==>
              MembersOf(nodes, bucket, upTo)[i] < MembersOf(nodes, bucket, upTo)[j]
    decreases upTo
  {
    if upTo > 0 {
      MembersAre(nodes, bucket, upTo - 1);
      var before := MembersOf(nodes, bucket, upTo - 1);
      forall i | 0 <= i < |before| ensures before[i] < upTo - 1 { assert before[i] in before; }
    }
  }

  lemma {:induction false} InsertKeeps<S>(nodes: Nodes<S>, sorted: seq<nat>, at: nat)
    requires InRange(nodes, sorted) && at < |nodes|
    ensures forall x: nat :: x in InsertByKey(nodes, sorted, at) <==> x in sorted || x == at
    decreases |sorted|
  {
    if sorted != [] {
      assert sorted == [sorted[0]] + sorted[1..];
      InsertKeeps(nodes, sorted[1..], at);
    }
  }

  lemma {:induction false} InsertSorts<S>(nodes: Nodes<S>, sorted: seq<nat>, at: nat)
    requires InRange(nodes, sorted) && KeySorted(nodes, sorted) && at < |nodes| && at !in sorted
    ensures KeySorted(nodes, InsertByKey(nodes, sorted, at))
    decreases |sorted|
  {
    if sorted != [] && !KeyLess(nodes, at, sorted[0]) {
      var rest := sorted[1..];
      InsertSorts(nodes, rest, at);
      InsertKeeps(nodes, rest, at);
      var grown := InsertByKey(nodes, rest, at);
      forall j | 0 <= j < |grown| ensures KeyLess(nodes, sorted[0], grown[j]) {
        assert grown[j] in grown;
        if grown[j] != at {
          var i :| 0 <= i < |rest| && rest[i] == grown[j];
          assert sorted[i + 1] == grown[j];
        }
      }
    }
  }

  lemma {:induction false} SortSorts<S>(nodes: Nodes<S>, bucket: seq<nat>)
    requires InRange(nodes, bucket) && forall i, j :: 0 <= i < j < |bucket| ==> bucket[i] != bucket[j]
    ensures KeySorted(nodes, SortByKey(nodes, bucket))
    ensures forall x: nat :: x in SortByKey(nodes, bucket) <==> x in bucket
    decreases |bucket|
  {
    if bucket != [] {
      var n := |bucket| - 1;
      SortSorts(nodes, bucket[..n]);
      assert bucket == bucket[..n] + [bucket[n]];
      InsertSorts(nodes, SortByKey(nodes, bucket[..n]), bucket[n]);
      InsertKeeps(nodes, SortByKey(nodes, bucket[..n]), bucket[n]);
    }
  }

  /** Nodes that nest in `bucket`. */
  predicate Siblings<S>(nodes: Nodes<S>, bucket: nat, list: seq<nat>) {
    InRange(nodes, list) && forall i :: 0 <= i < |list| ==> BucketOf(nodes, list[i]) == bucket
  }

  /** The nodes of a bucket in wire order. */
  function Children<S>(nodes: Nodes<S>, bucket: nat): (r: seq<nat>)
    ensures Siblings(nodes, bucket, r) && KeySorted(nodes, r)
  {
    MembersAre(nodes, bucket, |nodes|);
    SortSorts(nodes, MembersOf(nodes, bucket, |nodes|));
    var r := SortByKey(nodes, MembersOf(nodes, bucket, |nodes|));
    assert forall i :: 0 <= i < |r| ==> r[i] in r;
    r
  }

  /** A bucket's children are exactly the nodes that nest there. */
  lemma ChildrenAre<S>(nodes: Nodes<S>, bucket: nat)
    ensures forall x: nat :: x in Children(nodes, bucket) <==> x < |nodes| && BucketOf(nodes, x) == bucket
  {
    MembersAre(nodes, bucket, |nodes|);
    SortSorts(nodes, MembersOf(nodes, bucket, |nodes|));
  }

  // ----- the preorder walk

  /** Each listed node followed by the walk of its own children; a vacant node is skipped with
      everything below it. */
  ghost function Preorder<S>(nodes: Nodes<S>, bucket: nat, list: seq<nat>): seq<nat>
    requires ParentsPrecede(nodes) && Siblings(nodes, bucket, list)
    decreases |nodes| + 1 - bucket, |list|
  {
    if list == [] then []
    else
      var at, rest := list[0], list[1..];
      if nodes[at].shape.None? then Preorder(nodes, bucket, rest)
      else [at] + Preorder(nodes, at + 1, Children(nodes, at + 1)) + Preorder(nodes, bucket, rest)
  }

  ghost function Walk<S>(nodes: Nodes<S>): seq<nat>
    requires ParentsPrecede(nodes)
  {
    Preorder(nodes, 0, Children(nodes, 0))
  }

  /** `x` nests in `bucket`, at any depth. */
  ghost predicate Under<S>(nodes: Nodes<S>, x: nat, bucket: nat)
    requires ParentsPrecede(nodes) && x < |nodes|
    decreases x
  {
    BucketOf(nodes, x) == bucket || (nodes[x].parent.Some? && Under(nodes, nodes[x].parent.value, bucket))
  }

  /** `x` is `at` or nests below it. */
  ghost predicate Within<S>(nodes: Nodes<S>, x: nat, at: nat)
    requires ParentsPrecede(nodes) && x < |nodes|
  {
    x == at || Under(nodes, x, at + 1)
  }

  ghost predicate Filled<S>(nodes: Nodes<S>, x: nat)
    requires x < |nodes|
  {
    nodes[x].shape.Some?
  }

  /** `x` nests in `bucket` through filled nodes only. */
  ghost predicate LiveUnder<S>(nodes: Nodes<S>, x: nat, bucket: nat)
    requires ParentsPrecede(nodes) && x < |nodes|
    decreases x
  {
    && Filled(nodes, x)
    && (BucketOf(nodes, x) == bucket || (nodes[x].parent.Some? && LiveUnder(nodes, nodes[x].parent.value, bucket)))
  }

  // ----- nesting

  lemma {:induction false} LiveIsUnder<S>(nodes: Nodes<S>, x: nat, bucket: nat)
    requires ParentsPrecede(nodes) && x < |nodes| && LiveUnder(nodes, x, bucket)
    ensures Under(nodes, x, bucket)
    decreases x
  {
    if BucketOf(nodes, x) != bucket { LiveIsUnder(nodes, nodes[x].parent.value, bucket); }
  }

  lemma {:induction false} UnderIsLater<S>(nodes: Nodes<S>, x: nat, bucket: nat)
    requires ParentsPrecede(nodes) && x < |nodes| && Under(nodes, x, bucket)
    ensures x >= bucket && BucketOf(nodes, x) >= bucket
    decreases x
  {
    if BucketOf(nodes, x) != bucket { UnderIsLater(nodes, nodes[x].parent.value, bucket); }
  }

  /** Below a child is below its bucket. */
  lemma {:induction false} UnderChild<S>(nodes: Nodes<S>, x: nat, at: nat)
    requires ParentsPrecede(nodes) && x < |nodes| && at < |nodes| && Under(nodes, x, at + 1)
    ensures Under(nodes, x, BucketOf(nodes, at))
    decreases x
  {
    if BucketOf(nodes, x) != at + 1 { UnderChild(nodes, nodes[x].parent.value, at); }
  }

  /** Two different siblings share nothing below them. */
  lemma {:induction false} SiblingsApart<S>(nodes: Nodes<S>, x: nat, c: nat, d: nat)
    requires ParentsPrecede(nodes) && x < |nodes| && c < |nodes| && d < |nodes|
    requires BucketOf(nodes, c) == BucketOf(nodes, d) && Within(nodes, x, c) && Within(nodes, x, d)
    ensures c == d
    decreases x
  {
    if x == c || x == d {
      var other := if x == c then d else c;
      if x != other { UnderIsLater(nodes, x, other + 1); }
    } else {
      SiblingsApart(nodes, nodes[x].parent.value, c, d);
    }
  }

  // ----- what the walk lists

  lemma {:induction false} LiveSplits<S>(nodes: Nodes<S>, x: nat, bucket: nat) returns (c: nat)
    requires ParentsPrecede(nodes) && x < |nodes| && LiveUnder(nodes, x, bucket)
    ensures c < |nodes| && BucketOf(nodes, c) == bucket && Filled(nodes, c) && (x == c || LiveUnder(nodes, x, c + 1))
    decreases x
  {
    if BucketOf(nodes, x) == bucket { c := x; } else { c := LiveSplits(nodes, nodes[x].parent.value, bucket); }
  }

  lemma {:induction false} LiveJoins<S>(nodes: Nodes<S>, x: nat, c: nat)
    requires ParentsPrecede(nodes) && x < |nodes| && c < |nodes| && Filled(nodes, c) && LiveUnder(nodes, x, c + 1)
    ensures LiveUnder(nodes, x, BucketOf(nodes, c))
    decreases x
  {
    if BucketOf(nodes, x) != c + 1 { LiveJoins(nodes, nodes[x].parent.value, c); }
  }

  /** `x` is listed exactly when it lies live within one of `list`. */
  ghost predicate LiveWithin<S>(nodes: Nodes<S>, x: nat, list: seq<nat>)
    requires ParentsPrecede(nodes) && InRange(nodes, list) && x < |nodes|
  {
    exists i :: 0 <= i < |list| && Filled(nodes, list[i]) && (x == list[i] || LiveUnder(nodes, x, list[i] + 1))
  }

  lemma PreorderCons<S>(nodes: Nodes<S>, bucket: nat, list: seq<nat>)
    requires ParentsPrecede(nodes) && Siblings(nodes, bucket, list) && list != []
    ensures Siblings(nodes, bucket, list[1..])
    ensures Preorder(nodes, bucket, list) ==
            if Filled(nodes, list[0])
            then [list[0]] + Preorder(nodes, list[0] + 1, Children(nodes, list[0] + 1)) +
                 Preorder(nodes, bucket, list[1..])
            else Preorder(nodes, bucket, list[1..])
  {
  }

  lemma InJoin(at: nat, sub: seq<nat>, tail: seq<nat>, x: nat)
    ensures x in [at] + sub + tail <==> x == at || x in sub || x in tail
  {
  }

  lemma PreorderNil<S>(nodes: Nodes<S>, bucket: nat)
    requires ParentsPrecede(nodes)
    ensures Preorder(nodes, bucket, []) == []
  {
  }

  lemma {:induction false} PreorderInRange<S>(nodes: Nodes<S>, bucket: nat, list: seq<nat>)
    requires ParentsPrecede(nodes) && Siblings(nodes, bucket, list)
    ensures InRange(nodes, Preorder(nodes, bucket, list))
    decreases |nodes| + 1 - bucket, |list|
  {
    if list != [] {
      PreorderCons(nodes, bucket, list);
      PreorderInRange(nodes, bucket, list[1..]);
      if Filled(nodes, list[0]) { PreorderInRange(nodes, list[0] + 1, Children(nodes, list[0] + 1)); }
    }
  }

  lemma {:induction false} PreorderLists<S>(nodes: Nodes<S>, bucket: nat, list: seq<nat>, x: nat)
    requires ParentsPrecede(nodes) && Siblings(nodes, bucket, list) && x < |nodes|
    ensures x in Preorder(nodes, bucket, list) <==> LiveWithin(nodes, x, list)
    decreases |nodes| + 1 - bucket, |list|
  {
    hide LiveWithin, LiveUnder, KeySorted, Preorder, Children;
    if list == [] {
      NothingWithin(nodes, x);
      PreorderNil(nodes, bucket);
    } else {
      var at := list[0];
      PreorderCons(nodes, bucket, list);
      PreorderLists(nodes, bucket, list[1..], x);
      LiveWithinCons(nodes, x, list);
      if Filled(nodes, at) {
        PreorderLists(nodes, at + 1, Children(nodes, at + 1), x);
        BucketLive(nodes, x, at + 1);
        InJoin(at, Preorder(nodes, at + 1, Children(nodes, at + 1)), Preorder(nodes, bucket, list[1..]), x);
      }
    }
  }

  lemma NothingWithin<S>(nodes: Nodes<S>, x: nat)
    requires ParentsPrecede(nodes) && x < |nodes|
    ensures !LiveWithin(nodes, x, [])
  {
  }

  lemma LiveWithinCons<S>(nodes: Nodes<S>, x: nat, list: seq<nat>)
    requires ParentsPrecede(nodes) && InRange(nodes, list) && x < |nodes| && list != []
    ensures LiveWithin(nodes, x, list) <==>
            || (Filled(nodes, list[0]) && (x == list[0] || LiveUnder(nodes, x, list[0] + 1)))
            || LiveWithin(nodes, x, list[1..])
  {
    var rest := list[1..];
    if LiveWithin(nodes, x, rest) {
      var i :| 0 <= i < |rest| && Filled(nodes, rest[i]) && (x == rest[i] || LiveUnder(nodes, x, rest[i] + 1));
      assert list[i + 1] == rest[i];
    }
    if LiveWithin(nodes, x, list) {
      var i :| 0 <= i < |list| && Filled(nodes, list[i]) && (x == list[i] || LiveUnder(nodes, x, list[i] + 1));
      if i > 0 { assert rest[i - 1] == list[i]; }
    }
  }

  /** The children of a bucket and what lies live within them are what is live under it. */
  lemma BucketLive<S>(nodes: Nodes<S>, x: nat, bucket: nat)
    requires ParentsPrecede(nodes) && x < |nodes|
    ensures LiveWithin(nodes, x, Children(nodes, bucket)) <==> LiveUnder(nodes, x, bucket)
  {
    hide Children, KeySorted, LiveUnder;
    var list := Children(nodes, bucket);
    if LiveUnder(nodes, x, bucket) {
      var c := LiveSplits(nodes, x, bucket);
      ChildListed(nodes, bucket, c);
      var i :| 0 <= i < |list| && list[i] == c;
      assert Filled(nodes, list[i]);
    }
    if LiveWithin(nodes, x, list) {
      var i :| 0 <= i < |list| && Filled(nodes, list[i]) && (x == list[i] || LiveUnder(nodes, x, list[i] + 1));
      if x == list[i] { LiveItself(nodes, x); } else { LiveJoins(nodes, x, list[i]); }
    }
  }

  lemma ChildListed<S>(nodes: Nodes<S>, bucket: nat, c: nat)
    requires c < |nodes| && BucketOf(nodes, c) == bucket
    ensures c in Children(nodes, bucket)
  {
    ChildrenAre(nodes, bucket);
  }

  lemma LiveItself<S>(nodes: Nodes<S>, x: nat)
    requires ParentsPrecede(nodes) && x < |nodes| && Filled(nodes, x)
    ensures LiveUnder(nodes, x, BucketOf(nodes, x))
  {
  }

  // ----- the order of the walk

  /** Siblings are listed by (class, position); in particular nothing is listed twice. */
  ghost predicate InWireOrder<S>(nodes: Nodes<S>, walk: seq<nat>)
    requires InRange(nodes, walk)
  {
    forall i, j :: 0 <= i < j < |walk| && BucketOf(nodes, walk[i]) == BucketOf(nodes, walk[j]) ==>
      KeyLess(nodes, walk[i], walk[j])
  }

  /** After `x` comes a node of the outermost bucket, or one nesting directly in `x` or in a
      node `x` lies below. */
  ghost predicate Follows<S>(nodes: Nodes<S>, bucket: nat, x: nat, y: nat)
    requires ParentsPrecede(nodes) && x < |nodes| && y < |nodes|
  {
    BucketOf(nodes, y) == bucket || (nodes[y].parent.Some? && Within(nodes, x, nodes[y].parent.value))
  }

  /** Every subtree is listed in one piece, right after its root. */
  ghost predicate DepthFirst<S>(nodes: Nodes<S>, bucket: nat, walk: seq<nat>)
    requires ParentsPrecede(nodes) && InRange(nodes, walk)
  {
    forall k :: 0 <= k < |walk| - 1 ==> Follows(nodes, bucket, walk[k], walk[k + 1])
  }

  lemma CrossApart<S>(nodes: Nodes<S>, c: nat, d: nat, x: nat, y: nat)
    requires ParentsPrecede(nodes) && c < |nodes| && d < |nodes| && x < |nodes| && y < |nodes|
    requires c != d && BucketOf(nodes, c) == BucketOf(nodes, d)
    requires Within(nodes, x, c) && Within(nodes, y, d) && (x != c || y != d)
    ensures BucketOf(nodes, x) != BucketOf(nodes, y)
  {
    if x != c { UnderIsLater(nodes, x, c + 1); }
    if y != d { UnderIsLater(nodes, y, d + 1); }
    if x != c && y != d && BucketOf(nodes, x) == BucketOf(nodes, y) {
      SiblingsApart(nodes, nodes[x].parent.value, c, d);
    }
  }

  /** What is listed lies within one of the listed siblings. */
  lemma ListedWithin<S>(nodes: Nodes<S>, bucket: nat, list: seq<nat>, x: nat) returns (i: nat)
    requires ParentsPrecede(nodes) && Siblings(nodes, bucket, list) && x < |nodes| && x in Preorder(nodes, bucket, list)
    ensures i < |list| && Within(nodes, x, list[i])
  {
    hide Preorder, KeySorted;
    PreorderLists(nodes, bucket, list, x);
    i :| 0 <= i < |list| && Filled(nodes, list[i]) && (x == list[i] || LiveUnder(nodes, x, list[i] + 1));
    if x != list[i] { LiveIsUnder(nodes, x, list[i] + 1); }
  }

  lemma ListedUnder<S>(nodes: Nodes<S>, bucket: nat, x: nat)
    requires ParentsPrecede(nodes) && x < |nodes| && x in Preorder(nodes, bucket, Children(nodes, bucket))
    ensures Under(nodes, x, bucket) && BucketOf(nodes, x) >= bucket
  {
    hide Preorder, KeySorted;
    PreorderLists(nodes, bucket, Children(nodes, bucket), x);
    BucketLive(nodes, x, bucket);
    LiveIsUnder(nodes, x, bucket);
    UnderIsLater(nodes, x, bucket);
  }

  lemma HeadWithin<S>(nodes: Nodes<S>, at: nat, x: nat)
    requires ParentsPrecede(nodes) && x < |nodes| && (x == at || x in Preorder(nodes, at + 1, Children(nodes, at + 1)))
    ensures Within(nodes, x, at)
  {
    if x != at { ListedUnder(nodes, at + 1, x); }
  }

  /** The pieces of a walk that starts with the filled node `list[0]`. */
  lemma HeadFirst<S>(nodes: Nodes<S>, bucket: nat, list: seq<nat>, x: nat, y: nat)
    requires ParentsPrecede(nodes) && Siblings(nodes, bucket, list) && list != [] && KeySorted(nodes, list)
    requires x < |nodes| && y < |nodes|
    requires x == list[0] || x in Preorder(nodes, list[0] + 1, Children(nodes, list[0] + 1))
    requires y in Preorder(nodes, bucket, list[1..])
    requires BucketOf(nodes, x) == BucketOf(nodes, y)
    ensures KeyLess(nodes, x, y)
  {
    hide Preorder, Within;
    var i := ListedWithin(nodes, bucket, list[1..], y);
    var d := list[1..][i];
    assert d == list[i + 1] && KeyLess(nodes, list[0], d);
    HeadWithin(nodes, list[0], x);
    if x != list[0] || y != d { CrossApart(nodes, list[0], d, x, y); }
  }

  lemma {:induction false} PreorderInOrder<S>(nodes: Nodes<S>, bucket: nat, list: seq<nat>)
    requires ParentsPrecede(nodes) && Siblings(nodes, bucket, list) && KeySorted(nodes, list)
    ensures InRange(nodes, Preorder(nodes, bucket, list)) && InWireOrder(nodes, Preorder(nodes, bucket, list))
    decreases |nodes| + 1 - bucket, |list|
  {
    hide Preorder, KeyLess;
    PreorderInRange(nodes, bucket, list);
    if list == [] {
      PreorderNil(nodes, bucket);
    } else {
      var at, rest := list[0], list[1..];
      PreorderCons(nodes, bucket, list);
      PreorderInOrder(nodes, bucket, rest);
      if Filled(nodes, at) {
        PreorderInOrder(nodes, at + 1, Children(nodes, at + 1));
        var sub, tail := Preorder(nodes, at + 1, Children(nodes, at + 1)), Preorder(nodes, bucket, rest);
        forall i | 0 <= i < |sub| ensures BucketOf(nodes, sub[i]) != BucketOf(nodes, at) {
          ListedUnder(nodes, at + 1, sub[i]);
        }
        forall j | 0 <= j < |tail| && BucketOf(nodes, at) == BucketOf(nodes, tail[j])
          ensures KeyLess(nodes, at, tail[j])
        {
          HeadFirst(nodes, bucket, list, at, tail[j]);
        }
        forall i, j | 0 <= i < |sub| && 0 <= j < |tail| && BucketOf(nodes, sub[i]) == BucketOf(nodes, tail[j])
          ensures KeyLess(nodes, sub[i], tail[j])
        {
          HeadFirst(nodes, bucket, list, sub[i], tail[j]);
        }
        OrderJoins(nodes, at, sub, tail);
      }
    }
  }

  lemma OrderJoins<S>(nodes: Nodes<S>, at: nat, sub: seq<nat>, tail: seq<nat>)
    requires at < |nodes| && InRange(nodes, sub) && InRange(nodes, tail)
    requires InWireOrder(nodes, sub) && InWireOrder(nodes, tail)
    requires forall i :: 0 <= i < |sub| ==> BucketOf(nodes, sub[i]) != BucketOf(nodes, at)
    requires forall j :: 0 <= j < |tail| && BucketOf(nodes, at) == BucketOf(nodes, tail[j]) ==>
      KeyLess(nodes, at, tail[j])
    requires forall i, j :: 0 <= i < |sub| && 0 <= j < |tail| && BucketOf(nodes, sub[i]) == BucketOf(nodes, tail[j]) ==>
               KeyLess(nodes, sub[i], tail[j])
    ensures InRange(nodes, [at] + sub + tail) && InWireOrder(nodes, [at] + sub + tail)
  {
    hide KeyLess, BucketOf;
    var walk, n := [at] + sub + tail, 1 + |sub|;
    forall i | 0 <= i < |walk| ensures walk[i] == if i == 0 then at else if i < n then sub[i - 1] else tail[i - n] {}
  }

  ghost predicate StartsIn<S>(nodes: Nodes<S>, bucket: nat, walk: seq<nat>)
    requires InRange(nodes, walk)
  {
    walk != [] ==> BucketOf(nodes, walk[0]) == bucket
  }

  lemma DepthFirstJoins<S>(nodes: Nodes<S>, bucket: nat, at: nat, sub: seq<nat>, tail: seq<nat>)
    requires ParentsPrecede(nodes) && at < |nodes| && InRange(nodes, sub) && InRange(nodes, tail)
    requires DepthFirst(nodes, at + 1, sub) && StartsIn(nodes, at + 1, sub)
    requires forall i :: 0 <= i < |sub| ==> Within(nodes, sub[i], at)
    requires DepthFirst(nodes, bucket, tail) && StartsIn(nodes, bucket, tail)
    ensures InRange(nodes, [at] + sub + tail) && DepthFirst(nodes, bucket, [at] + sub + tail)
  {
    var walk, n := [at] + sub + tail, 1 + |sub|;
    forall k | 0 <= k < |walk| - 1 ensures Follows(nodes, bucket, walk[k], walk[k + 1]) {
      if k + 1 < n {
        assert walk[k + 1] == sub[k];
        if k > 0 {
          assert walk[k] == sub[k - 1];
          assert Follows(nodes, at + 1, sub[k - 1], sub[k - 1 + 1]);
        }
      } else {
        assert walk[k + 1] == tail[k + 1 - n];
        if k + 1 > n {
          assert walk[k] == tail[k - n];
          assert Follows(nodes, bucket, tail[k - n], tail[k - n + 1]);
        }
      }
    }
  }

  lemma {:induction false} PreorderDepthFirst<S>(nodes: Nodes<S>, bucket: nat, list: seq<nat>)
    requires ParentsPrecede(nodes) && Siblings(nodes, bucket, list)
    ensures InRange(nodes, Preorder(nodes, bucket, list)) && DepthFirst(nodes, bucket, Preorder(nodes, bucket, list))
    ensures StartsIn(nodes, bucket, Preorder(nodes, bucket, list))
    decreases |nodes| + 1 - bucket, |list|
  {
    hide Preorder, DepthFirst, Within;
    PreorderInRange(nodes, bucket, list);
    if list == [] {
      PreorderNil(nodes, bucket);
      DepthFirstNil(nodes, bucket);
    } else {
      var at := list[0];
      PreorderCons(nodes, bucket, list);
      PreorderDepthFirst(nodes, bucket, list[1..]);
      if Filled(nodes, at) {
        PreorderDepthFirst(nodes, at + 1, Children(nodes, at + 1));
        var sub := Preorder(nodes, at + 1, Children(nodes, at + 1));
        forall i | 0 <= i < |sub| ensures Within(nodes, sub[i], at) { HeadWithin(nodes, at, sub[i]); }
        DepthFirstJoins(nodes, bucket, at, sub, Preorder(nodes, bucket, list[1..]));
      }
    }
  }

  lemma DepthFirstNil<S>(nodes: Nodes<S>, bucket: nat)
    requires ParentsPrecede(nodes)
    ensures DepthFirst(nodes, bucket, [])
  {
  }

  // ----- what a listing is, in the buffer's own terms

  /** Fields stand before groups and groups before branches; within a class, the order of the
      traversal. */
  ghost predicate StandsBefore<S>(nodes: Nodes<S>, a: nat, b: nat)
    requires a < |nodes| && b < |nodes|
  {
    && (nodes[b].wireClass == FieldClass ==> nodes[a].wireClass == FieldClass)
    && (nodes[b].wireClass == GroupClass ==> nodes[a].wireClass != BranchClass)
    && (nodes[a].wireClass == nodes[b].wireClass ==> a < b)
  }

  lemma KeyMeans<S>(nodes: Nodes<S>, a: nat, b: nat)
    requires a < |nodes| && b < |nodes|
    ensures KeyLess(nodes, a, b) <==> StandsBefore(nodes, a, b)
  {
  }

  lemma BucketMeans<S>(nodes: Nodes<S>, a: nat, b: nat)
    requires a < |nodes| && b < |nodes|
    ensures BucketOf(nodes, a) == BucketOf(nodes, b) <==> nodes[a].parent == nodes[b].parent
  {
  }

  /** A bucket's children: the nodes with that parent, fields first, then groups, then branches. */
  lemma ClassesInOrder<S>(nodes: Nodes<S>, parent: Option<nat>)
    ensures var list := Children(nodes, if parent.None? then 0 else parent.value + 1);
      && (forall x: nat :: x in list <==> x < |nodes| && nodes[x].parent == parent)
      && (forall i, j :: 0 <= i < j < |list| ==> StandsBefore(nodes, list[i], list[j]))
  {
    var bucket := if parent.None? then 0 else parent.value + 1;
    ChildrenAre(nodes, bucket);
    hide Children;
    var list := Children(nodes, bucket);
    forall i, j | 0 <= i < j < |list| ensures StandsBefore(nodes, list[i], list[j]) {
      assert KeyLess(nodes, list[i], list[j]);
      KeyMeans(nodes, list[i], list[j]);
    }
  }

  /** No vacancy at `x` or above it. */
  ghost predicate Live<S>(nodes: Nodes<S>, x: nat)
    requires ParentsPrecede(nodes) && x < |nodes|
    decreases x
  {
    nodes[x].shape.Some? && (nodes[x].parent.Some? ==> Live(nodes, nodes[x].parent.value))
  }

  /** `x` is `a`, or its parent is at or below `a`. */
  ghost predicate AtOrBelow<S>(nodes: Nodes<S>, x: nat, a: nat)
    requires ParentsPrecede(nodes) && x < |nodes|
    decreases x
  {
    x == a || (nodes[x].parent.Some? && AtOrBelow(nodes, nodes[x].parent.value, a))
  }

  lemma {:induction false} LiveMeans<S>(nodes: Nodes<S>, x: nat)
    requires ParentsPrecede(nodes) && x < |nodes|
    ensures LiveUnder(nodes, x, 0) <==> Live(nodes, x)
    decreases x
  {
    if nodes[x].parent.Some? { LiveMeans(nodes, nodes[x].parent.value); }
  }

  lemma {:induction false} WithinMeans<S>(nodes: Nodes<S>, x: nat, a: nat)
    requires ParentsPrecede(nodes) && x < |nodes|
    ensures Within(nodes, x, a) <==> AtOrBelow(nodes, x, a)
    decreases x
  {
    if nodes[x].parent.Some? { WithinMeans(nodes, nodes[x].parent.value, a); }
  }

  /** Exactly the live nodes, each once; siblings in wire order; and every node is followed by a
      member of the product itself, or by a child of a node it lies at or below. */
  ghost predicate IsListing<S>(nodes: Nodes<S>, walk: seq<nat>)
    requires ParentsPrecede(nodes)
  {
    && InRange(nodes, walk)
    && (forall x: nat :: x < |nodes| ==> (x in walk <==> Live(nodes, x)))
    && (forall i, j :: 0 <= i < j < |walk| ==> walk[i] != walk[j])
    && (forall i, j :: 0 <= i < j < |walk| && nodes[walk[i]].parent == nodes[walk[j]].parent ==>
          StandsBefore(nodes, walk[i], walk[j]))
    && (forall k :: 0 <= k < |walk| - 1 ==> Succeeds(nodes, walk[k], walk[k + 1]))
  }

  ghost predicate Succeeds<S>(nodes: Nodes<S>, x: nat, y: nat)
    requires ParentsPrecede(nodes) && x < |nodes| && y < |nodes|
  {
    nodes[y].parent.Some? ==> AtOrBelow(nodes, x, nodes[y].parent.value)
  }

  lemma FollowsMeans<S>(nodes: Nodes<S>, x: nat, y: nat)
    requires ParentsPrecede(nodes) && x < |nodes| && y < |nodes|
    ensures Follows(nodes, 0, x, y) <==> Succeeds(nodes, x, y)
  {
    if nodes[y].parent.Some? { WithinMeans(nodes, x, nodes[y].parent.value); }
  }
}
