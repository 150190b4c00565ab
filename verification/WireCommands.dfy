/**
 Emission of the command vector: buckets filled and sorted, then one bounded depth-first
 emission that takes each shape as it goes, against the preorder walk of the tree.
 */
module WireCommands {
  import opened Wrappers
  import opened WireOrder

  // ----- the commands of a walk

  /** The commands for `list` and all below it, the next command having index `base`. */
  ghost function Emitted<S>(nodes: Nodes<S>, bucket: nat, list: seq<nat>, parent: Option<nat>, base: nat)
    : seq<Command<S>>
    requires ParentsPrecede(nodes) && Siblings(nodes, bucket, list)
    decreases |nodes| + 1 - bucket, |list|
  {
    if list == [] then []
    else
      var at, rest := list[0], list[1..];
      if nodes[at].shape.None? then Emitted(nodes, bucket, rest, parent, base)
      else
        var sub := Emitted(nodes, at + 1, Children(nodes, at + 1), Some(base), base + 1);
        [Command(parent, nodes[at].shape.value)] + sub + Emitted(nodes, bucket, rest, parent, base + 1 + |sub|)
  }

  /** `command` is the image of the walk's node `k`: its shape, under the image of its parent. */
  ghost predicate IsImage<S>(nodes: Nodes<S>, bucket: nat, walk: seq<nat>, parent: Option<nat>, base: nat, k: nat,
                             command: Command<S>)
    requires InRange(nodes, walk) && k < |walk|
  {
    && nodes[walk[k]].shape == Some(command.shape)
    && if BucketOf(nodes, walk[k]) == bucket then command.parent == parent
       else
         && command.parent.Some? && base <= command.parent.value < base + k
         && nodes[walk[k]].parent == Some(walk[command.parent.value - base])
  }

  ghost predicate AreImages<S>(nodes: Nodes<S>, bucket: nat, walk: seq<nat>, parent: Option<nat>, base: nat,
                               commands: seq<Command<S>>)
    requires InRange(nodes, walk)
  {
    |commands| == |walk| && forall k :: 0 <= k < |walk| ==> IsImage(nodes, bucket, walk, parent, base, k, commands[k])
  }

  lemma SubImage<S>(nodes: Nodes<S>, bucket: nat, at: nat, sub: seq<nat>, tail: seq<nat>, parent: Option<nat>,
                    base: nat, k: nat, command: Command<S>)
    requires at < |nodes| && InRange(nodes, sub) && InRange(nodes, tail) && k < |sub| && bucket <= at
    requires BucketOf(nodes, sub[k]) > at && IsImage(nodes, at + 1, sub, Some(base), base + 1, k, command)
    ensures InRange(nodes, [at] + sub + tail) && IsImage(nodes, bucket, [at] + sub + tail, parent, base, k + 1, command)
  {
    var walk := [at] + sub + tail;
    assert walk[k + 1] == sub[k];
    if BucketOf(nodes, sub[k]) != at + 1 {
      assert walk[command.parent.value - base] == sub[command.parent.value - base - 1];
    }
  }

  lemma TailImage<S>(nodes: Nodes<S>, bucket: nat, front: seq<nat>, tail: seq<nat>, parent: Option<nat>, base: nat,
                     k: nat, command: Command<S>)
    requires InRange(nodes, front) && InRange(nodes, tail) && k < |tail|
    requires IsImage(nodes, bucket, tail, parent, base + |front|, k, command)
    ensures InRange(nodes, front + tail) && IsImage(nodes, bucket, front + tail, parent, base, |front| + k, command)
  {
    var walk := front + tail;
    assert walk[|front| + k] == tail[k];
    if BucketOf(nodes, tail[k]) != bucket {
      assert walk[command.parent.value - base] == tail[command.parent.value - base - |front|];
    }
  }

  lemma ImagesJoin<S>(nodes: Nodes<S>, bucket: nat, at: nat, sub: seq<nat>, tail: seq<nat>, parent: Option<nat>,
                      base: nat,
                      subCommands: seq<Command<S>>, tailCommands: seq<Command<S>>)
    requires at < |nodes| && InRange(nodes, sub) && InRange(nodes, tail) && bucket <= at
    requires BucketOf(nodes, at) == bucket && Filled(nodes, at)
    requires forall i :: 0 <= i < |sub| ==> BucketOf(nodes, sub[i]) > at
    requires AreImages(nodes, at + 1, sub, Some(base), base + 1, subCommands)
    requires AreImages(nodes, bucket, tail, parent, base + 1 + |sub|, tailCommands)
    ensures InRange(nodes, [at] + sub + tail)
    ensures AreImages(nodes, bucket, [at] + sub + tail, parent, base,
                      [Command(parent, nodes[at].shape.value)] + subCommands + tailCommands)
  {
    var walk, n := [at] + sub + tail, 1 + |sub|;
    var commands := [Command(parent, nodes[at].shape.value)] + subCommands + tailCommands;
    forall k | 0 <= k < |walk| ensures IsImage(nodes, bucket, walk, parent, base, k, commands[k]) {
      if 0 < k < n {
        assert commands[k] == subCommands[k - 1];
        SubImage(nodes, bucket, at, sub, tail, parent, base, k - 1, commands[k]);
      } else if n <= k {
        assert commands[k] == tailCommands[k - n];
        TailImage(nodes, bucket, [at] + sub, tail, parent, base, k - n, commands[k]);
      }
    }
  }

  lemma EmittedCons<S>(nodes: Nodes<S>, bucket: nat, list: seq<nat>, parent: Option<nat>, base: nat)
    requires ParentsPrecede(nodes) && Siblings(nodes, bucket, list) && list != []
    ensures Siblings(nodes, bucket, list[1..]) && bucket <= list[0]
    ensures Emitted(nodes, bucket, list, parent, base) ==
            if nodes[list[0]].shape.None? then Emitted(nodes, bucket, list[1..], parent, base)
            else
              var sub := Emitted(nodes, list[0] + 1, Children(nodes, list[0] + 1), Some(base), base + 1);
              [Command(parent, nodes[list[0]].shape.value)] + sub +
              Emitted(nodes, bucket, list[1..], parent, base + 1 + |sub|)
  {
  }

  /** The emitted commands are the images of the preorder walk, node for node. */
  lemma {:induction false} EmittedAreImages<S>(nodes: Nodes<S>, bucket: nat, list: seq<nat>, parent: Option<nat>,
                                               base: nat)
    requires ParentsPrecede(nodes) && Siblings(nodes, bucket, list)
    ensures InRange(nodes, Preorder(nodes, bucket, list))
    ensures AreImages(nodes, bucket, Preorder(nodes, bucket, list), parent, base,
                      Emitted(nodes, bucket, list, parent, base))
    decreases |nodes| + 1 - bucket, |list|
  {
    hide Preorder, Emitted, AreImages, IsImage, Children, KeySorted;
    PreorderInRange(nodes, bucket, list);
    if list == [] {
      NoImages(nodes, bucket, parent, base);
    } else {
      PreorderCons(nodes, bucket, list);
      EmittedCons(nodes, bucket, list, parent, base);
      var at, rest := list[0], list[1..];
      if Filled(nodes, at) {
        var sub := Preorder(nodes, at + 1, Children(nodes, at + 1));
        EmittedAreImages(nodes, at + 1, Children(nodes, at + 1), Some(base), base + 1);
        var subCommands := Emitted(nodes, at + 1, Children(nodes, at + 1), Some(base), base + 1);
        ImageCount(nodes, at + 1, sub, Some(base), base + 1, subCommands);
        EmittedAreImages(nodes, bucket, rest, parent, base + 1 + |sub|);
        forall i | 0 <= i < |sub| ensures BucketOf(nodes, sub[i]) > at { ListedUnder(nodes, at + 1, sub[i]); }
        ImagesJoin(nodes, bucket, at, sub, Preorder(nodes, bucket, rest), parent, base,
                   subCommands, Emitted(nodes, bucket, rest, parent, base + 1 + |sub|));
      } else {
        EmittedAreImages(nodes, bucket, rest, parent, base);
      }
    }
  }

  lemma NoImages<S>(nodes: Nodes<S>, bucket: nat, parent: Option<nat>, base: nat)
    requires ParentsPrecede(nodes)
    ensures AreImages(nodes, bucket, Preorder(nodes, bucket, []), parent, base,
                      Emitted(nodes, bucket, [], parent, base))
  {
  }

  lemma ImageCount<S>(nodes: Nodes<S>, bucket: nat, walk: seq<nat>, parent: Option<nat>, base: nat,
                      commands: seq<Command<S>>)
    requires InRange(nodes, walk) && AreImages(nodes, bucket, walk, parent, base, commands)
    ensures |commands| == |walk|
  {
  }

  // ----- the bounded emission

  ghost function Cut<S>(commands: seq<Command<S>>): seq<Command<S>> {
    if |commands| <= MAX_ADMITTED_DECLARATION_COMMANDS then commands
    else commands[..MAX_ADMITTED_DECLARATION_COMMANDS]
  }

  /** Cutting early or late gives the same commands. */
  lemma CutAgain<S>(a: seq<Command<S>>, b: seq<Command<S>>, c: seq<Command<S>>)
    requires |Cut(a)| == |a| ==> c == b
    ensures Cut(Cut(a) + c) == Cut(a + b)
  {
  }

  lemma CutJoin<S>(r: seq<Command<S>>, head: seq<Command<S>>, sub: seq<Command<S>>, tail: seq<Command<S>>,
                   c: seq<Command<S>>)
    requires |Cut(r + head + sub)| == |r| + |head| + |sub| ==> c == tail
    ensures Cut(Cut(r + head + sub) + c) == Cut(r + (head + sub + tail))
  {
    CutAgain(r + head + sub, tail, c);
    assert r + head + sub + tail == r + (head + sub + tail);
  }

  ghost predicate Sorted<S>(nodes: Nodes<S>, children: seq<seq<nat>>) {
    |children| == |nodes| + 1 && forall b :: 0 <= b < |children| ==> children[b] == Children(nodes, b)
  }

  /** The shapes not yet taken below `bucket` are those the buffer held. */
  ghost predicate Untaken<S>(nodes: Nodes<S>, shapes: seq<Option<S>>, bucket: nat)
    requires ParentsPrecede(nodes)
  {
    |shapes| == |nodes| && forall x: nat :: x < |nodes| && Under(nodes, x, bucket) ==> shapes[x] == nodes[x].shape
  }

  ghost predicate UntakenFrom<S>(nodes: Nodes<S>, shapes: seq<Option<S>>, list: seq<nat>, i: nat)
    requires ParentsPrecede(nodes)
  {
    && |shapes| == |nodes|
    && forall x: nat, j: nat :: x < |nodes| && i <= j < |list| && Within(nodes, x, list[j]) ==>
         shapes[x] == nodes[x].shape
  }

  /** Nothing outside `bucket` was touched. */
  ghost predicate OnlyUnder<S>(nodes: Nodes<S>, before: seq<Option<S>>, after: seq<Option<S>>, bucket: nat)
    requires ParentsPrecede(nodes)
  {
    |before| == |after| == |nodes| && forall x: nat :: x < |nodes| && !Under(nodes, x, bucket) ==> after[x] == before[x]
  }

  /** Emit the children in `bucket` and, right after each, that node's own children. */
  method Emit<S>(nodes: Nodes<S>, shapes: array<Option<S>>, children: seq<seq<nat>>, bucket: nat,
                 parent: Option<nat>, commands: seq<Command<S>>) returns (r: seq<Command<S>>)
    requires ParentsPrecede(nodes) && Sorted(nodes, children) && bucket < |children|
    requires Untaken(nodes, shapes[..], bucket) && |commands| <= MAX_ADMITTED_DECLARATION_COMMANDS
    modifies shapes
    ensures r == Cut(commands + Emitted(nodes, bucket, Children(nodes, bucket), parent, |commands|))
    ensures OnlyUnder(nodes, old(shapes[..]), shapes[..], bucket)
    decreases |nodes| + 1 - bucket
  {
    hide Emitted, Children, Untaken, UntakenFrom, OnlyUnder, Under, Within, KeySorted;
    r := commands;
    var list := children[bucket];
    StartUntaken(nodes, shapes[..], bucket, list);
    var i := 0;
    assert list[0..] == list;
    while i < |list|
      invariant 0 <= i <= |list| && |r| <= MAX_ADMITTED_DECLARATION_COMMANDS
      invariant Siblings(nodes, bucket, list[i..])
      invariant Cut(r + Emitted(nodes, bucket, list[i..], parent, |r|)) ==
                Cut(commands + Emitted(nodes, bucket, list, parent, |commands|))
      invariant OnlyUnder(nodes, old(shapes[..]), shapes[..], bucket)
      invariant UntakenFrom(nodes, shapes[..], list, i)
    {
      var at := list[i];
      if |r| >= MAX_ADMITTED_DECLARATION_COMMANDS { return; }
      ghost var was, held := shapes[..], r;
      TakenRest(nodes, was, bucket, list, i);
      var shape := shapes[at];
      shapes[at] := None;
      assert shapes[..] == was[at := None];
      if shape.Some? {
        var command := |r|;
        r := r + [Command(parent, shape.value)];
        r := Emit(nodes, shapes, children, at + 1, Some(command), r);
        EmittedRest(nodes, was[at := None], shapes[..], bucket, list, i);
      }
      StillUnder(nodes, old(shapes[..]), was, shapes[..], bucket, at);
      EmitStep(nodes, bucket, list[i..], parent, held, r);
      assert list[i..][1..] == list[i + 1..];
      i := i + 1;
    }
    EmittedNil(nodes, bucket, parent, |r|);
  }

  lemma EmittedNil<S>(nodes: Nodes<S>, bucket: nat, parent: Option<nat>, base: nat)
    requires ParentsPrecede(nodes)
    ensures Emitted(nodes, bucket, [], parent, base) == []
  {
  }

  /** Emitting one child and all below it leaves the rest of the list to emit. */
  lemma EmitStep<S>(nodes: Nodes<S>, bucket: nat, list: seq<nat>, parent: Option<nat>, r: seq<Command<S>>,
                    r': seq<Command<S>>)
    requires ParentsPrecede(nodes) && Siblings(nodes, bucket, list) && list != []
    requires var at := list[0];
             if nodes[at].shape.None? then r' == r
             else
               var held := r + [Command(parent, nodes[at].shape.value)];
               r' == Cut(held + Emitted(nodes, at + 1, Children(nodes, at + 1), Some(|r|), |held|))
    ensures Siblings(nodes, bucket, list[1..])
    ensures Cut(r' + Emitted(nodes, bucket, list[1..], parent, |r'|)) ==
            Cut(r + Emitted(nodes, bucket, list, parent, |r|))
  {
    hide Emitted, Children, Cut;
    var at := list[0];
    EmittedCons(nodes, bucket, list, parent, |r|);
    if nodes[at].shape.Some? {
      var head := [Command(parent, nodes[at].shape.value)];
      var sub := Emitted(nodes, at + 1, Children(nodes, at + 1), Some(|r|), |r| + 1);
      var tail := Emitted(nodes, bucket, list[1..], parent, |r| + 1 + |sub|);
      CutJoin(r, head, sub, tail, Emitted(nodes, bucket, list[1..], parent, |r'|));
    }
  }

  lemma StartUntaken<S>(nodes: Nodes<S>, shapes: seq<Option<S>>, bucket: nat, list: seq<nat>)
    requires ParentsPrecede(nodes) && Siblings(nodes, bucket, list) && Untaken(nodes, shapes, bucket)
    ensures UntakenFrom(nodes, shapes, list, 0) && OnlyUnder(nodes, shapes, shapes, bucket)
  {
    forall x: nat, j: nat | x < |nodes| && j < |list| && Within(nodes, x, list[j]) ensures shapes[x] == nodes[x].shape {
      if x != list[j] { UnderChild(nodes, x, list[j]); }
    }
  }

  lemma Apart<S>(nodes: Nodes<S>, bucket: nat, list: seq<nat>, i: nat, j: nat, x: nat)
    requires ParentsPrecede(nodes) && Siblings(nodes, bucket, list) && KeySorted(nodes, list)
    requires i < j < |list| && x < |nodes| && Within(nodes, x, list[j])
    ensures !Within(nodes, x, list[i])
  {
    if Within(nodes, x, list[i]) {
      SiblingsApart(nodes, x, list[i], list[j]);
      assert false;
    }
  }

  lemma TakenRest<S>(nodes: Nodes<S>, was: seq<Option<S>>, bucket: nat, list: seq<nat>, i: nat)
    requires ParentsPrecede(nodes) && Siblings(nodes, bucket, list) && KeySorted(nodes, list) && i < |list|
    requires UntakenFrom(nodes, was, list, i)
    ensures was[list[i]] == nodes[list[i]].shape
    ensures UntakenFrom(nodes, was[list[i] := None], list, i + 1) && Untaken(nodes, was[list[i] := None], list[i] + 1)
  {
    assert Within(nodes, list[i], list[i]);
    forall x: nat, j: nat | x < |nodes| && i + 1 <= j < |list| && Within(nodes, x, list[j]) ensures x != list[i] {
      Apart(nodes, bucket, list, i, j, x);
    }
    forall x: nat | x < |nodes| && Under(nodes, x, list[i] + 1) ensures x != list[i] && Within(nodes, x, list[i]) {
      UnderIsLater(nodes, x, list[i] + 1);
    }
  }

  lemma EmittedRest<S>(nodes: Nodes<S>, was: seq<Option<S>>, now: seq<Option<S>>, bucket: nat, list: seq<nat>, i: nat)
    requires ParentsPrecede(nodes) && Siblings(nodes, bucket, list) && KeySorted(nodes, list) && i < |list|
    requires UntakenFrom(nodes, was, list, i + 1) && OnlyUnder(nodes, was, now, list[i] + 1)
    ensures UntakenFrom(nodes, now, list, i + 1)
  {
    forall x: nat, j: nat | x < |nodes| && i + 1 <= j < |list| && Within(nodes, x, list[j])
      ensures now[x] == nodes[x].shape
    {
      Apart(nodes, bucket, list, i, j, x);
    }
  }

  lemma StillUnder<S>(nodes: Nodes<S>, first: seq<Option<S>>, was: seq<Option<S>>, now: seq<Option<S>>, bucket: nat,
                      at: nat)
    requires ParentsPrecede(nodes) && at < |nodes| && BucketOf(nodes, at) == bucket
    requires OnlyUnder(nodes, first, was, bucket)
    requires now == was[at := None] || OnlyUnder(nodes, was[at := None], now, at + 1)
    ensures OnlyUnder(nodes, first, now, bucket)
  {
    forall x: nat | x < |nodes| && !Under(nodes, x, bucket) ensures now[x] == first[x] {
      if Under(nodes, x, at + 1) { UnderChild(nodes, x, at); }
    }
  }

  /** Main result: the walk lists exactly the nodes with no vacancy at or above them, each once,
      fields before groups before branches among siblings and each class in traversal order,
      each subtree in one piece after its root. */
  lemma WalkMeans<S>(nodes: Nodes<S>)
    requires ParentsPrecede(nodes)
    ensures IsListing(nodes, Walk(nodes))
  {
    hide Preorder, Children, LiveUnder, Live, KeySorted, KeyLess, StandsBefore, Follows, Succeeds, BucketOf;
    PreorderInRange(nodes, 0, Children(nodes, 0));
    forall x: nat | x < |nodes| ensures x in Walk(nodes) <==> Live(nodes, x) {
      PreorderLists(nodes, 0, Children(nodes, 0), x);
      BucketLive(nodes, x, 0);
      LiveMeans(nodes, x);
    }
    PreorderInOrder(nodes, 0, Children(nodes, 0));
    PreorderDepthFirst(nodes, 0, Children(nodes, 0));
    OrderedListing(nodes, Walk(nodes));
  }

  lemma OrderedListing<S>(nodes: Nodes<S>, walk: seq<nat>)
    requires ParentsPrecede(nodes) && InRange(nodes, walk) && InWireOrder(nodes, walk) && DepthFirst(nodes, 0, walk)
    requires forall x: nat :: x < |nodes| ==> (x in walk <==> Live(nodes, x))
    ensures IsListing(nodes, walk)
  {
    hide Live, KeyLess, StandsBefore, Follows, Succeeds, BucketOf;
    forall i, j | 0 <= i < j < |walk| && nodes[walk[i]].parent == nodes[walk[j]].parent
      ensures StandsBefore(nodes, walk[i], walk[j]) && walk[i] != walk[j]
    {
      BucketMeans(nodes, walk[i], walk[j]);
      KeyMeans(nodes, walk[i], walk[j]);
      NotBeforeItself(nodes, walk[i], walk[j]);
    }
    forall k | 0 <= k < |walk| - 1 ensures Succeeds(nodes, walk[k], walk[k + 1]) {
      FollowsMeans(nodes, walk[k], walk[k + 1]);
    }
  }

  lemma NotBeforeItself<S>(nodes: Nodes<S>, a: nat, b: nat)
    requires a < |nodes| && b < |nodes| && StandsBefore(nodes, a, b)
    ensures a != b
  {
  }

  // ----- the projection

  /** `commands` spells the first nodes of `walk`: each node's shape, under the command of the
      node's own parent, which comes before it. */
  ghost predicate Spells<S>(nodes: Nodes<S>, walk: seq<nat>, commands: seq<Command<S>>)
    requires InRange(nodes, walk)
  {
    && |commands| <= |walk|
    && forall k :: 0 <= k < |commands| ==> SpellsAt(nodes, walk, commands, k)
  }

  ghost predicate SpellsAt<S>(nodes: Nodes<S>, walk: seq<nat>, commands: seq<Command<S>>, k: nat)
    requires InRange(nodes, walk) && k < |commands| <= |walk|
  {
    && nodes[walk[k]].shape == Some(commands[k].shape)
    && (nodes[walk[k]].parent.None? <==> commands[k].parent.None?)
    && (commands[k].parent.Some? ==>
          commands[k].parent.value < k && nodes[walk[k]].parent == Some(walk[commands[k].parent.value]))
  }

  lemma ImageSpells<S>(nodes: Nodes<S>, walk: seq<nat>, commands: seq<Command<S>>, k: nat)
    requires InRange(nodes, walk) && k < |commands| <= |walk| && IsImage(nodes, 0, walk, None, 0, k, commands[k])
    ensures SpellsAt(nodes, walk, commands, k)
  {
  }

  /** Commands under one parent are in wire order. */
  lemma SpelledInOrder<S>(nodes: Nodes<S>, walk: seq<nat>, commands: seq<Command<S>>, i: nat, j: nat)
    requires ParentsPrecede(nodes) && IsListing(nodes, walk) && Spells(nodes, walk, commands)
    requires i < j < |commands| && commands[i].parent == commands[j].parent
    ensures StandsBefore(nodes, walk[i], walk[j])
  {
    hide Live, StandsBefore, Succeeds;
    assert SpellsAt(nodes, walk, commands, i) && SpellsAt(nodes, walk, commands, j);
  }

  /** Project the traversal buffer into the command vector: the images of the preorder walk, cut
      to the admitted number. */
  method DeclarationCommands<S>(nodes: Nodes<S>) returns (commands: seq<Command<S>>)
    requires ParentsPrecede(nodes)
    ensures IsListing(nodes, Walk(nodes)) && Spells(nodes, Walk(nodes), commands)
    ensures |commands| == if |Walk(nodes)| <= 8193 then |Walk(nodes)| else 8193
    ensures forall i, j :: 0 <= i < j < |commands| && commands[i].parent == commands[j].parent ==>
              StandsBefore(nodes, Walk(nodes)[i], Walk(nodes)[j])
  {
    var children := seq(|nodes| + 1, _ => []);
    var at := 0;
    while at < |nodes|
      invariant 0 <= at <= |nodes| && |children| == |nodes| + 1
      invariant forall b :: 0 <= b < |children| ==> children[b] == MembersOf(nodes, b, at)
    {
      var bucket := if nodes[at].parent.None? then 0 else nodes[at].parent.value + 1;
      children := children[bucket := children[bucket] + [at]];
      at := at + 1;
    }
    var b := 0;
    while b < |children|
      invariant 0 <= b <= |children| == |nodes| + 1
      invariant forall c :: 0 <= c < b ==> children[c] == Children(nodes, c)
      invariant forall c :: b <= c < |children| ==> children[c] == MembersOf(nodes, c, |nodes|)
    {
      children := children[b := SortByKey(nodes, children[b])];
      b := b + 1;
    }
    var shapes := new Option<S>[|nodes|](i requires 0 <= i < |nodes| => nodes[i].shape);
    EmittedAreImages(nodes, 0, Children(nodes, 0), None, 0);
    hide Emitted, Children, Preorder, IsImage;
    assert shapes[..] == seq(|nodes|, i requires 0 <= i < |nodes| => nodes[i].shape);
    commands := Emit(nodes, shapes, children, 0, None, []);
    ghost var all := Emitted(nodes, 0, Children(nodes, 0), None, 0);
    assert [] + all == all;
    ImageCount(nodes, 0, Walk(nodes), None, 0, all);
    CutSpells(nodes, Walk(nodes), all, commands);
  }

  lemma CutSpells<S>(nodes: Nodes<S>, walk: seq<nat>, all: seq<Command<S>>, commands: seq<Command<S>>)
    requires ParentsPrecede(nodes) && walk == Walk(nodes) && commands == Cut(all)
    requires InRange(nodes, walk) && AreImages(nodes, 0, walk, None, 0, all)
    ensures IsListing(nodes, walk) && Spells(nodes, walk, commands)
    ensures forall i, j :: 0 <= i < j < |commands| && commands[i].parent == commands[j].parent ==>
              StandsBefore(nodes, walk[i], walk[j])
  {
    WalkMeans(nodes);
    hide Walk, IsListing, IsImage, StandsBefore, SpellsAt, BucketOf;
    forall k | 0 <= k < |commands| ensures SpellsAt(nodes, walk, commands, k) {
      assert commands[k] == all[k];
      ImageSpells(nodes, walk, commands, k);
    }
    forall i, j | 0 <= i < j < |commands| && commands[i].parent == commands[j].parent
      ensures StandsBefore(nodes, walk[i], walk[j])
    {
      SpelledInOrder(nodes, walk, commands, i, j);
    }
  }

  ghost predicate AllFilled<S>(nodes: Nodes<S>) {
    forall x :: 0 <= x < |nodes| ==> nodes[x].shape.Some?
  }

  lemma {:induction false} FilledIsLive<S>(nodes: Nodes<S>, x: nat)
    requires ParentsPrecede(nodes) && AllFilled(nodes) && x < |nodes|
    ensures Live(nodes, x)
    decreases x
  {
    if nodes[x].parent.Some? { FilledIsLive(nodes, nodes[x].parent.value); }
  }

  /** With every shape filled the walk is a permutation of the buffer. */
  lemma FilledWalkIsPermutation<S>(nodes: Nodes<S>)
    requires ParentsPrecede(nodes) && AllFilled(nodes)
    ensures |Walk(nodes)| == |nodes| && forall x: nat :: x < |nodes| ==> x in Walk(nodes)
  {
    WalkMeans(nodes);
    hide Walk, Live, StandsBefore, Succeeds;
    forall x: nat | x < |nodes| ensures x in Walk(nodes) { FilledIsLive(nodes, x); }
    DistinctCover(Walk(nodes), |nodes|);
  }

  lemma {:induction false} DistinctCover(walk: seq<nat>, n: nat)
    requires forall i :: 0 <= i < |walk| ==> walk[i] < n
    requires forall i, j :: 0 <= i < j < |walk| ==> walk[i] != walk[j]
    requires forall x: nat :: x < n ==> x in walk
    ensures |walk| == n
    decreases n
  {
    if n > 0 {
      assert n - 1 in walk;
      var k :| 0 <= k < |walk| && walk[k] == n - 1;
      var rest := walk[..k] + walk[k + 1..];
      forall x: nat | x < n - 1 ensures x in rest {
        assert x in walk;
        var i :| 0 <= i < |walk| && walk[i] == x;
        assert rest[if i < k then i else i - 1] == x;
      }
      DistinctCover(rest, n - 1);
    }
  }
}
