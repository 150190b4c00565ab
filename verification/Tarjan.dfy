/**
 The traversal state of the iterative component search and the invariant it keeps.

 A vertex is undiscovered, active (it owns a frame), or finished; a finished vertex waits
 on the component stack until its component is emitted.
 */
module Tarjan {
  import opened Paths

  const UNVISITED: int := -1

  /** One suspended visit: the vertex and the position of its next unread edge. */
  datatype Frame = Frame(vertex: nat, cursor: nat)

  datatype State = State(
    indexOf: seq<int>,
    lowlink: seq<int>,
    onStack: seq<bool>,
    stack: seq<nat>,
    emitted: seq<nat>,
    onCycle: seq<bool>,
    nextIndex: nat,
    frames: seq<Frame>)

  // ----- the invariant, clause by clause

  ghost predicate Shape(g: Graph, s: State) {
    && |s.indexOf| == |s.lowlink| == |s.onStack| == |s.onCycle| == |g|
    && (forall v :: 0 <= v < |g| ==> -1 <= s.indexOf[v] < s.nextIndex)
  }

  ghost predicate StackOk(g: Graph, s: State)
    requires Shape(g, s)
  {
    && (forall i :: 0 <= i < |s.stack| ==> s.stack[i] < |g|)
    && (forall i :: 0 <= i < |s.stack| ==> s.indexOf[s.stack[i]] >= 0 && s.onStack[s.stack[i]])
    && (forall i, j :: 0 <= i < j < |s.stack| ==> s.indexOf[s.stack[i]] < s.indexOf[s.stack[j]])
    && (forall v :: 0 <= v < |g| && s.onStack[v] ==> v in s.stack)
  }

  ghost predicate EmittedOk(g: Graph, s: State)
    requires Shape(g, s)
  {
    && (forall i :: 0 <= i < |s.emitted| ==> s.emitted[i] < |g|)
    && (forall i :: 0 <= i < |s.emitted| ==> s.indexOf[s.emitted[i]] >= 0 && !s.onStack[s.emitted[i]])
    && (forall i, j :: 0 <= i < j < |s.emitted| ==> s.emitted[i] != s.emitted[j])
    && (forall v :: 0 <= v < |g| && s.indexOf[v] >= 0 && !s.onStack[v] ==> v in s.emitted)
  }

  ghost predicate FramesOk(g: Graph, s: State)
    requires Shape(g, s)
  {
    && (forall i :: 0 <= i < |s.frames| ==> s.frames[i].vertex < |g|)
    && (forall i :: 0 <= i < |s.frames| ==>
          s.onStack[s.frames[i].vertex] && s.frames[i].cursor <= |g[s.frames[i].vertex]|)
    && (forall i :: 0 <= i < |s.frames| ==> s.lowlink[s.frames[i].vertex] <= s.indexOf[s.frames[i].vertex])
    && (forall i, j :: 0 <= i < j < |s.frames| ==>
          s.indexOf[s.frames[i].vertex] < s.indexOf[s.frames[j].vertex])
  }

  /** Edge `j` of `v` still waits to be read. */
  ghost predicate Unread(s: State, v: nat, j: nat) {
    exists i :: 0 <= i < |s.frames| && s.frames[i].vertex == v && s.frames[i].cursor <= j
  }

  /** Every read edge has a discovered target, except that `pend` may be about to be. */
  ghost predicate ReadOk(g: Graph, s: State, pend: int)
    requires Shape(g, s)
  {
    forall v: nat, j: nat :: v < |g| && s.indexOf[v] >= 0 && j < |g[v]| && !Unread(s, v, j) ==>
      && (g[v][j] < |g| ==> s.indexOf[g[v][j]] >= 0 || g[v][j] == pend)
      && (g[v][j] == v ==> s.onCycle[v])
  }

  /** `x` was discovered while frame `i` was the deepest active one at or below it. */
  ghost predicate InSegment(g: Graph, s: State, i: nat, x: nat)
    requires Shape(g, s) && FramesOk(g, s)
    requires i < |s.frames| && x < |g|
  {
    && s.indexOf[s.frames[i].vertex] <= s.indexOf[x]
    && (i + 1 < |s.frames| ==> s.indexOf[x] < s.indexOf[s.frames[i + 1].vertex])
  }

  /** A frame's lowlink is below every stacked target read from its segment. */
  ghost predicate LowBounds(g: Graph, s: State)
    requires Shape(g, s) && FramesOk(g, s)
  {
    forall i: nat, x: nat, j: nat ::
      && i < |s.frames| && x < |g| && s.onStack[x] && InSegment(g, s, i, x)
      && j < |g[x]| && !Unread(s, x, j) && g[x][j] < |g| && s.onStack[g[x][j]]
      ==> s.lowlink[s.frames[i].vertex] <= s.indexOf[g[x][j]]
  }

  /** A frame's lowlink is the index of a stacked vertex it reaches. */
  ghost predicate LowReached(g: Graph, s: State, i: nat, w: nat)
    requires Shape(g, s) && FramesOk(g, s) && i < |s.frames|
  {
    && w < |g| && s.onStack[w]
    && s.indexOf[w] == s.lowlink[s.frames[i].vertex]
    && Reaches(g, s.frames[i].vertex, w)
  }

  ghost predicate LowTarget(g: Graph, s: State, i: nat)
    requires Shape(g, s) && FramesOk(g, s) && i < |s.frames|
  {
    exists w: nat :: LowReached(g, s, i, w)
  }

  ghost predicate LowSound(g: Graph, s: State)
    requires Shape(g, s) && FramesOk(g, s)
  {
    forall i: nat {:trigger LowTarget(g, s, i)} :: i < |s.frames| ==> LowTarget(g, s, i)
  }

  /** An active vertex reaches everything stacked above it. */
  ghost predicate Down(g: Graph, s: State)
    requires Shape(g, s) && FramesOk(g, s)
  {
    forall i: nat, x: nat ::
      i < |s.frames| && x < |g| && s.onStack[x] && s.indexOf[s.frames[i].vertex] <= s.indexOf[x]
      ==> Reaches(g, s.frames[i].vertex, x)
  }

  /** Frame `i` is an active vertex at or below `x` that `x` reaches. */
  ghost predicate UpTo(g: Graph, s: State, x: nat, i: nat)
    requires Shape(g, s) && FramesOk(g, s) && x < |g|
  {
    && i < |s.frames|
    && s.indexOf[s.frames[i].vertex] <= s.indexOf[x]
    && Reaches(g, x, s.frames[i].vertex)
  }

  ghost predicate Ascends(g: Graph, s: State, x: nat)
    requires Shape(g, s) && FramesOk(g, s) && x < |g|
  {
    exists i: nat :: UpTo(g, s, x, i)
  }

  ghost predicate Up(g: Graph, s: State)
    requires Shape(g, s) && FramesOk(g, s)
  {
    forall x: nat {:trigger Ascends(g, s, x)} :: x < |g| && s.onStack[x] ==> Ascends(g, s, x)
  }

  /** Emission is callee-first, except inside a cycle. */
  ghost predicate Ordered(g: Graph, emitted: seq<nat>) {
    forall i: nat, w: nat {:trigger Edge(g, emitted[i], w)} :: i < |emitted| && Edge(g, emitted[i], w) ==>
      w in emitted[..i] || (OnCycle(g, emitted[i]) && w in emitted)
  }

  ghost predicate CyclesOk(g: Graph, s: State)
    requires Shape(g, s)
  {
    && (forall v :: 0 <= v < |g| && s.onCycle[v] ==> OnCycle(g, v))
    && (forall i :: 0 <= i < |s.emitted| && s.emitted[i] < |g| && OnCycle(g, s.emitted[i]) ==>
          s.onCycle[s.emitted[i]])
  }

  ghost predicate Inv(g: Graph, s: State, pend: int) {
    && Shape(g, s) && StackOk(g, s) && EmittedOk(g, s) && FramesOk(g, s)
    && ReadOk(g, s, pend) && LowBounds(g, s) && LowSound(g, s)
    && Down(g, s) && Up(g, s) && Ordered(g, s.emitted) && CyclesOk(g, s)
  }

  // ----- the steps

  function Start(n: nat): State {
    State(seq(n, _ => UNVISITED), seq(n, _ => 0), seq(n, _ => false), [], [], seq(n, _ => false), 0, [])
  }

  /** Discover `w`: number it, stack it, and open its frame. */
  function Discover(g: Graph, s: State, w: nat): State
    requires Shape(g, s) && w < |g|
  {
    s.(indexOf := s.indexOf[w := s.nextIndex],
       lowlink := s.lowlink[w := s.nextIndex],
       nextIndex := s.nextIndex + 1,
       stack := s.stack + [w],
       onStack := s.onStack[w := true],
       frames := s.frames + [Frame(w, 0)])
  }

  function Min(a: int, b: int): int { if a <= b then a else b }

  /** The top frame has an edge left to read. */
  ghost predicate CanRead(g: Graph, s: State) {
    && Shape(g, s) && FramesOk(g, s) && s.frames != []
    && s.frames[|s.frames| - 1].cursor < |g[s.frames[|s.frames| - 1].vertex]|
  }

  /** The top frame moves past the edge to `callee`: a self edge marks a cycle, a stacked
      target lowers the lowlink. */
  function ReadEdge(g: Graph, s: State): State
    requires CanRead(g, s)
  {
    var k := |s.frames| - 1;
    var v := s.frames[k].vertex;
    var callee := g[v][s.frames[k].cursor];
    s.(frames := s.frames[k := Frame(v, s.frames[k].cursor + 1)],
       onCycle := if callee == v then s.onCycle[v := true] else s.onCycle,
       lowlink := if callee < |g| && s.onStack[callee]
                  then s.lowlink[v := Min(s.lowlink[v], s.indexOf[callee])] else s.lowlink)
  }

  lemma StartInv(g: Graph)
    ensures Inv(g, Start(|g|), -1)
  {
  }

  // ----- discovery

  lemma DiscoverStack(g: Graph, s: State, w: nat)
    requires Shape(g, s) && StackOk(g, s) && w < |g| && s.indexOf[w] == UNVISITED
    ensures Shape(g, Discover(g, s, w)) && StackOk(g, Discover(g, s, w))
  {
    var t := Discover(g, s, w);
    assert forall i :: 0 <= i < |s.stack| ==> s.stack[i] != w;
    forall v | 0 <= v < |g| && t.onStack[v]
      ensures v in t.stack
    {
      if v == w {
        assert t.stack[|s.stack|] == w;
      } else {
        assert v in s.stack;
      }
    }
  }

  lemma DiscoverEmitted(g: Graph, s: State, w: nat)
    requires Shape(g, s) && EmittedOk(g, s) && w < |g| && s.indexOf[w] == UNVISITED
    ensures Shape(g, Discover(g, s, w)) && EmittedOk(g, Discover(g, s, w))
  {
  }

  lemma DiscoverFrames(g: Graph, s: State, w: nat)
    requires Shape(g, s) && FramesOk(g, s) && w < |g| && s.indexOf[w] == UNVISITED && !s.onStack[w]
    ensures Shape(g, Discover(g, s, w)) && FramesOk(g, Discover(g, s, w))
  {
    var t := Discover(g, s, w);
    assert forall i :: 0 <= i < |s.frames| ==> s.frames[i].vertex != w && t.frames[i] == s.frames[i];
  }

  lemma DiscoverUnread(g: Graph, s: State, w: nat, v: nat, j: nat)
    requires Shape(g, s) && w < |g|
    ensures Unread(Discover(g, s, w), v, j) <==> Unread(s, v, j) || v == w
  {
    var t := Discover(g, s, w);
    if v == w {
      assert t.frames[|s.frames|] == Frame(w, 0);
    }
    if Unread(s, v, j) {
      var i :| 0 <= i < |s.frames| && s.frames[i].vertex == v && s.frames[i].cursor <= j;
      assert t.frames[i] == s.frames[i];
    }
  }

  lemma DiscoverRead(g: Graph, s: State, w: nat)
    requires Shape(g, s) && ReadOk(g, s, w) && w < |g| && s.indexOf[w] == UNVISITED
    ensures Shape(g, Discover(g, s, w)) && ReadOk(g, Discover(g, s, w), -1)
  {
    var t := Discover(g, s, w);
    forall v: nat, j: nat | v < |g| && t.indexOf[v] >= 0 && j < |g[v]| && !Unread(t, v, j)
      ensures (g[v][j] < |g| ==> t.indexOf[g[v][j]] >= 0) && (g[v][j] == v ==> t.onCycle[v])
    {
      DiscoverUnread(g, s, w, v, j);
    }
  }

  lemma DiscoverLowBounds(g: Graph, s: State, w: nat)
    requires Shape(g, s) && FramesOk(g, s) && LowBounds(g, s)
    requires w < |g| && s.indexOf[w] == UNVISITED && !s.onStack[w]
    ensures Shape(g, Discover(g, s, w)) && FramesOk(g, Discover(g, s, w)) && LowBounds(g, Discover(g, s, w))
  {
    var t := Discover(g, s, w);
    DiscoverFrames(g, s, w);
    forall i: nat, x: nat, j: nat |
      && i < |t.frames| && x < |g| && t.onStack[x] && InSegment(g, t, i, x)
      && j < |g[x]| && !Unread(t, x, j) && g[x][j] < |g| && t.onStack[g[x][j]]
      ensures t.lowlink[t.frames[i].vertex] <= t.indexOf[g[x][j]]
    {
      DiscoverUnread(g, s, w, x, j);
      assert x != w && i < |s.frames|;
      assert t.frames[i] == s.frames[i] && s.frames[i].vertex != w;
      if g[x][j] != w {
        assert InSegment(g, s, i, x);
      }
    }
  }

  lemma DiscoverLowSound(g: Graph, s: State, w: nat)
    requires Shape(g, s) && FramesOk(g, s) && LowSound(g, s)
    requires w < |g| && s.indexOf[w] == UNVISITED && !s.onStack[w]
    ensures Shape(g, Discover(g, s, w)) && FramesOk(g, Discover(g, s, w)) && LowSound(g, Discover(g, s, w))
  {
    var t := Discover(g, s, w);
    DiscoverFrames(g, s, w);
    forall i: nat | i < |t.frames|
      ensures LowTarget(g, t, i)
    {
      if i == |s.frames| {
        ReachesSelf(g, w);
        assert LowReached(g, t, i, w);
      } else {
        assert LowTarget(g, s, i);
        var u: nat :| LowReached(g, s, i, u);
        assert t.frames[i] == s.frames[i] && s.frames[i].vertex != w;
        assert LowReached(g, t, i, u);
      }
    }
  }

  lemma DiscoverDown(g: Graph, s: State, w: nat)
    requires Shape(g, s) && FramesOk(g, s) && Down(g, s)
    requires w < |g| && s.indexOf[w] == UNVISITED && !s.onStack[w]
    requires s.frames != [] ==> Edge(g, s.frames[|s.frames| - 1].vertex, w)
    ensures Shape(g, Discover(g, s, w)) && FramesOk(g, Discover(g, s, w)) && Down(g, Discover(g, s, w))
  {
    var t := Discover(g, s, w);
    DiscoverFrames(g, s, w);
    forall i: nat, x: nat |
      i < |t.frames| && x < |g| && t.onStack[x] && t.indexOf[t.frames[i].vertex] <= t.indexOf[x]
      ensures Reaches(g, t.frames[i].vertex, x)
    {
      if i == |s.frames| {
        assert x == w;
        ReachesSelf(g, w);
      } else if x == w {
        var top := s.frames[|s.frames| - 1].vertex;
        assert Reaches(g, s.frames[i].vertex, top);
        ReachesEdge(g, top, w);
        ReachesTrans(g, s.frames[i].vertex, top, w);
      }
    }
  }

  lemma DiscoverUp(g: Graph, s: State, w: nat)
    requires Shape(g, s) && FramesOk(g, s) && Up(g, s)
    requires w < |g| && s.indexOf[w] == UNVISITED && !s.onStack[w]
    ensures Shape(g, Discover(g, s, w)) && FramesOk(g, Discover(g, s, w)) && Up(g, Discover(g, s, w))
  {
    var t := Discover(g, s, w);
    DiscoverFrames(g, s, w);
    forall x: nat | x < |g| && t.onStack[x]
      ensures Ascends(g, t, x)
    {
      if x == w {
        ReachesSelf(g, w);
        assert UpTo(g, t, w, |s.frames|);
      } else {
        assert Ascends(g, s, x);
        var i: nat :| UpTo(g, s, x, i);
        assert t.frames[i] == s.frames[i] && s.frames[i].vertex != w;
        assert UpTo(g, t, x, i);
      }
    }
  }

  lemma DiscoverInv(g: Graph, s: State, w: nat)
    requires Inv(g, s, w) && w < |g| && s.indexOf[w] == UNVISITED
    requires s.frames != [] ==> Edge(g, s.frames[|s.frames| - 1].vertex, w)
    ensures Inv(g, Discover(g, s, w), -1)
  {
    assert !s.onStack[w];
    DiscoverStack(g, s, w);
    DiscoverEmitted(g, s, w);
    DiscoverFrames(g, s, w);
    DiscoverRead(g, s, w);
    DiscoverLowBounds(g, s, w);
    DiscoverLowSound(g, s, w);
    DiscoverDown(g, s, w);
    DiscoverUp(g, s, w);
    var t := Discover(g, s, w);
    assert CyclesOk(g, t) by {
      assert t.emitted == s.emitted && t.onCycle == s.onCycle;
    }
  }

  // ----- reading an edge

  lemma ReadFrames(g: Graph, s: State)
    requires CanRead(g, s)
    ensures Shape(g, ReadEdge(g, s)) && FramesOk(g, ReadEdge(g, s))
    ensures |ReadEdge(g, s).frames| == |s.frames|
    ensures forall i :: 0 <= i < |s.frames| ==> ReadEdge(g, s).frames[i].vertex == s.frames[i].vertex
  {
    var t := ReadEdge(g, s);
    var k := |s.frames| - 1;
    assert forall i :: 0 <= i < k ==> t.frames[i] == s.frames[i];
    assert forall x :: 0 <= x < |g| ==> t.lowlink[x] <= s.lowlink[x];
    forall i | 0 <= i < |t.frames|
      ensures t.lowlink[t.frames[i].vertex] <= t.indexOf[t.frames[i].vertex]
    {
      assert s.lowlink[s.frames[i].vertex] <= s.indexOf[s.frames[i].vertex];
    }
  }

  lemma ReadUnread(g: Graph, s: State, x: nat, j: nat)
    requires CanRead(g, s)
    ensures var top := s.frames[|s.frames| - 1];
            Unread(ReadEdge(g, s), x, j) <==> Unread(s, x, j) && !(x == top.vertex && j == top.cursor)
  {
    var t := ReadEdge(g, s);
    var k := |s.frames| - 1;
    if Unread(s, x, j) {
      var i :| 0 <= i < |s.frames| && s.frames[i].vertex == x && s.frames[i].cursor <= j;
      assert i < k ==> t.frames[i] == s.frames[i];
      assert i == k && j != s.frames[k].cursor ==> t.frames[k].vertex == x && t.frames[k].cursor <= j;
    }
    if Unread(t, x, j) {
      var i :| 0 <= i < |t.frames| && t.frames[i].vertex == x && t.frames[i].cursor <= j;
      assert i < k ==> t.frames[i] == s.frames[i];
      assert s.frames[i].vertex == x && s.frames[i].cursor <= j;
    }
  }

  lemma ReadRead(g: Graph, s: State, pend: int)
    requires CanRead(g, s) && ReadOk(g, s, -1)
    requires var top := s.frames[|s.frames| - 1];
             var w := g[top.vertex][top.cursor]; w < |g| ==> s.indexOf[w] >= 0 || w == pend
    ensures Shape(g, ReadEdge(g, s)) && ReadOk(g, ReadEdge(g, s), pend)
  {
    var t := ReadEdge(g, s);
    forall v: nat, j: nat | v < |g| && t.indexOf[v] >= 0 && j < |g[v]| && !Unread(t, v, j)
      ensures g[v][j] < |g| ==> t.indexOf[g[v][j]] >= 0 || g[v][j] == pend
      ensures g[v][j] == v ==> t.onCycle[v]
    {
      ReadUnread(g, s, v, j);
    }
  }

  lemma ReadLowBounds(g: Graph, s: State)
    requires CanRead(g, s) && LowBounds(g, s)
    ensures Shape(g, ReadEdge(g, s)) && FramesOk(g, ReadEdge(g, s)) && LowBounds(g, ReadEdge(g, s))
  {
    var t := ReadEdge(g, s);
    ReadFrames(g, s);
    var k := |s.frames| - 1;
    forall i: nat, x: nat, j: nat |
      && i < |t.frames| && x < |g| && t.onStack[x] && InSegment(g, t, i, x)
      && j < |g[x]| && !Unread(t, x, j) && g[x][j] < |g| && t.onStack[g[x][j]]
      ensures t.lowlink[t.frames[i].vertex] <= t.indexOf[g[x][j]]
    {
      ReadUnread(g, s, x, j);
      assert InSegment(g, s, i, x);
      if x == s.frames[k].vertex && j == s.frames[k].cursor {
        assert i == k;
      }
    }
  }

  lemma ReadLowSound(g: Graph, s: State)
    requires CanRead(g, s) && LowSound(g, s)
    ensures Shape(g, ReadEdge(g, s)) && FramesOk(g, ReadEdge(g, s)) && LowSound(g, ReadEdge(g, s))
  {
    var t := ReadEdge(g, s);
    ReadFrames(g, s);
    var k := |s.frames| - 1;
    var v := s.frames[k].vertex;
    forall i: nat | i < |t.frames|
      ensures LowTarget(g, t, i)
    {
      assert LowTarget(g, s, i);
      var u: nat :| LowReached(g, s, i, u);
      if i == k && t.lowlink[v] != s.lowlink[v] {
        var callee := g[v][s.frames[k].cursor];
        ReachesEdge(g, v, callee);
        assert LowReached(g, t, i, callee);
      } else {
        assert s.frames[i].vertex != v ==> t.lowlink[s.frames[i].vertex] == s.lowlink[s.frames[i].vertex];
        assert i < k ==> s.indexOf[s.frames[i].vertex] < s.indexOf[v];
        assert LowReached(g, t, i, u);
      }
    }
  }

  lemma ReadReach(g: Graph, s: State)
    requires CanRead(g, s) && Down(g, s) && Up(g, s)
    ensures Shape(g, ReadEdge(g, s)) && FramesOk(g, ReadEdge(g, s))
    ensures Down(g, ReadEdge(g, s)) && Up(g, ReadEdge(g, s))
  {
    var t := ReadEdge(g, s);
    ReadFrames(g, s);
    forall x: nat | x < |g| && t.onStack[x]
      ensures Ascends(g, t, x)
    {
      assert Ascends(g, s, x);
      var i: nat :| UpTo(g, s, x, i);
      assert UpTo(g, t, x, i);
    }
  }

  lemma ReadCycles(g: Graph, s: State)
    requires CanRead(g, s) && CyclesOk(g, s)
    ensures Shape(g, ReadEdge(g, s)) && CyclesOk(g, ReadEdge(g, s))
  {
    var top := s.frames[|s.frames| - 1];
    var v := top.vertex;
    if g[v][top.cursor] == v {
      assert Edge(g, v, v);
      ReachesSelf(g, v);
      assert OnCycle(g, v);
    }
  }

  /** What reading the next edge leaves: only an undiscovered target is still owed. */
  lemma ReadInv(g: Graph, s: State, pend: int)
    requires Inv(g, s, -1) && CanRead(g, s)
    requires var top := s.frames[|s.frames| - 1];
             var w := g[top.vertex][top.cursor]; w < |g| ==> s.indexOf[w] >= 0 || w == pend
    ensures Inv(g, ReadEdge(g, s), pend)
  {
    ReadFrames(g, s);
    ReadRead(g, s, pend);
    ReadLowBounds(g, s);
    ReadLowSound(g, s);
    ReadReach(g, s);
    ReadCycles(g, s);
    var t := ReadEdge(g, s);
    assert StackOk(g, t) && EmittedOk(g, t) by {
      assert t.stack == s.stack && t.onStack == s.onStack && t.indexOf == s.indexOf && t.emitted == s.emitted;
    }
  }

  // ----- leaving a vertex whose component is still open

  /** The top frame has read all its edges. */
  ghost predicate Exhausted(g: Graph, s: State) {
    && Shape(g, s) && FramesOk(g, s) && s.frames != []
    && s.frames[|s.frames| - 1].cursor == |g[s.frames[|s.frames| - 1].vertex]|
  }

  /** Close the top frame and hand its lowlink to the parent frame, if there is one. */
  function Leave(g: Graph, s: State): State
    requires Exhausted(g, s)
  {
    var k := |s.frames| - 1;
    var v := s.frames[k].vertex;
    if k == 0 then s.(frames := [])
    else
      var p := s.frames[k - 1].vertex;
      s.(frames := s.frames[..k], lowlink := s.lowlink[p := Min(s.lowlink[p], s.lowlink[v])])
  }

  lemma LeaveFrames(g: Graph, s: State)
    requires Exhausted(g, s)
    ensures Shape(g, Leave(g, s)) && FramesOk(g, Leave(g, s))
    ensures Leave(g, s).frames == s.frames[..|s.frames| - 1]
  {
    var t := Leave(g, s);
    assert forall x :: 0 <= x < |g| ==> t.lowlink[x] <= s.lowlink[x];
    assert forall i :: 0 <= i < |t.frames| ==> t.frames[i] == s.frames[i];
  }

  lemma LeaveUnread(g: Graph, s: State, t: State, x: nat, j: nat)
    requires Exhausted(g, s) && t.frames == s.frames[..|s.frames| - 1]
    requires x < |g| && j < |g[x]|
    ensures Unread(t, x, j) <==> Unread(s, x, j)
  {
    if Unread(s, x, j) {
      var i :| 0 <= i < |s.frames| && s.frames[i].vertex == x && s.frames[i].cursor <= j;
      assert i < |t.frames| && t.frames[i] == s.frames[i];
    }
    if Unread(t, x, j) {
      var i :| 0 <= i < |t.frames| && t.frames[i].vertex == x && t.frames[i].cursor <= j;
      assert t.frames[i] == s.frames[i];
    }
  }

  lemma LeaveRead(g: Graph, s: State)
    requires Exhausted(g, s) && ReadOk(g, s, -1)
    ensures Shape(g, Leave(g, s)) && ReadOk(g, Leave(g, s), -1)
  {
    var t := Leave(g, s);
    LeaveFrames(g, s);
    forall v: nat, j: nat | v < |g| && t.indexOf[v] >= 0 && j < |g[v]| && !Unread(t, v, j)
      ensures (g[v][j] < |g| ==> t.indexOf[g[v][j]] >= 0) && (g[v][j] == v ==> t.onCycle[v])
    {
      LeaveUnread(g, s, t, v, j);
    }
  }

  lemma LeaveLowBounds(g: Graph, s: State)
    requires Exhausted(g, s) && LowBounds(g, s)
    ensures Shape(g, Leave(g, s)) && FramesOk(g, Leave(g, s)) && LowBounds(g, Leave(g, s))
  {
    var t := Leave(g, s);
    LeaveFrames(g, s);
    var k := |s.frames| - 1;
    forall i: nat, x: nat, j: nat |
      && i < |t.frames| && x < |g| && t.onStack[x] && InSegment(g, t, i, x)
      && j < |g[x]| && !Unread(t, x, j) && g[x][j] < |g| && t.onStack[g[x][j]]
      ensures t.lowlink[t.frames[i].vertex] <= t.indexOf[g[x][j]]
    {
      LeaveUnread(g, s, t, x, j);
      assert t.frames[i] == s.frames[i];
      if i == k - 1 && s.indexOf[s.frames[k].vertex] <= s.indexOf[x] {
        assert InSegment(g, s, k, x);
      } else {
        assert i + 1 < k ==> t.frames[i + 1] == s.frames[i + 1];
        assert InSegment(g, s, i, x);
      }
    }
  }

  /** The vertex below which the leaving vertex links down, and the active vertex there. */
  lemma LowerActive(g: Graph, s: State) returns (w: nat, i: nat)
    requires Exhausted(g, s) && LowSound(g, s) && Up(g, s)
    requires var v := s.frames[|s.frames| - 1].vertex; s.lowlink[v] < s.indexOf[v]
    ensures i < |s.frames| - 1
    ensures s.indexOf[s.frames[i].vertex] <= s.lowlink[s.frames[|s.frames| - 1].vertex]
    ensures LowReached(g, s, |s.frames| - 1, w)
    ensures Reaches(g, s.frames[|s.frames| - 1].vertex, s.frames[i].vertex)
  {
    var k := |s.frames| - 1;
    assert LowTarget(g, s, k);
    w :| LowReached(g, s, k, w);
    assert Ascends(g, s, w);
    i :| UpTo(g, s, w, i);
    ReachesTrans(g, s.frames[k].vertex, w, s.frames[i].vertex);
  }

  lemma LeaveLowSound(g: Graph, s: State, w: nat)
    requires Exhausted(g, s) && LowSound(g, s)
    requires LowReached(g, s, |s.frames| - 1, w)
    requires |s.frames| >= 2 ==> Reaches(g, s.frames[|s.frames| - 2].vertex, s.frames[|s.frames| - 1].vertex)
    ensures Shape(g, Leave(g, s)) && FramesOk(g, Leave(g, s)) && LowSound(g, Leave(g, s))
  {
    var t := Leave(g, s);
    LeaveFrames(g, s);
    var k := |s.frames| - 1;
    if k > 0 {
      ReachesTrans(g, s.frames[k - 1].vertex, s.frames[k].vertex, w);
    }
    forall i: nat | i < |t.frames|
      ensures LowTarget(g, t, i)
    {
      assert t.frames[i] == s.frames[i];
      var p := s.frames[i].vertex;
      if t.lowlink[p] != s.lowlink[p] {
        assert i == k - 1;
        assert LowReached(g, t, i, w);
      } else {
        assert LowTarget(g, s, i);
        var u: nat :| LowReached(g, s, i, u);
        assert LowReached(g, t, i, u);
      }
    }
  }

  lemma LeaveUp(g: Graph, s: State, low: nat)
    requires Exhausted(g, s) && Up(g, s)
    requires low < |s.frames| - 1
    requires Reaches(g, s.frames[|s.frames| - 1].vertex, s.frames[low].vertex)
    ensures Shape(g, Leave(g, s)) && FramesOk(g, Leave(g, s)) && Up(g, Leave(g, s))
  {
    var t := Leave(g, s);
    LeaveFrames(g, s);
    var k := |s.frames| - 1;
    forall x: nat | x < |g| && t.onStack[x]
      ensures Ascends(g, t, x)
    {
      assert Ascends(g, s, x);
      var i: nat :| UpTo(g, s, x, i);
      if i == k {
        ReachesTrans(g, x, s.frames[k].vertex, s.frames[low].vertex);
        assert t.frames[low] == s.frames[low];
        assert UpTo(g, t, x, low);
      } else {
        assert t.frames[i] == s.frames[i];
        assert UpTo(g, t, x, i);
      }
    }
  }

  lemma LeaveDown(g: Graph, s: State)
    requires Exhausted(g, s) && Down(g, s)
    ensures Shape(g, Leave(g, s)) && FramesOk(g, Leave(g, s)) && Down(g, Leave(g, s))
  {
    var t := Leave(g, s);
    LeaveFrames(g, s);
    assert forall i :: 0 <= i < |t.frames| ==> t.frames[i] == s.frames[i];
  }

  lemma LeaveInv(g: Graph, s: State)
    requires Inv(g, s, -1) && Exhausted(g, s)
    requires var v := s.frames[|s.frames| - 1].vertex; s.lowlink[v] < s.indexOf[v]
    ensures Inv(g, Leave(g, s), -1)
  {
    LeaveFrames(g, s);
    LeaveRead(g, s);
    LeaveLowBounds(g, s);
    var w, low := LowerActive(g, s);
    LeaveLowSound(g, s, w);
    LeaveUp(g, s, low);
    LeaveDown(g, s);
    var t := Leave(g, s);
    assert StackOk(g, t) && EmittedOk(g, t) && CyclesOk(g, t) by {
      assert t.stack == s.stack && t.onStack == s.onStack && t.indexOf == s.indexOf;
      assert t.emitted == s.emitted && t.onCycle == s.onCycle;
    }
  }

  // ----- emitting a component

  /** `t` is `s` after the top frame's component, `s.stack[m..]`, was popped and emitted. */
  ghost predicate Collapsed(g: Graph, s: State, t: State, m: nat)
    requires s.frames != [] && |s.onStack| == |s.onCycle| == |g|
  {
    && m < |s.stack| && s.stack[m] == s.frames[|s.frames| - 1].vertex
    && t.indexOf == s.indexOf && t.lowlink == s.lowlink && t.nextIndex == s.nextIndex
    && t.stack == s.stack[..m]
    && t.frames == s.frames[..|s.frames| - 1]
    && |t.emitted| == |s.emitted| + |s.stack| - m
    && t.emitted[..|s.emitted|] == s.emitted
    && (forall i :: |s.emitted| <= i < |t.emitted| ==> t.emitted[i] == s.stack[|s.stack| - 1 - (i - |s.emitted|)])
    && |t.onStack| == |g| == |t.onCycle|
    && (forall x :: 0 <= x < |g| ==> t.onStack[x] == (s.onStack[x] && x !in s.stack[m..]))
    && (forall x :: 0 <= x < |g| ==> t.onCycle[x] == (s.onCycle[x] || (|s.stack| - m > 1 && x in s.stack[m..])))
  }

  /** What is popped is what was discovered since the component's root. */
  lemma ComponentIndexes(g: Graph, s: State, m: nat, x: nat)
    requires Shape(g, s) && StackOk(g, s) && m < |s.stack| && x < |g|
    ensures x in s.stack[m..] <==> s.onStack[x] && s.indexOf[s.stack[m]] <= s.indexOf[x]
  {
    if s.onStack[x] {
      var i :| 0 <= i < |s.stack| && s.stack[i] == x;
      if m <= i {
        assert s.stack[m..][i - m] == x;
      }
    }
  }

  ghost predicate InComponent(g: Graph, s: State, x: nat)
    requires Shape(g, s) && FramesOk(g, s) && s.frames != []
  {
    x < |g| && s.onStack[x] && s.indexOf[s.frames[|s.frames| - 1].vertex] <= s.indexOf[x]
  }

  /** A root's segment has no edge to a stacked vertex below the root. */
  lemma ComponentClosed(g: Graph, s: State, x: nat, w: nat)
    requires Exhausted(g, s) && StackOk(g, s) && EmittedOk(g, s) && ReadOk(g, s, -1) && LowBounds(g, s)
    requires var v := s.frames[|s.frames| - 1].vertex; s.lowlink[v] == s.indexOf[v]
    requires InComponent(g, s, x) && Edge(g, x, w)
    ensures InComponent(g, s, w) || w in s.emitted
  {
    var k := |s.frames| - 1;
    assert InSegment(g, s, k, x);
    var j :| 0 <= j < |g[x]| && g[x][j] == w;
    assert !Unread(s, x, j);
  }

  ghost function ComponentAndEmitted(g: Graph, s: State): set<nat>
    requires Shape(g, s) && FramesOk(g, s) && s.frames != []
  {
    (set x: nat | 0 <= x < |g| && InComponent(g, s, x)) + (set x | x in s.emitted)
  }

  lemma EmittedClosed(g: Graph, emitted: seq<nat>)
    requires Ordered(g, emitted)
    ensures Closed(g, set x | x in emitted)
  {
    forall u, v | u in emitted && Edge(g, u, v)
      ensures v in emitted
    {
      var i: nat :| i < |emitted| && emitted[i] == u;
      assert Edge(g, emitted[i], v);
    }
  }

  lemma AllClosed(g: Graph, s: State)
    requires Exhausted(g, s) && StackOk(g, s) && EmittedOk(g, s) && ReadOk(g, s, -1) && LowBounds(g, s)
    requires Ordered(g, s.emitted)
    requires var v := s.frames[|s.frames| - 1].vertex; s.lowlink[v] == s.indexOf[v]
    ensures Closed(g, ComponentAndEmitted(g, s))
  {
    EmittedClosed(g, s.emitted);
    var all := ComponentAndEmitted(g, s);
    forall u, v | u in all && Edge(g, u, v)
      ensures v in all
    {
      if InComponent(g, s, u) {
        ComponentClosed(g, s, u, v);
      } else {
        assert u in set x | x in s.emitted;
      }
    }
  }

  /** The popped vertices and the root reach each other. */
  lemma ComponentConnected(g: Graph, s: State, x: nat, i: nat)
    requires Exhausted(g, s) && EmittedOk(g, s)
    requires Closed(g, ComponentAndEmitted(g, s))
    requires InComponent(g, s, x) && UpTo(g, s, x, i)
    ensures i == |s.frames| - 1
  {
    ClosedWalk(g, ComponentAndEmitted(g, s), x, s.frames[i].vertex);
  }

  lemma ComponentMutual(g: Graph, s: State, x: nat)
    requires Exhausted(g, s) && EmittedOk(g, s) && Up(g, s) && Down(g, s)
    requires Closed(g, ComponentAndEmitted(g, s))
    requires InComponent(g, s, x)
    ensures var v := s.frames[|s.frames| - 1].vertex; Reaches(g, v, x) && Reaches(g, x, v)
  {
    assert Ascends(g, s, x);
    var i: nat :| UpTo(g, s, x, i);
    ComponentConnected(g, s, x, i);
  }

  /** What survives a collapse: the stacked vertices discovered before the root. */
  lemma CollapseBasics(g: Graph, s: State, t: State, m: nat)
    requires Exhausted(g, s) && StackOk(g, s) && Collapsed(g, s, t, m)
    ensures Shape(g, t) && FramesOk(g, t)
    ensures forall x: nat :: x < |g| ==> (t.onStack[x] <==> s.onStack[x] && s.indexOf[x] < s.indexOf[s.stack[m]])
    ensures forall x: nat :: x < |g| ==> (InComponent(g, s, x) <==> x in s.stack[m..])
  {
    forall x: nat | x < |g|
      ensures t.onStack[x] <==> s.onStack[x] && s.indexOf[x] < s.indexOf[s.stack[m]]
      ensures InComponent(g, s, x) <==> x in s.stack[m..]
    {
      ComponentIndexes(g, s, m, x);
    }
    assert forall i :: 0 <= i < |t.frames| ==> t.frames[i] == s.frames[i];
  }

  lemma CollapseStack(g: Graph, s: State, t: State, m: nat)
    requires Exhausted(g, s) && StackOk(g, s) && Collapsed(g, s, t, m)
    ensures Shape(g, t) && StackOk(g, t)
  {
    CollapseBasics(g, s, t, m);
    assert forall i :: 0 <= i < m ==> t.stack[i] == s.stack[i] && t.onStack[s.stack[i]];
    CollapseStackHolds(g, s, t, m);
  }

  lemma CollapseStackHolds(g: Graph, s: State, t: State, m: nat)
    requires Shape(g, s) && StackOk(g, s) && Shape(g, t) && m < |s.stack| && t.stack == s.stack[..m]
    requires forall x: nat :: x < |g| ==> (t.onStack[x] <==> s.onStack[x] && s.indexOf[x] < s.indexOf[s.stack[m]])
    ensures forall x: nat :: x < |g| && t.onStack[x] ==> x in t.stack
  {
    forall x: nat | x < |g| && t.onStack[x]
      ensures x in t.stack
    {
      var i :| 0 <= i < |s.stack| && s.stack[i] == x;
      assert i < m;
      assert t.stack[i] == x;
    }
  }

  lemma CollapseMembers(g: Graph, s: State, t: State, m: nat)
    requires Exhausted(g, s) && Collapsed(g, s, t, m)
    ensures forall x :: x in t.emitted <==> x in s.emitted || x in s.stack[m..]
    ensures forall i :: |s.emitted| <= i < |t.emitted| ==> t.emitted[i] in s.stack[m..]
  {
    var e := |s.emitted|;
    var n := |s.stack|;
    forall i | e <= i < |t.emitted|
      ensures t.emitted[i] in s.stack[m..]
    {
      assert s.stack[m..][n - 1 - (i - e) - m] == t.emitted[i];
    }
    forall x | x in s.stack[m..]
      ensures x in t.emitted
    {
      var j :| 0 <= j < n - m && s.stack[m..][j] == x;
      assert t.emitted[e + (n - 1 - (m + j))] == x;
    }
    forall x | x in s.emitted
      ensures x in t.emitted
    {
      var j :| 0 <= j < e && s.emitted[j] == x;
      assert t.emitted[..e][j] == x;
    }
    forall x | x in t.emitted
      ensures x in s.emitted || x in s.stack[m..]
    {
      var j :| 0 <= j < |t.emitted| && t.emitted[j] == x;
      if j < e {
        assert t.emitted[..e][j] == x;
      }
    }
  }

  lemma CollapseEmitted(g: Graph, s: State, t: State, m: nat)
    requires Exhausted(g, s) && StackOk(g, s) && EmittedOk(g, s) && Collapsed(g, s, t, m)
    ensures Shape(g, t) && EmittedOk(g, t)
  {
    CollapseBasics(g, s, t, m);
    CollapseMembers(g, s, t, m);
    var e := |s.emitted|;
    assert forall i :: 0 <= i < e ==> t.emitted[i] == s.emitted[i] by {
      assert forall i :: 0 <= i < e ==> t.emitted[..e][i] == t.emitted[i];
    }
    CollapseDistinct(g, s, t, m);
  }

  lemma CollapseDistinct(g: Graph, s: State, t: State, m: nat)
    requires Exhausted(g, s) && StackOk(g, s) && EmittedOk(g, s) && Collapsed(g, s, t, m)
    ensures forall i, j :: 0 <= i < j < |t.emitted| ==> t.emitted[i] != t.emitted[j]
  {
    var e := |s.emitted|;
    forall i, j | 0 <= i < j < |t.emitted|
      ensures t.emitted[i] != t.emitted[j]
    {
      assert i < e ==> t.emitted[..e][i] == t.emitted[i];
      assert j < e ==> t.emitted[..e][j] == t.emitted[j];
      if e <= i {
        var a, b := |s.stack| - 1 - (i - e), |s.stack| - 1 - (j - e);
        assert s.indexOf[s.stack[b]] < s.indexOf[s.stack[a]];
      }
    }
  }

  lemma CollapseRead(g: Graph, s: State, t: State, m: nat)
    requires Exhausted(g, s) && ReadOk(g, s, -1) && Collapsed(g, s, t, m) && Shape(g, t)
    ensures ReadOk(g, t, -1)
  {
    forall v: nat, j: nat | v < |g| && t.indexOf[v] >= 0 && j < |g[v]| && !Unread(t, v, j)
      ensures (g[v][j] < |g| ==> t.indexOf[g[v][j]] >= 0) && (g[v][j] == v ==> t.onCycle[v])
    {
      LeaveUnread(g, s, t, v, j);
    }
  }

  lemma CollapseLow(g: Graph, s: State, t: State, m: nat)
    requires Exhausted(g, s) && StackOk(g, s) && LowBounds(g, s) && LowSound(g, s) && Collapsed(g, s, t, m)
    ensures Shape(g, t) && FramesOk(g, t) && LowBounds(g, t) && LowSound(g, t)
  {
    CollapseBasics(g, s, t, m);
    forall i: nat, x: nat, j: nat |
      && i < |t.frames| && x < |g| && t.onStack[x] && InSegment(g, t, i, x)
      && j < |g[x]| && !Unread(t, x, j) && g[x][j] < |g| && t.onStack[g[x][j]]
      ensures t.lowlink[t.frames[i].vertex] <= t.indexOf[g[x][j]]
    {
      LeaveUnread(g, s, t, x, j);
      assert t.frames[i] == s.frames[i];
      assert i + 1 < |t.frames| ==> t.frames[i + 1] == s.frames[i + 1];
      assert InSegment(g, s, i, x);
    }
    forall i: nat | i < |t.frames|
      ensures LowTarget(g, t, i)
    {
      assert LowTarget(g, s, i);
      var u: nat :| LowReached(g, s, i, u);
      assert t.frames[i] == s.frames[i];
      assert LowReached(g, t, i, u);
    }
  }

  lemma CollapseReach(g: Graph, s: State, t: State, m: nat)
    requires Exhausted(g, s) && StackOk(g, s) && Up(g, s) && Down(g, s) && Collapsed(g, s, t, m)
    ensures Shape(g, t) && FramesOk(g, t) && Up(g, t) && Down(g, t)
  {
    CollapseBasics(g, s, t, m);
    assert forall i :: 0 <= i < |t.frames| ==> t.frames[i] == s.frames[i];
    forall x: nat | x < |g| && t.onStack[x]
      ensures Ascends(g, t, x)
    {
      assert Ascends(g, s, x);
      var i: nat :| UpTo(g, s, x, i);
      assert UpTo(g, t, x, i);
    }
  }

  /** A component of several vertices is a cycle through each of them. */
  lemma ComponentCycle(g: Graph, s: State, t: State, m: nat, x: nat)
    requires Inv(g, s, -1) && Exhausted(g, s) && Collapsed(g, s, t, m)
    requires Closed(g, ComponentAndEmitted(g, s))
    requires x in s.stack[m..] && |s.stack| - m > 1
    ensures OnCycle(g, x)
  {
    CollapseBasics(g, s, t, m);
    var v := s.stack[m];
    var y := if x == v then s.stack[m + 1] else v;
    assert y in s.stack[m..] && y != x by {
      assert s.stack[m..][0] == v && s.stack[m..][1] == s.stack[m + 1];
      assert s.indexOf[s.stack[m]] < s.indexOf[s.stack[m + 1]];
    }
    ComponentMutual(g, s, x);
    ComponentMutual(g, s, y);
    ReachesTrans(g, x, v, y);
    ReachesTrans(g, y, v, x);
    CycleThrough(g, x, y);
  }

  /** A one-vertex component on a cycle carries a self edge, which was read. */
  lemma SingletonCycle(g: Graph, s: State)
    requires Exhausted(g, s) && ReadOk(g, s, -1) && EmittedOk(g, s) && Ordered(g, s.emitted)
    requires Closed(g, ComponentAndEmitted(g, s))
    requires forall x: nat :: x < |g| && InComponent(g, s, x) ==> x == s.frames[|s.frames| - 1].vertex
    requires OnCycle(g, s.frames[|s.frames| - 1].vertex)
    requires s.indexOf[s.frames[|s.frames| - 1].vertex] >= 0
    ensures s.onCycle[s.frames[|s.frames| - 1].vertex]
  {
    var k := |s.frames| - 1;
    var v := s.frames[k].vertex;
    var w :| Edge(g, v, w) && Reaches(g, w, v);
    assert v in ComponentAndEmitted(g, s);
    assert w in ComponentAndEmitted(g, s);
    EmittedClosed(g, s.emitted);
    if w in s.emitted {
      ClosedWalk(g, (set x | x in s.emitted), w, v);
      assert false;
    }
    assert w == v;
    var j :| 0 <= j < |g[v]| && g[v][j] == v;
    assert !Unread(s, v, j);
  }

  lemma CollapseCycles(g: Graph, s: State, t: State, m: nat)
    requires Inv(g, s, -1) && Exhausted(g, s) && Collapsed(g, s, t, m)
    requires Closed(g, ComponentAndEmitted(g, s))
    ensures Shape(g, t) && CyclesOk(g, t)
  {
    CollapseBasics(g, s, t, m);
    CollapseMembers(g, s, t, m);
    forall x: nat | x < |g| && t.onCycle[x]
      ensures OnCycle(g, x)
    {
      if !s.onCycle[x] {
        ComponentCycle(g, s, t, m, x);
      }
    }
    forall i | 0 <= i < |t.emitted| && t.emitted[i] < |g| && OnCycle(g, t.emitted[i])
      ensures t.onCycle[t.emitted[i]]
    {
      var x := t.emitted[i];
      if x in s.emitted {
        var j :| 0 <= j < |s.emitted| && s.emitted[j] == x;
      } else if |s.stack| - m == 1 {
        assert s.stack[m..] == [s.stack[m]];
        SingletonCycle(g, s);
      }
    }
  }

  /** An edge of the component stays in it, on a cycle, or goes to an emitted vertex. */
  lemma ComponentEdge(g: Graph, s: State, x: nat, w: nat)
    requires Exhausted(g, s) && EmittedOk(g, s) && Up(g, s) && Down(g, s)
    requires Closed(g, ComponentAndEmitted(g, s))
    requires InComponent(g, s, x) && Edge(g, x, w)
    ensures w in s.emitted || (InComponent(g, s, w) && OnCycle(g, x))
  {
    assert x in ComponentAndEmitted(g, s) && w in ComponentAndEmitted(g, s);
    if w !in s.emitted {
      ComponentMutual(g, s, x);
      ComponentMutual(g, s, w);
      ReachesTrans(g, w, s.frames[|s.frames| - 1].vertex, x);
    }
  }

  lemma CollapseOrdered(g: Graph, s: State, t: State, m: nat)
    requires Exhausted(g, s) && Ordered(g, s.emitted) && Collapsed(g, s, t, m)
    requires forall x: nat, w: nat :: x in s.stack[m..] && Edge(g, x, w) ==>
               w in s.emitted || (w in s.stack[m..] && OnCycle(g, x))
    ensures Ordered(g, t.emitted)
  {
    CollapseMembers(g, s, t, m);
    var e := |s.emitted|;
    forall i: nat, w: nat | i < |t.emitted| && Edge(g, t.emitted[i], w)
      ensures w in t.emitted[..i] || (OnCycle(g, t.emitted[i]) && w in t.emitted)
    {
      var x := t.emitted[i];
      if i < e {
        assert t.emitted[..e][i] == x;
        assert t.emitted[..i] == s.emitted[..i];
      } else if w in s.emitted {
        var j :| 0 <= j < e && s.emitted[j] == w;
        assert t.emitted[..e][j] == w;
        assert t.emitted[..i][j] == w;
      }
    }
  }

  lemma CollapseInv(g: Graph, s: State, t: State, m: nat)
    requires Inv(g, s, -1) && Exhausted(g, s) && Collapsed(g, s, t, m)
    requires var v := s.frames[|s.frames| - 1].vertex; s.lowlink[v] == s.indexOf[v]
    ensures Inv(g, t, -1)
  {
    AllClosed(g, s);
    CollapseStack(g, s, t, m);
    CollapseEmitted(g, s, t, m);
    CollapseRead(g, s, t, m);
    CollapseLow(g, s, t, m);
    CollapseReach(g, s, t, m);
    CollapseCycles(g, s, t, m);
    forall x: nat, w: nat | x in s.stack[m..] && Edge(g, x, w)
      ensures w in s.emitted || (w in s.stack[m..] && OnCycle(g, x))
    {
      CollapseBasics(g, s, t, m);
      ComponentEdge(g, s, x, w);
    }
    CollapseOrdered(g, s, t, m);
  }
}
