/**
 The direct-call analysis: cycle membership, availability, and one-pass propagation.
 */
module CallGraph {
  import opened Wrappers
  import opened Paths
  import opened Tarjan

  /** One entry per reserved function: its callees, or a hole where the body is missing. */
  type Callees = seq<Option<seq<nat>>>

  datatype CallGraphAnalysis = CallGraphAnalysis(
    reverseTopological: seq<nat>,
    onCycle: seq<bool>,
    eligible: seq<bool>)
  {
    predicate IsOnCycle(index: nat) {
      index < |onCycle| && onCycle[index]
    }

    function IntoAcyclicOrder(): AcyclicCallOrder {
      AcyclicCallOrder(reverseTopological, eligible)
    }
  }

  datatype AcyclicCallOrder = AcyclicCallOrder(reverseTopological: seq<nat>, eligible: seq<bool>) {
    function DomainLen(): nat { |eligible| }

    predicate Contains(f: nat) {
      f < |eligible| && eligible[f]
    }

    predicate IsComplete() {
      |reverseTopological| == DomainLen()
    }
  }

  /** The call relation: a missing body calls nothing. */
  function Bodies(callees: Callees): (g: Graph)
    ensures |g| == |callees|
  {
    seq(|callees|, i requires 0 <= i < |callees| => if callees[i].Some? then callees[i].value else [])
  }

  /** `f` calls `c` exactly when `f` has a body that lists `c` and `c` is reserved. */
  lemma BodiesMeans(callees: Callees, f: nat, c: nat)
    ensures Edge(Bodies(callees), f, c) <==>
            f < |callees| && c < |callees| && callees[f].Some? && c in callees[f].value
  {
  }

  // ----- specification

  /** `f` has a body, calls only reserved functions, and cannot reach itself. */
  ghost predicate Sound(callees: Callees, f: nat) {
    && f < |callees| && callees[f].Some? && !OnCycle(Bodies(callees), f)
    && forall c :: c in callees[f].value ==> c < |callees|
  }

  /** `f` and everything it can call is sound. */
  ghost predicate Available(callees: Callees, f: nat) {
    forall w :: Reaches(Bodies(callees), f, w) ==> Sound(callees, w)
  }

  ghost predicate Distinct(s: seq<nat>) {
    forall i, j :: 0 <= i < j < |s| ==> s[i] != s[j]
  }

  /** Every in-domain successor of a listed function is listed before it. */
  ghost predicate CalleeFirst(order: seq<nat>, successors: Graph) {
    forall i: nat, w: nat :: i < |order| && Edge(successors, order[i], w) ==> w in order[..i]
  }

  /** The mask and the order of an analysis agree with availability. */
  ghost predicate IsOrderOf(callees: Callees, order: AcyclicCallOrder) {
    && |order.eligible| == |callees|
    && (forall f :: 0 <= f < |callees| ==> (order.eligible[f] <==> Available(callees, f)))
    && (forall f :: f in order.reverseTopological <==> order.Contains(f))
    && Distinct(order.reverseTopological)
    && CalleeFirst(order.reverseTopological, Bodies(callees))
  }

  // ----- the traversal

  /** Edge `j` of `v` is in the log exactly when it has been read, and only once. */
  ghost predicate ReadLog(g: Graph, s: State, log: seq<(nat, nat)>)
    requires Shape(g, s)
  {
    && (forall i, j :: 0 <= i < j < |log| ==> log[i] != log[j])
    && (forall v: nat, j: nat :: (v, j) in log <==>
          v < |g| && s.indexOf[v] >= 0 && j < |g[v]| && !Unread(s, v, j))
  }

  /** A vertex's index is its position in the discovery log. */
  ghost predicate DiscoveryLog(g: Graph, s: State, found: seq<nat>)
    requires Shape(g, s)
  {
    && |found| == s.nextIndex
    && (forall i :: 0 <= i < |found| ==> found[i] < |g| && s.indexOf[found[i]] == i)
    && (forall v: nat :: v < |g| && s.indexOf[v] >= 0 ==> found[s.indexOf[v]] == v)
  }

  lemma LogsDiscover(g: Graph, s: State, w: nat, log: seq<(nat, nat)>, found: seq<nat>)
    requires Shape(g, s) && ReadLog(g, s, log) && DiscoveryLog(g, s, found)
    requires w < |g| && s.indexOf[w] == UNVISITED
    ensures Shape(g, Discover(g, s, w))
    ensures ReadLog(g, Discover(g, s, w), log) && DiscoveryLog(g, Discover(g, s, w), found + [w])
  {
    var t := Discover(g, s, w);
    forall v: nat, j: nat
      ensures (v, j) in log <==> v < |g| && t.indexOf[v] >= 0 && j < |g[v]| && !Unread(t, v, j)
    {
      DiscoverUnread(g, s, w, v, j);
    }
  }

  lemma LogsRead(g: Graph, s: State, log: seq<(nat, nat)>)
    requires CanRead(g, s) && ReadLog(g, s, log) && s.indexOf[s.frames[|s.frames| - 1].vertex] >= 0
    ensures Shape(g, ReadEdge(g, s))
    ensures var top := s.frames[|s.frames| - 1];
            ReadLog(g, ReadEdge(g, s), log + [(top.vertex, top.cursor)])
  {
    var t := ReadEdge(g, s);
    ReadFrames(g, s);
    var k := |s.frames| - 1;
    var edge := (s.frames[k].vertex, s.frames[k].cursor);
    assert Unread(s, edge.0, edge.1);
    forall v: nat, j: nat
      ensures (v, j) in log + [edge] <==> v < |g| && t.indexOf[v] >= 0 && j < |g[v]| && !Unread(t, v, j)
    {
      ReadUnread(g, s, v, j);
    }
  }

  lemma LogsLeave(g: Graph, s: State, t: State, log: seq<(nat, nat)>)
    requires Exhausted(g, s) && ReadLog(g, s, log) && Shape(g, t)
    requires t.indexOf == s.indexOf && t.frames == s.frames[..|s.frames| - 1]
    ensures ReadLog(g, t, log)
  {
    forall v: nat, j: nat
      ensures (v, j) in log <==> v < |g| && t.indexOf[v] >= 0 && j < |g[v]| && !Unread(t, v, j)
    {
      if v < |g| && j < |g[v]| {
        LeaveUnread(g, s, t, v, j);
      }
    }
  }

  /** Pop the stack through `vertex`, emitting what comes off. */
  method PopThrough(stack: seq<nat>, mask: seq<bool>, emitted0: seq<nat>, vertex: nat, ghost m: nat)
    returns (rest: seq<nat>, onStack: seq<bool>, emitted: seq<nat>)
    requires m < |stack| && stack[m] == vertex
    requires forall i :: m < i < |stack| ==> stack[i] != vertex
    requires forall i :: 0 <= i < |stack| ==> stack[i] < |mask|
    ensures rest == stack[..m]
    ensures |emitted| == |emitted0| + |stack| - m && emitted[..|emitted0|] == emitted0
    ensures forall i :: |emitted0| <= i < |emitted| ==> emitted[i] == stack[|stack| - 1 - (i - |emitted0|)]
    ensures |onStack| == |mask|
    ensures forall x :: 0 <= x < |mask| ==> onStack[x] == (mask[x] && x !in stack[m..])
  {
    rest, onStack, emitted := stack, mask, emitted0;
    var start := |emitted0|;
    var popping := true;
    while popping
      invariant |stack| >= |rest| && rest == stack[..|rest|]
      invariant if popping then m < |rest| else m == |rest|
      invariant |emitted| == start + |stack| - |rest| && emitted[..start] == emitted0
      invariant forall i :: start <= i < |emitted| ==> emitted[i] == stack[|stack| - 1 - (i - start)]
      invariant |onStack| == |mask|
      invariant forall x :: 0 <= x < |mask| ==> onStack[x] == (mask[x] && x !in stack[|rest|..])
      decreases popping, |rest|
    {
      var member := rest[|rest| - 1];
      ghost var above := stack[|rest|..];
      rest := rest[..|rest| - 1];
      assert stack[|rest|..] == [member] + above;
      onStack := onStack[member := false];
      emitted := emitted + [member];
      if member == vertex {
        popping := false;
      }
    }
  }

  /** The top frame's vertex has one position on the stack. */
  lemma RootPosition(g: Graph, s: State) returns (m: nat)
    requires Exhausted(g, s) && StackOk(g, s)
    ensures m < |s.stack| && s.stack[m] == s.frames[|s.frames| - 1].vertex
    ensures forall i :: m < i < |s.stack| ==> s.stack[i] != s.stack[m]
    ensures forall i :: 0 <= i < |s.stack| ==> s.stack[i] < |s.onStack|
  {
    var vertex := s.frames[|s.frames| - 1].vertex;
    assert vertex in s.stack;
    m :| 0 <= m < |s.stack| && s.stack[m] == vertex;
  }

  /** Pop the finished component off the stack, emit it, and flag it if it is a cycle. */
  method PopComponent(g: Graph, s: State, ghost m: nat) returns (t: State)
    requires s.frames != [] && |s.onStack| == |s.onCycle| == |g|
    requires m < |s.stack| && s.stack[m] == s.frames[|s.frames| - 1].vertex
    requires forall i :: m < i < |s.stack| ==> s.stack[i] != s.stack[m]
    requires forall i :: 0 <= i < |s.stack| ==> s.stack[i] < |s.onStack|
    ensures Collapsed(g, s, t, m)
  {
    var rest, onStack, emitted := PopThrough(s.stack, s.onStack, s.emitted, s.frames[|s.frames| - 1].vertex, m);
    var component := emitted[|s.emitted|..];
    ComponentReversed(s.stack, component, m);
    var onCycle := s.onCycle;
    if |component| > 1 {
      onCycle := MarkAll(s.onCycle, component);
    }
    t := s.(stack := rest, onStack := onStack, emitted := emitted, onCycle := onCycle,
            frames := s.frames[..|s.frames| - 1]);
  }

  lemma ComponentReversed(stack: seq<nat>, component: seq<nat>, m: nat)
    requires m <= |stack| && |component| == |stack| - m
    requires forall i :: 0 <= i < |component| ==> component[i] == stack[|stack| - 1 - i]
    ensures forall x :: x in component <==> x in stack[m..]
  {
    forall x | x in component
      ensures x in stack[m..]
    {
      var i :| 0 <= i < |component| && component[i] == x;
      assert stack[m..][|stack| - 1 - i - m] == x;
    }
    forall x | x in stack[m..]
      ensures x in component
    {
      var i :| 0 <= i < |stack| - m && stack[m..][i] == x;
      assert component[|stack| - 1 - (m + i)] == x;
    }
  }

  method MarkAll(mask: seq<bool>, members: seq<nat>) returns (r: seq<bool>)
    requires forall i :: 0 <= i < |members| ==> members[i] < |mask|
    ensures |r| == |mask|
    ensures forall x :: 0 <= x < |mask| ==> r[x] == (mask[x] || x in members)
  {
    r := mask;
    for i := 0 to |members|
      invariant |r| == |mask|
      invariant forall x :: 0 <= x < |mask| ==> r[x] == (mask[x] || x in members[..i])
    {
      assert members[..i + 1] == members[..i] + [members[i]];
      r := r[members[i] := true];
    }
  }

  /** The undiscovered vertices. */
  ghost function White(g: Graph, s: State): set<nat>
    requires Shape(g, s)
  {
    set v: nat | 0 <= v < |g| && s.indexOf[v] == UNVISITED
  }

  ghost function Left(g: Graph, s: State): nat
    requires Shape(g, s) && FramesOk(g, s)
  {
    if s.frames == [] then 0
    else |g[s.frames[|s.frames| - 1].vertex]| - s.frames[|s.frames| - 1].cursor
  }

  /** Everything known between two steps of the search. */
  ghost predicate Search(g: Graph, s: State, log: seq<(nat, nat)>, found: seq<nat>) {
    Inv(g, s, -1) && ReadLog(g, s, log) && DiscoveryLog(g, s, found)
  }

  /** One edge read: descend into a callee not seen before, else only record the edge. */
  function Step(g: Graph, s: State): State
    requires CanRead(g, s)
  {
    var top := s.frames[|s.frames| - 1];
    var callee := g[top.vertex][top.cursor];
    var t := ReadEdge(g, s);
    if callee < |g| && s.indexOf[callee] == UNVISITED then Discover(g, t, callee) else t
  }

  lemma StepSearch(g: Graph, s: State, log: seq<(nat, nat)>, found: seq<nat>)
    returns (log': seq<(nat, nat)>, found': seq<nat>)
    requires Search(g, s, log, found) && CanRead(g, s)
    ensures Search(g, Step(g, s), log', found')
    ensures var t := Step(g, s);
      White(g, t) < White(g, s)
      || (White(g, t) == White(g, s) && |t.frames| == |s.frames| && Left(g, t) < Left(g, s))
  {
    var k := |s.frames| - 1;
    var vertex, cursor := s.frames[k].vertex, s.frames[k].cursor;
    var callee := g[vertex][cursor];
    log' := log + [(vertex, cursor)];
    LogsRead(g, s, log);
    var t := ReadEdge(g, s);
    if callee < |g| && s.indexOf[callee] == UNVISITED {
      ReadInv(g, s, callee);
      found' := found + [callee];
      LogsDiscover(g, t, callee, log', found);
      DiscoverInv(g, t, callee);
      assert callee in White(g, s);
      assert callee !in White(g, Discover(g, t, callee));
    } else {
      ReadInv(g, s, -1);
      found' := found;
    }
  }

  method ReadStep(g: Graph, s: State) returns (t: State)
    requires CanRead(g, s)
    requires forall v :: 0 <= v < |g| && s.onStack[v] ==> s.indexOf[v] != UNVISITED
    ensures t == Step(g, s)
  {
    var k := |s.frames| - 1;
    var vertex, cursor := s.frames[k].vertex, s.frames[k].cursor;
    var callee := g[vertex][cursor];
    t := s.(frames := s.frames[k := Frame(vertex, cursor + 1)]);
    if callee == vertex {
      t := t.(onCycle := t.onCycle[vertex := true]);
    }
    if callee < |g| {
      if s.indexOf[callee] == UNVISITED {
        t := t.(indexOf := t.indexOf[callee := t.nextIndex],
                lowlink := t.lowlink[callee := t.nextIndex],
                nextIndex := t.nextIndex + 1,
                stack := t.stack + [callee],
                onStack := t.onStack[callee := true],
                frames := t.frames + [Frame(callee, 0)]);
      } else if s.onStack[callee] {
        t := t.(lowlink := t.lowlink[vertex := Min(t.lowlink[vertex], t.indexOf[callee])]);
      }
    }
  }

  /** A stacked vertex is discovered, and the stack empties with the frames. */
  lemma StackFacts(g: Graph, s: State)
    requires Shape(g, s) && StackOk(g, s) && FramesOk(g, s) && Up(g, s)
    ensures forall v :: 0 <= v < |g| && s.onStack[v] ==> s.indexOf[v] != UNVISITED
    ensures s.frames == [] ==> forall v: nat :: v < |g| ==> !s.onStack[v]
  {
    forall v: nat | v < |g| && s.onStack[v]
      ensures s.indexOf[v] != UNVISITED && s.frames != []
    {
      var i :| 0 <= i < |s.stack| && s.stack[i] == v;
      assert Ascends(g, s, v);
      var j: nat :| UpTo(g, s, v, j);
    }
  }

  lemma CollapseSearch(g: Graph, s: State, t: State, m: nat, log: seq<(nat, nat)>, found: seq<nat>)
    requires Search(g, s, log, found) && Exhausted(g, s) && Collapsed(g, s, t, m)
    requires var v := s.frames[|s.frames| - 1].vertex; s.lowlink[v] == s.indexOf[v]
    ensures Search(g, t, log, found)
  {
    CollapseInv(g, s, t, m);
    LogsLeave(g, s, t, log);
  }

  /** A root's lowlink is its own index, so the parent's stays. */
  lemma ParentUnchanged(g: Graph, s: State)
    requires Exhausted(g, s) && |s.frames| > 1
    requires var v := s.frames[|s.frames| - 1].vertex; s.lowlink[v] == s.indexOf[v]
    ensures var p := s.frames[|s.frames| - 2].vertex;
            Min(s.lowlink[p], s.lowlink[s.frames[|s.frames| - 1].vertex]) == s.lowlink[p]
  {
  }

  lemma LeaveSearch(g: Graph, s: State, log: seq<(nat, nat)>, found: seq<nat>)
    requires Search(g, s, log, found) && Exhausted(g, s)
    requires var v := s.frames[|s.frames| - 1].vertex; s.lowlink[v] < s.indexOf[v]
    ensures Search(g, Leave(g, s), log, found)
  {
    LeaveInv(g, s);
    LogsLeave(g, s, Leave(g, s), log);
  }

  /** The top frame is exhausted: emit its component if it is a root, then update the parent. */
  method LeaveStep(g: Graph, s: State, ghost m: nat) returns (t: State)
    requires Exhausted(g, s)
    requires m < |s.stack| && s.stack[m] == s.frames[|s.frames| - 1].vertex
    requires forall i :: m < i < |s.stack| ==> s.stack[i] != s.stack[m]
    requires forall i :: 0 <= i < |s.stack| ==> s.stack[i] < |s.onStack|
    ensures var v := s.frames[|s.frames| - 1].vertex;
            if s.lowlink[v] == s.indexOf[v] then Collapsed(g, s, t, m) else t == Leave(g, s)
  {
    var k := |s.frames| - 1;
    var vertex := s.frames[k].vertex;
    if s.lowlink[vertex] == s.indexOf[vertex] {
      t := PopComponent(g, s, m);
    } else {
      t := s.(frames := s.frames[..k]);
    }
    if k > 0 {
      var parent := s.frames[k - 1].vertex;
      if s.lowlink[vertex] == s.indexOf[vertex] {
        ParentUnchanged(g, s);
      }
      t := t.(lowlink := t.lowlink[parent := Min(t.lowlink[parent], t.lowlink[vertex])]);
    }
  }

  /** One turn of the search loop. */
  method Turn(g: Graph, s: State, ghost log: seq<(nat, nat)>, ghost found: seq<nat>)
    returns (t: State, ghost log': seq<(nat, nat)>, ghost found': seq<nat>)
    requires Search(g, s, log, found) && s.frames != []
    ensures Search(g, t, log', found')
    ensures White(g, t) <= White(g, s)
    ensures White(g, t) < White(g, s) || |t.frames| < |s.frames|
         || (|t.frames| == |s.frames| && Left(g, t) < Left(g, s))
  {
    var top := s.frames[|s.frames| - 1];
    if top.cursor < |g[top.vertex]| {
      StackFacts(g, s);
      t := ReadStep(g, s);
      log', found' := StepSearch(g, s, log, found);
    } else {
      ghost var m := RootPosition(g, s);
      log', found' := log, found;
      t := LeaveStep(g, s, m);
      if s.lowlink[top.vertex] == s.indexOf[top.vertex] {
        CollapseSearch(g, s, t, m, log, found);
      } else {
        LeaveSearch(g, s, log, found);
      }
    }
  }

  /** Number `root`, stack it, and open its frame. */
  method Enter(g: Graph, s: State, root: nat) returns (t: State)
    requires Shape(g, s) && root < |g|
    ensures t == Discover(g, s, root)
  {
    t := s.(indexOf := s.indexOf[root := s.nextIndex],
            lowlink := s.lowlink[root := s.nextIndex],
            nextIndex := s.nextIndex + 1,
            stack := s.stack + [root],
            onStack := s.onStack[root := true],
            frames := s.frames + [Frame(root, 0)]);
  }

  /** Visit everything reachable from `root`. */
  method Explore(g: Graph, s0: State, root: nat, ghost log0: seq<(nat, nat)>, ghost found0: seq<nat>)
    returns (s: State, ghost log: seq<(nat, nat)>, ghost found: seq<nat>)
    requires Search(g, s0, log0, found0) && s0.frames == []
    requires root < |g| && s0.indexOf[root] == UNVISITED
    ensures Search(g, s, log, found) && s.frames == []
    ensures White(g, s) <= White(g, s0) && root !in White(g, s)
  {
    log, found := log0, found0 + [root];
    LogsDiscover(g, s0, root, log0, found0);
    DiscoverInv(g, s0, root);
    s := Enter(g, s0, root);
    while s.frames != []
      invariant Search(g, s, log, found)
      invariant White(g, s) <= White(g, s0) && root !in White(g, s)
      decreases White(g, s), |s.frames|, Left(g, s)
    {
      s, log, found := Turn(g, s, log, found);
    }
  }

  /** The end of the search: everything is discovered, read and emitted. */
  lemma SearchDone(g: Graph, s: State, log: seq<(nat, nat)>, found: seq<nat>)
    requires Search(g, s, log, found) && s.frames == [] && White(g, s) == {}
    ensures Distinct(s.emitted) && (forall v: nat :: v in s.emitted <==> v < |g|)
    ensures forall v: nat :: v < |g| ==> (s.onCycle[v] <==> OnCycle(g, v))
    ensures Ordered(g, s.emitted)
    ensures Distinct(found) && (forall v: nat :: v in found <==> v < |g|)
    ensures forall i, j :: 0 <= i < j < |log| ==> log[i] != log[j]
    ensures forall v: nat, j: nat :: (v, j) in log <==> v < |g| && j < |g[v]|
  {
    StackFacts(g, s);
    forall v: nat | v < |g|
      ensures s.indexOf[v] >= 0 && v in s.emitted && v in found
    {
      assert v !in White(g, s);
      assert found[s.indexOf[v]] == v;
    }
    forall v: nat | v < |g|
      ensures s.onCycle[v] <==> OnCycle(g, v)
    {
      assert v in s.emitted;
      var i :| 0 <= i < |s.emitted| && s.emitted[i] == v;
    }
  }

  // ----- availability

  /** Availability unfolds one call at a time. */
  lemma AvailableStep(callees: Callees, f: nat)
    ensures Available(callees, f) <==>
            Sound(callees, f) && forall c :: c in callees[f].value ==> Available(callees, c)
  {
    var g := Bodies(callees);
    ReachesSelf(g, f);
    if Available(callees, f) {
      forall c | c in callees[f].value
        ensures Available(callees, c)
      {
        ReachesEdge(g, f, c);
        forall w | Reaches(g, c, w)
          ensures Sound(callees, w)
        {
          ReachesTrans(g, f, c, w);
        }
      }
    }
    if Sound(callees, f) && forall c :: c in callees[f].value ==> Available(callees, c) {
      forall w | Reaches(g, f, w)
        ensures Sound(callees, w)
      {
        FirstStep(g, f, w);
        if f != w {
          var c :| Edge(g, f, c) && Reaches(g, c, w);
          assert Available(callees, c);
        }
      }
    }
  }

  /** Availability is the greatest set of sound, callee-closed functions. */
  lemma AvailableGreatest(callees: Callees, s: set<nat>, f: nat)
    requires forall v :: v in s ==> Sound(callees, v)
    requires Closed(Bodies(callees), s)
    requires f in s
    ensures Available(callees, f)
  {
    forall w | Reaches(Bodies(callees), f, w)
      ensures Sound(callees, w)
    {
      ClosedWalk(Bodies(callees), s, f, w);
    }
  }

  /** Seed with present acyclic bodies, then drop every caller of an unsettled callee. */
  method SettleEligibility(callees: Callees, emitted: seq<nat>, onCycle: seq<bool>) returns (eligible: seq<bool>)
    requires |onCycle| == |callees|
    requires forall v: nat :: v < |callees| ==> (onCycle[v] <==> OnCycle(Bodies(callees), v))
    requires Distinct(emitted) && (forall v: nat :: v in emitted <==> v < |callees|)
    requires Ordered(Bodies(callees), emitted)
    ensures |eligible| == |callees|
    ensures forall v: nat :: v < |callees| ==> (eligible[v] <==> Available(callees, v))
  {
    eligible := seq(|callees|, i requires 0 <= i < |callees| => callees[i].Some? && !onCycle[i]);
    assert forall j :: 0 <= j < |emitted| ==> emitted[j] in emitted;
    for i := 0 to |emitted|
      invariant |eligible| == |callees|
      invariant forall j :: 0 <= j < i ==> (eligible[emitted[j]] <==> Available(callees, emitted[j]))
      invariant forall j :: i <= j < |emitted| ==>
                  (eligible[emitted[j]] <==> callees[emitted[j]].Some? && !onCycle[emitted[j]])
    {
      var f := emitted[i];
      assert f in emitted;
      AvailableStep(callees, f);
      if eligible[f] {
        var closed := AllEligible(callees[f].value, eligible);
        ClosedIsAvailable(callees, emitted, eligible, i, closed);
        eligible := eligible[f := closed];
      }
    }
    forall v: nat | v < |callees|
      ensures eligible[v] <==> Available(callees, v)
    {
      assert v in emitted;
      var j :| 0 <= j < |emitted| && emitted[j] == v;
    }
  }

  method AllEligible(calls: seq<nat>, eligible: seq<bool>) returns (r: bool)
    ensures r <==> forall c :: c in calls ==> c < |eligible| && eligible[c]
  {
    for i := 0 to |calls|
      invariant forall c :: c in calls[..i] ==> c < |eligible| && eligible[c]
    {
      if !(calls[i] < |eligible| && eligible[calls[i]]) {
        assert calls[i] in calls;
        return false;
      }
      assert calls[..i + 1] == calls[..i] + [calls[i]];
    }
    assert calls[..|calls|] == calls;
    return true;
  }

  lemma ClosedIsAvailable(callees: Callees, emitted: seq<nat>, eligible: seq<bool>, i: nat, closed: bool)
    requires i < |emitted| && |eligible| == |callees|
    requires forall v: nat :: v in emitted <==> v < |callees|
    requires Ordered(Bodies(callees), emitted)
    requires forall j :: 0 <= j < |emitted| ==> emitted[j] < |callees|
    requires forall j :: 0 <= j < i ==> (eligible[emitted[j]] <==> Available(callees, emitted[j]))
    requires callees[emitted[i]].Some? && !OnCycle(Bodies(callees), emitted[i])
    requires closed <==> forall c :: c in callees[emitted[i]].value ==> c < |eligible| && eligible[c]
    ensures closed <==> Available(callees, emitted[i])
  {
    var f := emitted[i];
    var g := Bodies(callees);
    AvailableStep(callees, f);
    forall c | c in callees[f].value && c < |callees|
      ensures eligible[c] <==> Available(callees, c)
    {
      assert Edge(g, emitted[i], c);
      assert c in emitted[..i];
      var j :| 0 <= j < i && emitted[j] == c;
    }
    if closed {
      assert Sound(callees, f);
    }
  }

  function Retained(order: seq<nat>, eligible: seq<bool>): (r: seq<nat>)
    ensures forall f :: f in r <==> f in order && f < |eligible| && eligible[f]
  {
    if order == [] then []
    else
      var f, rest := order[|order| - 1], Retained(order[..|order| - 1], eligible);
      if f < |eligible| && eligible[f] then rest + [f] else rest
  }

  lemma RetainedSnoc(rest: seq<nat>, f: nat, eligible: seq<bool>)
    ensures var front := Retained(rest, eligible);
      Retained(rest + [f], eligible) == if f < |eligible| && eligible[f] then front + [f] else front
  {
    assert (rest + [f])[..|rest|] == rest;
  }

  /** Filtering by a mask that is closed under calls keeps callees before callers. */
  lemma {:induction false} RetainedOrder(g: Graph, order: seq<nat>, eligible: seq<bool>)
    requires Distinct(order) && |eligible| == |g|
    requires forall f: nat, w: nat :: Edge(g, f, w) && eligible[f] ==> eligible[w]
    requires forall i: nat, w: nat :: (i < |order| && Edge(g, order[i], w) && eligible[order[i]]) ==> w in order[..i]
    ensures Distinct(Retained(order, eligible)) && CalleeFirst(Retained(order, eligible), g)
  {
    hide Retained;
    if order == [] {
      RetainedNil(eligible);
    } else {
      var n := |order| - 1;
      var rest, f := order[..n], order[n];
      assert order == rest + [f];
      RetainedSnoc(rest, f, eligible);
      forall i: nat, w: nat | i < |rest| && Edge(g, rest[i], w) && eligible[rest[i]]
        ensures w in rest[..i]
      {
        assert rest[..i] == order[..i] && rest[i] == order[i];
      }
      RetainedOrder(g, rest, eligible);
      if f < |eligible| && eligible[f] {
        assert order[n] !in order[..n];
        forall w: nat | Edge(g, f, w) ensures w in rest { assert Edge(g, order[n], w); }
        LastRetained(g, rest, f, eligible);
        AppendOrdered(g, Retained(rest, eligible), f);
      }
    }
  }

  lemma RetainedNil(eligible: seq<bool>)
    ensures Retained([], eligible) == []
  {
  }

  /** The last function of an order is new to what was retained before, which holds its callees. */
  lemma LastRetained(g: Graph, rest: seq<nat>, f: nat, eligible: seq<bool>)
    requires f !in rest && f < |eligible| == |g| && eligible[f]
    requires forall u: nat, w: nat :: Edge(g, u, w) && eligible[u] ==> eligible[w]
    requires forall w: nat :: Edge(g, f, w) ==> w in rest
    ensures f !in Retained(rest, eligible)
    ensures forall w: nat :: Edge(g, f, w) ==> w in Retained(rest, eligible)
  {
    hide Retained;
  }

  lemma AppendOrdered(g: Graph, front: seq<nat>, f: nat)
    requires Distinct(front) && CalleeFirst(front, g) && f !in front
    requires forall w: nat :: Edge(g, f, w) ==> w in front
    ensures Distinct(front + [f]) && CalleeFirst(front + [f], g)
  {
    var all := front + [f];
    forall i: nat, w: nat | i < |all| && Edge(g, all[i], w)
      ensures w in all[..i]
    {
      if i < |front| {
        assert all[..i] == front[..i];
        assert Edge(g, front[i], w);
      } else {
        assert all[..i] == front;
      }
    }
  }

  /**
   The whole analysis. `found` and `log` record the discoveries and the edge reads.
   */
  method Analyze(callees: Callees)
    returns (analysis: CallGraphAnalysis, ghost found: seq<nat>, ghost log: seq<(nat, nat)>)
    ensures |analysis.onCycle| == |callees|
    ensures forall v: nat :: analysis.IsOnCycle(v) <==> v < |callees| && OnCycle(Bodies(callees), v)
    ensures IsOrderOf(callees, analysis.IntoAcyclicOrder())
    ensures Distinct(found) && (forall v: nat :: v in found <==> v < |callees|)
    ensures forall i, j :: 0 <= i < j < |log| ==> log[i] != log[j]
    ensures forall v: nat, j: nat :: (v, j) in log <==> v < |callees| && j < |Bodies(callees)[v]|
  {
    hide Retained, IsOrderOf, Available, Ordered, OnCycle;
    var g := Bodies(callees);
    var s := Start(|callees|);
    found, log := [], [];
    StartInv(g);
    for root := 0 to |callees|
      invariant Search(g, s, log, found) && s.frames == []
      invariant forall v :: v in White(g, s) ==> root <= v
    {
      if s.indexOf[root] == UNVISITED {
        s, log, found := Explore(g, s, root, log, found);
      } else {
        assert root !in White(g, s);
      }
    }
    SearchDone(g, s, log, found);
    var eligible := SettleEligibility(callees, s.emitted, s.onCycle);
    SettledOrder(callees, s.emitted, eligible);
    analysis := CallGraphAnalysis(Retained(s.emitted, eligible), s.onCycle, eligible);
  }

  lemma SettledOrder(callees: Callees, emitted: seq<nat>, eligible: seq<bool>)
    requires |eligible| == |callees|
    requires forall v: nat :: v < |callees| ==> (eligible[v] <==> Available(callees, v))
    requires Distinct(emitted) && (forall v: nat :: v in emitted <==> v < |callees|)
    requires Ordered(Bodies(callees), emitted)
    ensures IsOrderOf(callees, AcyclicCallOrder(Retained(emitted, eligible), eligible))
  {
    var g := Bodies(callees);
    forall f: nat, w: nat | Edge(g, f, w) && eligible[f]
      ensures eligible[w] && !OnCycle(g, f)
    {
      AvailableStep(callees, f);
    }
    forall i: nat, w: nat | i < |emitted| && Edge(g, emitted[i], w) && eligible[emitted[i]]
      ensures w in emitted[..i]
    {
    }
    RetainedOrder(g, emitted, eligible);
    var order := AcyclicCallOrder(Retained(emitted, eligible), eligible);
    forall f: nat
      ensures f in order.reverseTopological <==> order.Contains(f)
    {
    }
  }

  // ----- propagation

  /** Some function `f` reaches through `successors` has the property outright. */
  ghost predicate ReachesBase(successors: Graph, base: seq<bool>, f: nat) {
    exists w: nat :: w < |base| && base[w] && Reaches(successors, f, w)
  }

  /** Settle the property in one callee-first pass over a subrelation of the analysed calls. */
  method Propagate(order: AcyclicCallOrder, base: seq<bool>, successors: Graph) returns (value: seq<bool>)
    requires |base| == |successors| == order.DomainLen()
    requires Distinct(order.reverseTopological) && CalleeFirst(order.reverseTopological, successors)
    requires forall f :: f in order.reverseTopological <==> order.Contains(f)
    ensures |value| == order.DomainLen()
    ensures forall f: nat :: f < |value| ==> (value[f] <==> order.Contains(f) && ReachesBase(successors, base, f))
  {
    hide ReachesBase, CalleeFirst;
    var rt := order.reverseTopological;
    value := seq(order.DomainLen(), _ => false);
    assert forall i :: 0 <= i < |rt| ==> rt[i] in rt;
    for i := 0 to |rt|
      invariant |value| == order.DomainLen()
      invariant forall f: nat :: f < |value| && f in rt[..i] ==> (value[f] <==> ReachesBase(successors, base, f))
      invariant forall f: nat :: f < |value| && f !in rt[..i] ==> !value[f]
    {
      var f := rt[i];
      var settled := AnySettled(base[f], successors[f], value);
      SettledValue(rt, base, successors, value, i, settled);
      assert rt[..i + 1] == rt[..i] + [f];
      value := value[f := settled];
    }
    assert rt[..|rt|] == rt;
  }

  /** Whether the base holds or a successor inside the domain is settled true. */
  method AnySettled(start: bool, edges: seq<nat>, value: seq<bool>) returns (settled: bool)
    ensures settled <==> start || exists c :: c in edges && c < |value| && value[c]
  {
    settled := start;
    for j := 0 to |edges|
      invariant settled <==> start || exists c :: c in edges[..j] && c < |value| && value[c]
    {
      assert edges[..j + 1] == edges[..j] + [edges[j]];
      if edges[j] < |value| && value[edges[j]] {
        settled := true;
      }
    }
    assert edges[..|edges|] == edges;
  }

  lemma SettledValue(rt: seq<nat>, base: seq<bool>, successors: Graph, value: seq<bool>, i: nat, settled: bool)
    requires i < |rt| && rt[i] < |value| == |base| == |successors|
    requires CalleeFirst(rt, successors)
    requires forall f: nat :: f < |value| && f in rt[..i] ==> (value[f] <==> ReachesBase(successors, base, f))
    requires settled <==> base[rt[i]] || exists c :: c in successors[rt[i]] && c < |value| && value[c]
    ensures settled <==> ReachesBase(successors, base, rt[i])
  {
    var f := rt[i];
    forall c: nat | c in successors[f] && c < |value|
      ensures value[c] <==> ReachesBase(successors, base, c)
    {
      assert Edge(successors, rt[i], c);
      assert c in rt[..i];
    }
    if base[f] {
      ReachesSelf(successors, f);
    } else if settled {
      var c :| c in successors[f] && c < |value| && value[c];
      var w: nat :| w < |base| && base[w] && Reaches(successors, c, w);
      ReachesEdge(successors, f, c);
      ReachesTrans(successors, f, c, w);
    }
    if ReachesBase(successors, base, f) {
      var w: nat :| w < |base| && base[w] && Reaches(successors, f, w);
      FirstStep(successors, f, w);
      if f != w {
        var c :| Edge(successors, f, c) && Reaches(successors, c, w);
        assert ReachesBase(successors, base, c);
      }
    }
  }

  /** A subrelation of the calls inherits the order. */
  lemma SubrelationOrder(callees: Callees, order: AcyclicCallOrder, successors: Graph)
    requires IsOrderOf(callees, order) && |successors| == |callees|
    requires forall f: nat, c: nat :: Edge(successors, f, c) && order.Contains(f) ==> Edge(Bodies(callees), f, c)
    ensures CalleeFirst(order.reverseTopological, successors)
  {
    var rt := order.reverseTopological;
    forall i: nat, w: nat | i < |rt| && Edge(successors, rt[i], w)
      ensures w in rt[..i]
    {
      assert rt[i] in rt;
      assert Edge(Bodies(callees), rt[i], w);
    }
  }

  // ----- completeness of the order

  ghost function Below(n: nat): (s: set<nat>)
    ensures |s| == n && forall v: nat :: v in s <==> v < n
  {
    if n == 0 then {} else Below(n - 1) + {n - 1}
  }

  ghost function Elements(s: seq<nat>): (r: set<nat>)
    ensures forall v :: v in r <==> v in s
    ensures Distinct(s) ==> |r| == |s|
  {
    if s == [] then {}
    else
      var n := |s| - 1;
      assert s == s[..n] + [s[n]];
      assert Distinct(s) ==> s[n] !in s[..n];
      Elements(s[..n]) + {s[n]}
  }

  /** A list of distinct numbers below `n` has `n` entries exactly when it has them all. */
  lemma DistinctCount(s: seq<nat>, n: nat)
    requires Distinct(s) && forall i :: 0 <= i < |s| ==> s[i] < n
    ensures |s| == n <==> forall v: nat :: v < n ==> v in s
  {
    var all, listed := Below(n), Elements(s);
    assert listed <= all;
    assert all == listed + (all - listed);
    assert |all| == |listed| + |all - listed|;
    if |s| == n {
      assert all - listed == {};
      forall v: nat | v < n
        ensures v in s
      {
        assert v in all;
      }
    }
    if forall v: nat :: v < n ==> v in s {
      assert all - listed == {};
    }
  }

  /** The order is complete exactly when every function is available. */
  lemma CompleteOrder(callees: Callees, order: AcyclicCallOrder)
    requires IsOrderOf(callees, order)
    ensures order.IsComplete() <==> forall f: nat :: f < |callees| ==> Available(callees, f)
  {
    var rt := order.reverseTopological;
    assert forall i :: 0 <= i < |rt| ==> rt[i] in rt;
    DistinctCount(rt, |callees|);
    forall f: nat | f < |callees|
      ensures f in rt <==> Available(callees, f)
    {
      assert order.eligible[f] <==> Available(callees, f);
    }
  }
}
