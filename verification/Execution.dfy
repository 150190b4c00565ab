/**
 Runs of an export through its whole call tree, and the safety every run has when the
 ownership passes stay silent.
 */
module Execution {
  import opened Paths
  import opened CallGraph
  import opened Tape
  import opened Ownership

  datatype Phase = Unopened | Open | Committed

  datatype Activation = Activation(f: nat, pc: nat)

  /** A run's control stack (last is running), the region's phase, and how often it began. */
  datatype Config = Config(stack: seq<Activation>, phase: Phase, begins: nat)

  ghost predicate Runs(p: Program, a: Activation) {
    a.f < |p| && p[a.f].Some? && a.pc < |p[a.f].value.code|
  }

  ghost function Fetch(p: Program, a: Activation): Instr
    requires Runs(p, a)
  {
    p[a.f].value.code[a.pc]
  }

  /** One step: control may take any successor; a call suspends its caller at the call. */
  ghost predicate Step(p: Program, c: Config, d: Config) {
    && c.stack != []
    && var n := |c.stack| - 1;
       var top := c.stack[n];
       Runs(p, top) &&
       match Fetch(p, top)
       case Call(t) =>
         Runs(p, Activation(t, 0)) && d == c.(stack := c.stack + [Activation(t, 0)])
       case Return =>
         if n == 0 then d == c.(stack := [])
         else
           var caller := c.stack[n - 1];
           d == c.(stack := c.stack[..n - 1] + [Activation(caller.f, caller.pc + 1)])
           && Runs(p, Activation(caller.f, caller.pc + 1))
       case instr =>
         && d.stack != [] && d.stack == c.stack[..n] + [d.stack[|d.stack| - 1]]
         && var next := d.stack[|d.stack| - 1];
         && next.f == top.f && next.pc in Successors(instr, top.pc) && Runs(p, next)
         && d.phase == (if instr.TxnBegin? then Open
                        else if instr.TxnCommit? && c.phase.Open? then Committed else c.phase)
         && d.begins == c.begins + (if instr.TxnBegin? then 1 else 0)
  }

  ghost predicate IsRun(p: Program, e: nat, run: seq<Config>) {
    && 0 < |run| && run[0] == Config([Activation(e, 0)], Unopened, 0)
    && Runs(p, Activation(e, 0))
    && forall i :: 0 <= i < |run| - 1 ==> Step(p, run[i], run[i + 1])
  }

  /** What the instruction about to run may do. */
  ghost predicate Safe(p: Program, c: Config) {
    && c.begins <= 1
    && (c.stack == [] ==> !c.phase.Open?)
    && (c.stack != [] && Runs(p, c.stack[|c.stack| - 1]) ==>
          match Fetch(p, c.stack[|c.stack| - 1])
          case TxnBegin => |c.stack| == 1 && c.begins == 0
          case TxnCommit => |c.stack| == 1 && c.begins == 1 && c.phase.Open?
          case Return => |c.stack| == 1 ==> !c.phase.Open?
          case Durable(mutates) => !c.phase.Committed? && (mutates ==> c.phase.Open?)
          case _ => true)
  }

  // ----- what lowering guarantees

  /** `depth[f][i]`: how many open `transaction` blocks control stands in at instruction `i` of `f`. A
      commit still stands in the block it closes; a return behind its commit no longer does. */
  type Depths = seq<seq<nat>>

  /** The facts of lowering the passes rest on: calls are recorded, what runs outside every block
      is listed, blocks nest on the tape, and no body calls a test. */
  ghost predicate Lowered(p: Program, depth: Depths) {
    && |depth| == |p|
    && (forall f: nat :: f < |p| && p[f].Some? ==> |depth[f]| == |p[f].value.code| && LoweredBody(p, f, depth[f]))
  }

  ghost predicate LoweredBody(p: Program, f: nat, depth: seq<nat>)
    requires f < |p| && p[f].Some? && |depth| == |p[f].value.code|
  {
    var body := p[f].value;
    && (forall i: nat :: i < |body.code| && body.code[i].Call? ==>
          && body.code[i].callee in body.callees
          && (depth[i] == 0 ==> body.code[i].callee in Targets(body.unwrappedCalls)))
    && (forall i: nat :: i < |body.code| && body.code[i] == Durable(true) && depth[i] == 0 ==>
          body.unwrappedMutations != [])
    && BlocksNest(body.code, depth)
    && (forall c: nat :: c in body.callees && c < |p| && p[c].Some? ==> !p[c].value.role.Test?)
  }

  /** The depth control leaves an instruction at. */
  function DepthAfter(instr: Instr, depth: nat): nat {
    if instr.TxnBegin? then depth + 1 else if instr.TxnCommit? && depth > 0 then depth - 1 else depth
  }

  /** A tape starts outside every block, commits only inside one, and no single step goes deeper
      but through a begin. A jump may leave blocks. */
  ghost predicate BlocksNest(code: seq<Instr>, depth: seq<nat>)
    requires |depth| == |code|
  {
    && (code != [] ==> depth[0] == 0)
    && (forall i: nat :: i < |code| && code[i].TxnCommit? ==> depth[i] > 0)
    && (forall u: nat, v: nat :: Edge(Flow(code), u, v) ==> depth[v] <= DepthAfter(code[u], depth[u]))
  }

  /** A program all three passes left without a report. */
  ghost predicate Accepted(p: Program, durable: seq<bool>) {
    && (forall f: nat :: f < |p| ==> p[f].Some? && Available(CalleesOf(p), f))
    && (forall f: nat :: f < |p| ==> !Missing(p, f))
    && |durable| == |p|
    && (forall f: nat :: f < |p| ==> (durable[f] <==> PerformsDurable(p, f)))
    && (forall f: nat :: f < |p| && p[f].Some? ==> OwnershipClean(p, durable, f))
  }

  // ----- the invariant

  ghost function PhaseOf(a: TxnState): Phase {
    match a
    case BeforeBegin => Unopened
    case InTxn(_) => Open
    case AfterCommit(_) => Committed
  }

  ghost predicate Located(p: Program, a: Activation, state: TxnState) {
    Runs(p, a) && Enters(p[a.f].value.code, a.pc, state)
  }

  /** `b` was called from the instruction `a` is suspended at. */
  ghost predicate CalledFrom(p: Program, a: Activation, b: Activation) {
    Runs(p, a) && Fetch(p, a) == Call(b.f)
  }

  /** The export's own frame is where the lattice says; every other frame was called. */
  ghost predicate Tracked(p: Program, e: nat, c: Config, state: TxnState) {
    && c.stack != [] && c.stack[0].f == e && Located(p, c.stack[0], state)
    && c.phase == PhaseOf(state) && c.begins == (if state.BeforeBegin? then 0 else 1)
    && (forall k :: 1 <= k < |c.stack| ==> CalledFrom(p, c.stack[k - 1], c.stack[k]))
    && (forall k :: 1 <= k < |c.stack| ==> Located(p, c.stack[k], BeforeBegin))
  }

  /** Without a begin, no region ever opens. */
  lemma {:induction false} NoBeginState(code: seq<Instr>, q: seq<nat>)
    requires TxnBegin !in code && |q| > 0 && forall i :: 0 <= i < |q| ==> q[i] < |code|
    ensures StateAt(code, q).BeforeBegin?
    decreases |q|
  {
    if |q| > 1 {
      NoBeginState(code, q[..|q| - 1]);
      assert code[q[|q| - 2]] in code;
    }
  }

  lemma NoBegin(code: seq<Instr>, i: nat, a: TxnState)
    requires TxnBegin !in code && Enters(code, i, a)
    ensures a.BeforeBegin?
  {
    var q :| EntersBy(code, i, a, q);
    NoBeginState(code, q);
  }

  /** A called body is no test, begins nothing, and runs nothing in a block. */
  lemma Called(p: Program, durable: seq<bool>, depth: Depths, a: Activation, b: Activation)
    requires Accepted(p, durable) && Lowered(p, depth)
    requires CalledFrom(p, a, b) && !p[a.f].value.role.Test?
    ensures b.f < |p| && Edge(Bodies(CalleesOf(p)), a.f, b.f)
    ensures !p[b.f].value.role.Test? && TxnBegin !in p[b.f].value.code
  {
    var body := p[a.f].value;
    assert LoweredBody(p, a.f, depth[a.f]);
    assert b.f in body.callees;
    AvailableStep(CalleesOf(p), a.f);
    assert b.f in CalleesOf(p)[a.f].value;
    assert OwnershipClean(p, durable, a.f);
    assert !CallsOwner(p, body.code[a.pc]);
  }

  /** Every frame above the export's is a called body. */
  lemma {:induction false} FrameIsCalled(p: Program, durable: seq<bool>, depth: Depths, e: nat, c: Config,
                                         state: TxnState, k: nat)
    requires Accepted(p, durable) && Lowered(p, depth) && Tracked(p, e, c, state) && p[e].value.role.Export?
    requires k < |c.stack|
    ensures !p[c.stack[k].f].value.role.Test?
    ensures k > 0 ==> TxnBegin !in p[c.stack[k].f].value.code
    ensures k > 0 ==> Edge(Bodies(CalleesOf(p)), c.stack[k - 1].f, c.stack[k].f)
  {
    if k > 0 {
      FrameIsCalled(p, durable, depth, e, c, state, k - 1);
      Called(p, durable, depth, c.stack[k - 1], c.stack[k]);
    }
  }

  /** Frames above the export's are reached by calls, all of them outside any block. */
  lemma {:induction false} FrameReached(p: Program, durable: seq<bool>, depth: Depths, e: nat, c: Config,
                                        state: TxnState, k: nat)
    requires Accepted(p, durable) && Lowered(p, depth) && Tracked(p, e, c, state) && p[e].value.role.Export?
    requires 1 <= k < |c.stack|
    ensures Reaches(Bodies(CalleesOf(p)), c.stack[1].f, c.stack[k].f)
    ensures Reaches(UnwrappedGraph(p), c.stack[1].f, c.stack[k].f)
  {
    if k == 1 {
      ReachesSelf(Bodies(CalleesOf(p)), c.stack[1].f);
      ReachesSelf(UnwrappedGraph(p), c.stack[1].f);
    } else {
      var a, b := c.stack[k - 1], c.stack[k];
      FrameReached(p, durable, depth, e, c, state, k - 1);
      FrameIsCalled(p, durable, depth, e, c, state, k - 1);
      FrameIsCalled(p, durable, depth, e, c, state, k);
      OutsideBlocks(p, durable, depth, a);
      assert LoweredBody(p, a.f, depth[a.f]);
      assert Edge(UnwrappedGraph(p), a.f, b.f);
      ReachesEdge(Bodies(CalleesOf(p)), a.f, b.f);
      ReachesTrans(Bodies(CalleesOf(p)), c.stack[1].f, a.f, b.f);
      ReachesEdge(UnwrappedGraph(p), a.f, b.f);
      ReachesTrans(UnwrappedGraph(p), c.stack[1].f, a.f, b.f);
    }
  }

  // ----- blocks along paths

  /** How deep a path in `state` can be: inside one block while the region is open, else in none. */
  function DepthOf(state: TxnState): nat { if state.InTxn? then 1 else 0 }

  /** When every begin is reached before any begin, a path is never deeper than its state says. */
  lemma {:induction false} PathDepth(code: seq<Instr>, depth: seq<nat>, i: nat, state: TxnState, q: seq<nat>)
    requires |depth| == |code| && BlocksNest(code, depth) && BeginsOnce(code) && EntersBy(code, i, state, q)
    ensures i < |code| && depth[i] <= DepthOf(state)
    decreases |q|
  {
    if |q| > 1 {
      var n := |q| - 1;
      var u := q[n - 1];
      var before := q[..n];
      assert Edge(Flow(code), q[n - 1], q[n - 1 + 1]);
      assert EntersBy(code, u, StateAt(code, before), before);
      PathDepth(code, depth, u, StateAt(code, before), before);
      assert Enters(code, u, StateAt(code, before));
    }
  }

  /** An instruction in a block is entered only with the region open. */
  lemma BlockIsOpen(code: seq<Instr>, depth: seq<nat>, i: nat, state: TxnState)
    requires |depth| == |code| && BlocksNest(code, depth) && BeginsOnce(code) && Enters(code, i, state)
    ensures i < |code| && (depth[i] > 0 ==> state.InTxn?)
  {
    var q :| EntersBy(code, i, state, q);
    PathDepth(code, depth, i, state, q);
  }

  lemma AcceptedBeginsOnce(p: Program, durable: seq<bool>, f: nat)
    requires Accepted(p, durable) && f < |p| && p[f].Some?
    ensures BeginsOnce(p[f].value.code)
  {
    assert OwnershipClean(p, durable, f);
  }

  /** In an accepted program whatever runs in a block runs with the region open. */
  lemma InBlock(p: Program, durable: seq<bool>, depth: Depths, a: Activation, state: TxnState)
    requires Accepted(p, durable) && Lowered(p, depth) && Located(p, a, state)
    ensures |depth| == |p| && |depth[a.f]| == |p[a.f].value.code|
    ensures depth[a.f][a.pc] > 0 || Fetch(p, a).TxnCommit? ==> state.InTxn?
  {
    assert LoweredBody(p, a.f, depth[a.f]);
    AcceptedBeginsOnce(p, durable, a.f);
    BlockIsOpen(p[a.f].value.code, depth[a.f], a.pc, state);
  }

  lemma OutsideBlocks(p: Program, durable: seq<bool>, depth: Depths, a: Activation)
    requires Accepted(p, durable) && Lowered(p, depth) && Located(p, a, BeforeBegin)
    ensures |depth| == |p| && |depth[a.f]| == |p[a.f].value.code|
    ensures depth[a.f][a.pc] == 0 && !Fetch(p, a).TxnCommit?
  {
    InBlock(p, durable, depth, a, BeforeBegin);
  }

  /** An export that performs something durable below commits only after it. */
  lemma DurableBeforeCommit(p: Program, durable: seq<bool>, e: nat, a: Activation, state: TxnState)
    requires Accepted(p, durable) && a.f == e && Located(p, a, state) && p[e].value.role.Export?
    requires DurableHere(Fetch(p, a), durable)
    ensures !state.AfterCommit?
  {
    assert OwnershipClean(p, durable, e);
    var code := p[e].value.code;
    if !OwnsRegion(p, e) {
      NoBegin(code, a.pc, state);
    }
  }

  /** A mutation needs the region open: it lies in a block of the export, or below a call in one. */
  lemma MutationOpen(p: Program, durable: seq<bool>, depth: Depths, e: nat, c: Config, state: TxnState)
    requires Accepted(p, durable) && Lowered(p, depth) && Tracked(p, e, c, state) && p[e].value.role.Export?
    requires Fetch(p, c.stack[|c.stack| - 1]) == Durable(true)
    ensures !state.BeforeBegin?
  {
    var n := |c.stack| - 1;
    var top := c.stack[n];
    var body := p[e].value;
    var bottom := c.stack[0];
    assert Located(p, top, if n == 0 then state else BeforeBegin);
    assert LoweredBody(p, top.f, depth[top.f]);
    if state.BeforeBegin? {
      OutsideBlocks(p, durable, depth, bottom);
      OutsideBlocks(p, durable, depth, top);
      assert p[top.f].value.unwrappedMutations != [];
      if n == 0 {
        assert MissingHolds(p, MutationOutside(e, body.unwrappedMutations[0]));
      } else {
        FrameIsCalled(p, durable, depth, e, c, state, 1);
        FrameReached(p, durable, depth, e, c, state, n);
        var t := c.stack[1].f;
        assert MutatesOutside(p)[top.f];
        assert RequiresTransaction(p, t);
        assert CalledFrom(p, bottom, c.stack[1]);
        assert LoweredBody(p, e, depth[e]);
        assert t in Targets(body.unwrappedCalls);
        var i :| 0 <= i < |body.unwrappedCalls| && body.unwrappedCalls[i].0 == t;
        assert MissingHolds(p, CallOutside(e, t, body.unwrappedCalls[i].1));
      }
      assert Missing(p, e);
      assert false;
    }
  }

  /** A tracked configuration is safe to run. */
  lemma TrackedSafe(p: Program, durable: seq<bool>, depth: Depths, e: nat, c: Config, state: TxnState)
    requires Accepted(p, durable) && Lowered(p, depth) && Tracked(p, e, c, state) && p[e].value.role.Export?
    ensures Safe(p, c)
  {
    var n := |c.stack| - 1;
    var top := c.stack[n];
    assert OwnershipClean(p, durable, e);
    assert Located(p, top, if n == 0 then state else BeforeBegin);
    FrameIsCalled(p, durable, depth, e, c, state, n);
    match Fetch(p, top)
    case TxnBegin =>
    case TxnCommit =>
      if n > 0 {
        OutsideBlocks(p, durable, depth, top);
      } else {
        InBlock(p, durable, depth, top, state);
      }
    case Return =>
      if n == 0 {
        if !OwnsRegion(p, e) {
          NoBegin(p[e].value.code, top.pc, state);
        }
      }
    case Durable(mutates) =>
      if n == 0 {
        DurableBeforeCommit(p, durable, e, top, state);
      } else {
        CallIsDurable(p, durable, depth, e, c, state);
        DurableBeforeCommit(p, durable, e, c.stack[0], state);
      }
      if mutates {
        MutationOpen(p, durable, depth, e, c, state);
      }
    case _ =>
  }

  /** The export's suspended call performs what a frame above it performs. */
  lemma CallIsDurable(p: Program, durable: seq<bool>, depth: Depths, e: nat, c: Config, state: TxnState)
    requires Accepted(p, durable) && Lowered(p, depth) && Tracked(p, e, c, state) && p[e].value.role.Export?
    requires |c.stack| > 1 && Fetch(p, c.stack[|c.stack| - 1]).Durable?
    ensures DurableHere(Fetch(p, c.stack[0]), durable)
  {
    var n := |c.stack| - 1;
    var top := c.stack[n];
    FrameIsCalled(p, durable, depth, e, c, state, 1);
    FrameReached(p, durable, depth, e, c, state, n);
    assert CalledFrom(p, c.stack[0], c.stack[1]);
    var instr := Fetch(p, top);
    assert instr in p[top.f].value.code;
    assert instr == Durable(true) || instr == Durable(false);
    assert DirectDurable(p)[top.f];
    assert PerformsDurable(p, c.stack[1].f);
  }

  lemma CallStep(p: Program, e: nat, c: Config, d: Config, state: TxnState)
    requires Tracked(p, e, c, state) && Step(p, c, d) && Fetch(p, c.stack[|c.stack| - 1]).Call?
    ensures Tracked(p, e, d, state)
  {
    var n := |c.stack| - 1;
    var t := Fetch(p, c.stack[n]).callee;
    EntersStart(p[t].value.code);
    assert forall k :: 0 <= k <= n ==> d.stack[k] == c.stack[k];
    assert CalledFrom(p, d.stack[n], d.stack[n + 1]);
  }

  lemma ReturnStep(p: Program, e: nat, c: Config, d: Config, state: TxnState)
    requires Tracked(p, e, c, state) && Step(p, c, d) && Fetch(p, c.stack[|c.stack| - 1]).Return?
    requires |c.stack| > 1
    ensures Tracked(p, e, d, state)
  {
    var n := |c.stack| - 1;
    var caller := c.stack[n - 1];
    var code := p[caller.f].value.code;
    assert CalledFrom(p, caller, c.stack[n]);
    assert Located(p, caller, if n == 1 then state else BeforeBegin);
    assert Edge(Flow(code), caller.pc, caller.pc + 1);
    EntersNext(code, caller.pc, if n == 1 then state else BeforeBegin, caller.pc + 1);
    assert forall k :: 0 <= k < n - 1 ==> d.stack[k] == c.stack[k];
    assert d.stack[n - 1] == Activation(caller.f, caller.pc + 1);
    forall k | 1 <= k < |d.stack|
      ensures CalledFrom(p, d.stack[k - 1], d.stack[k])
    {
      assert CalledFrom(p, c.stack[k - 1], c.stack[k]);
    }
  }

  /** A move of the export's own frame follows the lattice. */
  lemma MoveOwn(p: Program, durable: seq<bool>, e: nat, c: Config, d: Config, state: TxnState) returns (next: TxnState)
    requires Accepted(p, durable) && Tracked(p, e, c, state) && |c.stack| == 1
    requires Step(p, c, d) && !Fetch(p, c.stack[0]).Call? && !Fetch(p, c.stack[0]).Return?
    ensures Tracked(p, e, d, next)
  {
    var top := c.stack[0];
    var code := p[e].value.code;
    var to := d.stack[|d.stack| - 1];
    assert |d.stack| == 1 && to == d.stack[0];
    assert Edge(Flow(code), top.pc, to.pc);
    next := Transfer(code[top.pc], state, top.pc);
    EntersNext(code, top.pc, state, to.pc);
    AcceptedBeginsOnce(p, durable, e);
  }

  /** A move of a called frame changes no phase. */
  lemma MoveCalled(p: Program, durable: seq<bool>, depth: Depths, e: nat, c: Config, d: Config, state: TxnState)
    requires Accepted(p, durable) && Lowered(p, depth) && Tracked(p, e, c, state) && p[e].value.role.Export?
    requires |c.stack| > 1
    requires Step(p, c, d) && !Fetch(p, c.stack[|c.stack| - 1]).Call? && !Fetch(p, c.stack[|c.stack| - 1]).Return?
    ensures Tracked(p, e, d, state)
  {
    var n := |c.stack| - 1;
    var top := c.stack[n];
    var code := p[top.f].value.code;
    assert Located(p, top, BeforeBegin);
    FrameIsCalled(p, durable, depth, e, c, state, n);
    OutsideBlocks(p, durable, depth, top);
    hide Accepted, Lowered, LoweredBody;
    var to := d.stack[|d.stack| - 1];
    assert |d.stack| == n + 1 && to == d.stack[n];
    assert forall k :: 0 <= k < n ==> d.stack[k] == c.stack[k];
    assert Edge(Flow(code), top.pc, to.pc);
    EntersNext(code, top.pc, BeforeBegin, to.pc);
    forall k | 1 <= k < |d.stack|
      ensures CalledFrom(p, d.stack[k - 1], d.stack[k])
    {
      assert CalledFrom(p, c.stack[k - 1], c.stack[k]);
    }
  }

  ghost predicate TrackedOrDone(p: Program, e: nat, c: Config) {
    if c.stack == [] then c.begins <= 1 && !c.phase.Open? else exists state :: Tracked(p, e, c, state)
  }

  lemma StepTracked(p: Program, durable: seq<bool>, depth: Depths, e: nat, c: Config, d: Config)
    requires Accepted(p, durable) && Lowered(p, depth) && e < |p| && p[e].Some? && p[e].value.role.Export?
    requires TrackedOrDone(p, e, c) && Step(p, c, d)
    ensures TrackedOrDone(p, e, d)
  {
    var state :| Tracked(p, e, c, state);
    var instr := Fetch(p, c.stack[|c.stack| - 1]);
    if instr.Call? {
      CallStep(p, e, c, d, state);
    } else if instr.Return? && |c.stack| > 1 {
      ReturnStep(p, e, c, d, state);
    } else if instr.Return? {
      TrackedSafe(p, durable, depth, e, c, state);
    } else {
      if |c.stack| == 1 {
        var next := MoveOwn(p, durable, e, c, d, state);
      } else {
        MoveCalled(p, durable, depth, e, c, d, state);
      }
    }
  }

  /** Every configuration of every run of an accepted program is safe. */
  lemma {:induction false} RunsAreSafe(p: Program, durable: seq<bool>, depth: Depths, e: nat, run: seq<Config>, i: nat)
    requires Accepted(p, durable) && Lowered(p, depth)
    requires e < |p| && p[e].Some? && p[e].value.role.Export?
    requires IsRun(p, e, run) && i < |run|
    ensures Safe(p, run[i]) && TrackedOrDone(p, e, run[i])
  {
    if i == 0 {
      EntersStart(p[e].value.code);
      assert Tracked(p, e, run[0], BeforeBegin);
    } else {
      RunsAreSafe(p, durable, depth, e, run, i - 1);
      assert Step(p, run[i - 1], run[i - 1 + 1]);
      StepTracked(p, durable, depth, e, run[i - 1], run[i]);
    }
    if run[i].stack != [] {
      var state :| Tracked(p, e, run[i], state);
      TrackedSafe(p, durable, depth, e, run[i], state);
    }
  }

  // ----- from silent passes to safe runs

  /**
   Check a program. When it is complete and every pass is silent, every run of every export
   is safe through its whole call tree.
   */
  method ValidateLowered(p: Program, ghost depth: Depths) returns (rows: seq<Row>, complete: bool)
    requires Lowered(p, depth) && CallsRecorded(p)
    ensures rows == [] && complete <==> Accepted(p, DurableBodies(p))
    ensures rows == [] && complete ==>
      forall e: nat, run: seq<Config>, i: nat ::
        e < |p| && p[e].Some? && p[e].value.role.Export? && IsRun(p, e, run) && i < |run| ==> Safe(p, run[i])
  {
    var recursion, order := RejectRecursion(p);
    var missing, unwrapped := RejectMissingTransaction(p, order);
    var ownership := RejectTransactionOwnership(p, order, unwrapped);
    rows := recursion + missing + ownership;
    complete := AllPresent(p) && order.IsComplete() && true !in unwrapped;
    if rows == [] && complete {
      assert recursion == [] && missing == [] && ownership == [];
      forall f: nat | f < |p| ensures OwnershipOf(p, order, unwrapped, f, []) {
        assert OwnershipOf(p, order, unwrapped, f, RowsOf(ownership, f));
      }
      SilentAccepts(p, order, unwrapped);
      CompleteMask(p, order);
      forall e: nat, run: seq<Config>, i: nat |
        e < |p| && p[e].Some? && p[e].value.role.Export? && IsRun(p, e, run) && i < |run|
        ensures Safe(p, run[i])
      {
        RunsAreSafe(p, DurableMask(p, order), depth, e, run, i);
      }
    }
    if Accepted(p, DurableBodies(p)) {
      AcceptedSilent(p, order, recursion, missing, unwrapped, ownership);
    }
  }

  /** The functions that operate on the store in any frame below them. */
  ghost function DurableBodies(p: Program): (mask: seq<bool>)
    ensures |mask| == |p| && forall f: nat :: f < |p| ==> (mask[f] <==> PerformsDurable(p, f))
  {
    seq(|p|, f requires 0 <= f < |p| => PerformsDurable(p, f))
  }

  lemma CompleteMask(p: Program, order: AcyclicCallOrder)
    requires forall f: nat :: f < |p| ==> order.Contains(f)
    ensures DurableMask(p, order) == DurableBodies(p)
  {
    hide PerformsDurable;
  }

  /** A program the laws accept draws no row and is complete. */
  lemma AcceptedSilent(p: Program, order: AcyclicCallOrder, recursion: seq<Row>, missing: seq<Row>,
                       unwrapped: seq<bool>,
                       ownership: seq<Row>)
    requires Accepted(p, DurableBodies(p)) && IsOrderOf(CalleesOf(p), order)
    requires forall row :: row in recursion ==> row.f < |p| && OnCycle(Bodies(CalleesOf(p)), row.f)
    requires MissingReported(p, order, missing, unwrapped, |p|)
    requires ByFunction(ownership, |p|)
    requires forall f: nat :: f < |p| ==> OwnershipOf(p, order, unwrapped, f, RowsOf(ownership, f))
    ensures recursion == [] && missing == [] && ownership == []
    ensures AllPresent(p) && order.IsComplete() && true !in unwrapped
  {
    hide Missing, OwnershipClean, PerformsDurable, RowsOf, OwnershipHolds, MissingHolds, MissingRows;
    CompleteOrder(CalleesOf(p), order);
    AllContained(p, order);
    CompleteMask(p, order);
    NoneOnCycle(p, recursion);
    forall f: nat | f < |p| ensures RowsOf(missing, f) == [] {
      ReportedIffMissing(p, order, f, RowsOf(missing, f));
    }
    NoRowsAtAll(missing, |p|);
    forall f: nat | f < |p| ensures RowsOf(ownership, f) == [] {
      assert OwnershipOf(p, order, unwrapped, f, RowsOf(ownership, f));
    }
    NoRowsAtAll(ownership, |p|);
  }

  lemma NoneOnCycle(p: Program, recursion: seq<Row>)
    requires forall f: nat :: f < |p| ==> Available(CalleesOf(p), f)
    requires forall row :: row in recursion ==> row.f < |p| && OnCycle(Bodies(CalleesOf(p)), row.f)
    ensures recursion == []
  {
    if recursion != [] {
      var f := recursion[0].f;
      assert recursion[0] in recursion;
      AvailableStep(CalleesOf(p), f);
      assert false;
    }
  }

  /** Rows no function drew are no rows. */
  lemma NoRowsAtAll(rows: seq<Row>, n: nat)
    requires ByFunction(rows, n) && forall f: nat :: f < n ==> RowsOf(rows, f) == []
    ensures rows == []
  {
    if rows != [] {
      var last := |rows| - 1;
      assert RowsOf(rows, rows[last].f) == RowsOf(rows[..last], rows[last].f) + [rows[last]];
      assert false;
    }
  }

  predicate AllPresent(p: Program) {
    forall f :: 0 <= f < |p| ==> p[f].Some?
  }

  lemma SilentAccepts(p: Program, order: AcyclicCallOrder, unwrapped: seq<bool>)
    requires IsOrderOf(CalleesOf(p), order) && AllPresent(p) && order.IsComplete()
    requires |unwrapped| == |p| && true !in unwrapped
    requires forall f: nat :: f < |p| ==> (unwrapped[f] <==> order.Contains(f) && Missing(p, f))
    requires forall f: nat :: f < |p| ==> OwnershipOf(p, order, unwrapped, f, [])
    ensures Accepted(p, DurableMask(p, order)) && forall f: nat :: f < |p| ==> order.Contains(f)
  {
    CompleteOrder(CalleesOf(p), order);
    AllContained(p, order);
    SilentClean(p, order, unwrapped);
  }

  lemma AllContained(p: Program, order: AcyclicCallOrder)
    requires IsOrderOf(CalleesOf(p), order)
    requires forall f: nat :: f < |p| ==> Available(CalleesOf(p), f)
    ensures forall f: nat :: f < |p| ==> order.Contains(f)
  {
    forall f: nat | f < |p|
      ensures order.Contains(f)
    {
      assert order.eligible[f] <==> Available(CalleesOf(p), f);
    }
  }

  lemma SilentClean(p: Program, order: AcyclicCallOrder, unwrapped: seq<bool>)
    requires AllPresent(p) && forall f: nat :: f < |p| ==> order.Contains(f)
    requires |unwrapped| == |p| && true !in unwrapped
    requires forall f: nat :: f < |p| ==> (unwrapped[f] <==> order.Contains(f) && Missing(p, f))
    requires forall f: nat :: f < |p| ==> OwnershipOf(p, order, unwrapped, f, [])
    ensures forall f: nat :: f < |p| ==> !Missing(p, f)
    ensures forall f: nat :: f < |p| && p[f].Some? ==> OwnershipClean(p, DurableMask(p, order), f)
  {
    forall f: nat | f < |p|
      ensures !Missing(p, f) && OwnershipClean(p, DurableMask(p, order), f)
    {
      assert unwrapped[f] in unwrapped;
      assert OwnershipOf(p, order, unwrapped, f, []);
    }
  }
}
