/**
 One body's instruction tape and the walk that decides whether an export's `transaction`
 region is well formed on every control-flow path.
 */
module Tape {
  import opened Wrappers
  import opened Paths

  /** The opcodes the ownership passes tell apart. `Branch` stands for every conditional or
      checked-arithmetic transfer, `Stop` for the terminators that do not return. */
  datatype Instr =
    | TxnBegin
    | TxnCommit
    | Return
    | Stop
    | Jump(target: nat)
    | Branch(target: nat)
    | Call(callee: nat)
    | Durable(mutates: bool)
    | Plain

  /** The jump target first, then the fallthrough. */
  function Successors(instr: Instr, index: nat): seq<nat> {
    match instr
    case Return | Stop => []
    case Jump(target) => [target]
    case Branch(target) => [target, index + 1]
    case _ => [index + 1]
  }

  function Flow(code: seq<Instr>): (g: Graph)
    ensures |g| == |code|
  {
    seq(|code|, i requires 0 <= i < |code| => Successors(code[i], i))
  }

  datatype TxnState = BeforeBegin | InTxn(begin: nat) | AfterCommit(begin: nat)

  predicate SamePhase(a: TxnState, b: TxnState) {
    a.BeforeBegin? == b.BeforeBegin? && a.InTxn? == b.InTxn?
  }

  datatype RegionShape =
    | Reopen(begin: nat)
    | LeftOpen(at: nat, begin: nat)
    | RanOnSomePaths(at: nat, begin: nat)
  {
    function Order(): (nat, nat) {
      match this
      case Reopen(b) => (b, 1)
      case LeftOpen(a, _) => (a, 0)
      case RanOnSomePaths(a, _) => (a, 0)
    }
  }

  predicate Precedes(a: (nat, nat), b: (nat, nat)) {
    a.0 < b.0 || (a.0 == b.0 && a.1 < b.1)
  }

  /** The violation two paths form when they meet at `at` in different phases. */
  function Disagreement(prior: TxnState, next: TxnState, at: nat): (r: Option<RegionShape>)
    ensures r.None? <==> SamePhase(prior, next)
  {
    match (prior, next)
    case (BeforeBegin, BeforeBegin) => None
    case (InTxn(_), InTxn(_)) => None
    case (AfterCommit(_), AfterCommit(_)) => None
    case (InTxn(b), _) => Some(LeftOpen(at, b))
    case (_, InTxn(b)) => Some(LeftOpen(at, b))
    case (AfterCommit(b), BeforeBegin) => Some(RanOnSomePaths(at, b))
    case (BeforeBegin, AfterCommit(b)) => Some(RanOnSomePaths(at, b))
  }

  function Transfer(instr: Instr, state: TxnState, index: nat): TxnState {
    match (instr, state)
    case (TxnBegin, BeforeBegin) => InTxn(index)
    case (TxnCommit, InTxn(b)) => AfterCommit(b)
    case _ => state
  }

  predicate DurableHere(instr: Instr, durable: seq<bool>) {
    instr.Durable? || (instr.Call? && instr.callee < |durable| && durable[instr.callee])
  }

  // ----- the path specification

  /** The region state in which the walk `p` enters its last instruction. */
  ghost function StateAt(code: seq<Instr>, p: seq<nat>): TxnState
    requires |p| > 0 && forall i :: 0 <= i < |p| ==> p[i] < |code|
  {
    if |p| == 1 then BeforeBegin
    else
      var q := p[..|p| - 1];
      Transfer(code[q[|q| - 1]], StateAt(code, q), q[|q| - 1])
  }

  ghost predicate EntersBy(code: seq<Instr>, i: nat, state: TxnState, p: seq<nat>) {
    && Walk(Flow(code), p, 0, i)
    && (forall k :: 0 <= k < |p| ==> p[k] < |code|)
    && StateAt(code, p) == state
  }

  /** Some path from instruction 0 enters `i` in `state`. */
  ghost predicate Enters(code: seq<Instr>, i: nat, state: TxnState) {
    exists p :: EntersBy(code, i, state, p)
  }

  ghost predicate PathsAgree(code: seq<Instr>) {
    forall i: nat, a, b :: Enters(code, i, a) && Enters(code, i, b) ==>
      a.BeforeBegin? == b.BeforeBegin? && a.InTxn? == b.InTxn? && a.AfterCommit? == b.AfterCommit?
  }

  ghost predicate BeginsOnce(code: seq<Instr>) {
    forall i: nat, a :: i < |code| && code[i].TxnBegin? && Enters(code, i, a) ==> a.BeforeBegin?
  }

  ghost predicate ReturnsClosed(code: seq<Instr>) {
    forall i: nat, a :: i < |code| && code[i].Return? && Enters(code, i, a) ==> !a.InTxn?
  }

  /** Instruction `i` is a durable operation, or calls a function that is marked durable. */
  ghost predicate TouchesStore(code: seq<Instr>, durable: seq<bool>, i: nat) {
    i < |code| &&
    (|| code[i] == Durable(true) || code[i] == Durable(false)
     || exists c: nat :: code[i] == Call(c) && c < |durable| && durable[c])
  }

  ghost predicate NothingDurableAfterCommit(code: seq<Instr>, durable: seq<bool>) {
    forall i: nat, a :: Enters(code, i, a) && a.AfterCommit? ==> !TouchesStore(code, durable, i)
  }

  ghost predicate WellFormedRegion(code: seq<Instr>, durable: seq<bool>) {
    PathsAgree(code) && BeginsOnce(code) && ReturnsClosed(code) && NothingDurableAfterCommit(code, durable)
  }

  // ----- what the paths are

  /** Control passes to a jump's target, and falls through what is neither a jump nor an end. */
  lemma FlowMeans(code: seq<Instr>, i: nat, j: nat)
    ensures Edge(Flow(code), i, j) <==>
      && i < |code| && j < |code|
      && (|| code[i] == Jump(j) || code[i] == Branch(j)
          || (j == i + 1 && !code[i].Jump? && !code[i].Return? && !code[i].Stop?))
  {
  }

  /** The state of a path, by the instructions it has run: before any begin, inside since its first
      begin, or past the first commit after it. */
  lemma {:induction false} StateMeans(code: seq<Instr>, p: seq<nat>)
    requires |p| > 0 && forall i :: 0 <= i < |p| ==> p[i] < |code|
    ensures match StateAt(code, p)
      case BeforeBegin => forall k :: 0 <= k < |p| - 1 ==> code[p[k]] != TxnBegin
      case InTxn(begin) => exists k :: FirstBegin(code, p, k) && p[k] == begin && !CommitsAfter(code, p, k)
      case AfterCommit(begin) => exists k :: FirstBegin(code, p, k) && p[k] == begin && CommitsAfter(code, p, k)
    decreases |p|
  {
    if |p| > 1 {
      var n := |p| - 1;
      var q := p[..n];
      StateMeans(code, q);
      if !StateAt(code, q).BeforeBegin? {
        var begin := StateAt(code, q).begin;
        var k :| FirstBegin(code, q, k) && q[k] == begin && CommitsAfter(code, q, k) == StateAt(code, q).AfterCommit?;
        assert FirstBegin(code, p, k) && p[k] == begin;
        if CommitsAfter(code, q, k) {
          var l :| k < l < |q| - 1 && code[q[l]] == TxnCommit;
          assert code[p[l]] == TxnCommit;
        } else if code[p[n - 1]] == TxnCommit {
          assert k < n - 1;
        } else {
          forall l | k < l < |p| - 1 ensures code[p[l]] != TxnCommit {
            if l < n - 1 { assert code[q[l]] != TxnCommit; }
          }
        }
      } else if code[p[n - 1]] == TxnBegin {
        assert FirstBegin(code, p, n - 1);
      }
    }
  }

  /** The `k`-th instruction run is the first begin. */
  ghost predicate FirstBegin(code: seq<Instr>, p: seq<nat>, k: int)
    requires forall i :: 0 <= i < |p| ==> p[i] < |code|
  {
    0 <= k < |p| - 1 && code[p[k]] == TxnBegin && forall l :: 0 <= l < k ==> code[p[l]] != TxnBegin
  }

  ghost predicate CommitsAfter(code: seq<Instr>, p: seq<nat>, k: int)
    requires 0 <= k && forall i :: 0 <= i < |p| ==> p[i] < |code|
  {
    exists l :: k < l < |p| - 1 && code[p[l]] == TxnCommit
  }

  lemma EntersStart(code: seq<Instr>)
    requires code != []
    ensures Enters(code, 0, BeforeBegin)
  {
    assert EntersBy(code, 0, BeforeBegin, [0]);
  }

  lemma EntersNext(code: seq<Instr>, i: nat, state: TxnState, next: nat)
    requires Enters(code, i, state) && Edge(Flow(code), i, next)
    ensures Enters(code, next, Transfer(code[i], state, i))
  {
    var p :| EntersBy(code, i, state, p);
    var q := p + [next];
    assert q[..|q| - 1] == p;
    forall k | 0 <= k < |q| - 1
      ensures Edge(Flow(code), q[k], q[k + 1])
    {
      if k < |p| - 1 {
        assert Edge(Flow(code), p[k], p[k + 1]);
      }
    }
    assert EntersBy(code, next, Transfer(code[i], state, i), q);
  }

  /** Induction over paths: a labelling kept by every edge covers every reached state. */
  lemma {:induction false} LabelsCover(code: seq<Instr>, entry: seq<Option<TxnState>>, p: seq<nat>, i: nat,
                                       state: TxnState)
    requires |entry| == |code| > 0 && entry[0] == Some(BeforeBegin)
    requires forall u: nat, v: nat :: Edge(Flow(code), u, v) && entry[u].Some? ==>
               entry[v].Some? && SamePhase(entry[v].value, Transfer(code[u], entry[u].value, u))
    requires EntersBy(code, i, state, p)
    ensures i < |code| && entry[i].Some? && SamePhase(entry[i].value, state)
    decreases |p|
  {
    assert p[|p| - 1] == i;
    if |p| > 1 {
      var q := p[..|p| - 1];
      var u := q[|q| - 1];
      assert Edge(Flow(code), p[|p| - 2], p[|p| - 1]);
      assert Walk(Flow(code), q, 0, u);
      LabelsCover(code, entry, q, u, StateAt(code, q));
    }
  }

  // ----- the walk

  /** What each recorded shape claims about the paths. */
  ghost predicate ShapeHolds(code: seq<Instr>, shape: RegionShape) {
    match shape
    case Reopen(b) => b < |code| && code[b].TxnBegin? && exists a :: Enters(code, b, a) && !a.BeforeBegin?
    case LeftOpen(at, b) => Enters(code, at, InTxn(b)) && exists a :: Enters(code, at, a) && !a.InTxn?
    case RanOnSomePaths(at, b) => Enters(code, at, AfterCommit(b)) && Enters(code, at, BeforeBegin)
  }

  /** `i` has handed its state to every successor without conflict. */
  ghost predicate Settled(code: seq<Instr>, entry: seq<Option<TxnState>>, i: nat)
    requires |entry| == |code| && i < |code| && entry[i].Some?
  {
    && (code[i].TxnBegin? ==> entry[i].value.BeforeBegin?)
    && forall v: nat :: Edge(Flow(code), i, v) ==>
         entry[v].Some? && SamePhase(entry[v].value, Transfer(code[i], entry[i].value, i))
  }

  /** What was recorded stands at or before `at`: at `at` itself, a reopening only yields to
      another. */
  ghost predicate NotAfter(first: Option<RegionShape>, at: nat, reopening: bool) {
    && first.Some?
    && match first.value
       case Reopen(b) => b < at || (b == at && reopening)
       case LeftOpen(a, _) => a <= at
       case RanOnSomePaths(a, _) => a <= at
  }

  /** `i` has handed its state on; each conflict it met is recorded, or an earlier one is. */
  ghost predicate Answered(code: seq<Instr>, entry: seq<Option<TxnState>>, i: nat, first: Option<RegionShape>)
    requires |entry| == |code| && i < |code| && entry[i].Some?
  {
    if code[i].TxnBegin? && !entry[i].value.BeforeBegin? then NotAfter(first, i, true)
    else
      forall v: nat :: Edge(Flow(code), i, v) ==>
        && entry[v].Some?
        && (SamePhase(entry[v].value, Transfer(code[i], entry[i].value, i)) || NotAfter(first, v, false))
  }

  lemma AnsweredSettles(code: seq<Instr>, entry: seq<Option<TxnState>>, i: nat)
    requires |entry| == |code| && i < |code| && entry[i].Some? && Answered(code, entry, i, None)
    ensures Settled(code, entry, i)
  {
  }

  lemma RecordKeeps(first: Option<RegionShape>, shape: RegionShape, at: nat, reopening: bool)
    ensures NotAfter(first, at, reopening) ==> NotAfter(Record(first, shape), at, reopening)
    ensures NotAfter(Some(shape), at, reopening) ==> NotAfter(Record(first, shape), at, reopening)
  {
  }

  lemma RecordAnswers(code: seq<Instr>, entry: seq<Option<TxnState>>, i: nat, first: Option<RegionShape>,
                      shape: RegionShape)
    requires |entry| == |code| && i < |code| && entry[i].Some? && Answered(code, entry, i, first)
    ensures Answered(code, entry, i, Record(first, shape))
  {
    hide NotAfter, Record, Flow;
    RecordKeeps(first, shape, i, true);
    forall v: nat | Edge(Flow(code), i, v) && NotAfter(first, v, false)
      ensures NotAfter(Record(first, shape), v, false)
    {
      RecordKeeps(first, shape, v, false);
    }
  }

  lemma RecordInv(code: seq<Instr>, entry: seq<Option<TxnState>>, work: seq<nat>, busy: int,
                  first: Option<RegionShape>, shape: RegionShape)
    requires WalkInv(code, entry, work, busy, first) && ShapeHolds(code, shape)
    ensures WalkInv(code, entry, work, busy, Record(first, shape))
  {
    hide Answered, ShapeHolds;
    forall i: nat | i < |code| && entry[i].Some? && i !in work && i != busy
      ensures Answered(code, entry, i, Record(first, shape))
    {
      RecordAnswers(code, entry, i, first, shape);
    }
  }

  /** Entry states are real, and everything but the worklist and `busy` is answered. */
  ghost predicate WalkInv(code: seq<Instr>, entry: seq<Option<TxnState>>, work: seq<nat>, busy: int,
                          first: Option<RegionShape>) {
    && |entry| == |code| > 0 && entry[0] == Some(BeforeBegin)
    && (forall i: nat :: i < |code| && entry[i].Some? ==> Enters(code, i, entry[i].value))
    && (forall k :: 0 <= k < |work| ==> work[k] < |code| && entry[work[k]].Some?)
    && (forall i: nat :: i < |code| && entry[i].Some? && i !in work && i != busy ==> Answered(code, entry, i, first))
    && (first.Some? ==> ShapeHolds(code, first.value))
  }

  function Record(first: Option<RegionShape>, shape: RegionShape): Option<RegionShape> {
    if first.None? || Precedes(shape.Order(), first.value.Order()) then Some(shape) else first
  }

  ghost function Unseen(entry: seq<Option<TxnState>>): set<nat> {
    set i: nat | 0 <= i < |entry| && entry[i].None?
  }

  lemma DisagreementHolds(code: seq<Instr>, at: nat, prior: TxnState, next: TxnState)
    requires Enters(code, at, prior) && Enters(code, at, next)
    ensures Disagreement(prior, next, at).Some? ==> ShapeHolds(code, Disagreement(prior, next, at).value)
  {
  }

  /** Offer the state that leaves `index` to its successors. */
  method Offer(code: seq<Instr>, entry0: seq<Option<TxnState>>, work0: seq<nat>, first0: Option<RegionShape>,
               index: nat)
    returns (entry: seq<Option<TxnState>>, work: seq<nat>, first: Option<RegionShape>)
    requires WalkInv(code, entry0, work0, index, first0)
    requires index < |code| && entry0[index].Some?
    requires code[index].TxnBegin? ==> entry0[index].value.BeforeBegin?
    ensures WalkInv(code, entry, work, -1, first)
    ensures Unseen(entry) < Unseen(entry0) || (entry == entry0 && work == work0)
  {
    entry, work, first := entry0, work0, first0;
    var next := Transfer(code[index], entry[index].value, index);
    var successors := Successors(code[index], index);
    for k := 0 to |successors|
      invariant WalkInv(code, entry, work, index, first)
      invariant entry[index] == entry0[index]
      invariant forall v: nat :: v in successors[..k] && v < |code| ==>
                  entry[v].Some? && (SamePhase(entry[v].value, next) || NotAfter(first, v, false))
      invariant Unseen(entry) < Unseen(entry0) || (entry == entry0 && work == work0)
    {
      assert successors[..k + 1] == successors[..k] + [successors[k]];
      entry, work, first := OfferOne(code, entry, work, first, index, next, successors[k]);
    }
    assert successors[..|successors|] == successors;
    assert Answered(code, entry, index, first);
  }

  method OfferOne(code: seq<Instr>, entry0: seq<Option<TxnState>>, work0: seq<nat>, first0: Option<RegionShape>,
                  index: nat, next: TxnState, v: nat)
    returns (entry: seq<Option<TxnState>>, work: seq<nat>, first: Option<RegionShape>)
    requires WalkInv(code, entry0, work0, index, first0)
    requires index < |code| && entry0[index].Some? && v in Successors(code[index], index)
    requires next == Transfer(code[index], entry0[index].value, index)
    ensures WalkInv(code, entry, work, index, first)
    ensures forall u: nat, reopening :: NotAfter(first0, u, reopening) ==> NotAfter(first, u, reopening)
    ensures forall u: nat :: u < |code| && entry0[u].Some? ==> entry[u] == entry0[u]
    ensures v < |code| ==> entry[v].Some? && (SamePhase(entry[v].value, next) || NotAfter(first, v, false))
    ensures Unseen(entry) < Unseen(entry0) || (entry == entry0 && work == work0)
  {
    entry, work, first := entry0, work0, first0;
    if v < |code| {
      assert Edge(Flow(code), index, v);
      EntersNext(code, index, entry[index].value, v);
      if entry[v].None? {
        OfferNew(code, entry, work, first, index, v, next);
        entry := entry[v := Some(next)];
        work := work + [v];
        assert v in Unseen(entry0) && v !in Unseen(entry);
      } else {
        var shape := Disagreement(entry[v].value, next, v);
        DisagreementHolds(code, v, entry[v].value, next);
        if shape.Some? {
          RecordInv(code, entry, work, index, first, shape.value);
          first := Record(first, shape.value);
        }
      }
    }
  }

  lemma OfferNew(code: seq<Instr>, entry: seq<Option<TxnState>>, work: seq<nat>, first: Option<RegionShape>,
                 index: nat, v: nat, next: TxnState)
    requires WalkInv(code, entry, work, index, first)
    requires v < |code| && entry[v].None? && Enters(code, v, next)
    ensures WalkInv(code, entry[v := Some(next)], work + [v], index, first)
  {
    var entry' := entry[v := Some(next)];
    var work' := work + [v];
    forall i: nat | i < |code| && entry'[i].Some? && i !in work' && i != index
      ensures Answered(code, entry', i, first)
    {
      assert i != v && i !in work;
      assert Answered(code, entry, i, first);
    }
  }

  /** Pop and process instructions until no entry state is owed. */
  method WalkTape(code: seq<Instr>) returns (entry: seq<Option<TxnState>>, first: Option<RegionShape>)
    requires code != []
    ensures WalkInv(code, entry, [], -1, first)
  {
    entry := seq(|code|, i => if i == 0 then Some(BeforeBegin) else None);
    var work := [0];
    first := None;
    EntersStart(code);
    while work != []
      invariant WalkInv(code, entry, work, -1, first)
      decreases Unseen(entry), |work|
    {
      var n := |work| - 1;
      var index := work[n];
      assert work == work[..n] + [index];
      work := work[..n];
      if code[index].TxnBegin? && !entry[index].value.BeforeBegin? {
        assert Enters(code, index, entry[index].value);
        RecordInv(code, entry, work, index, first, Reopen(index));
        first := Record(first, Reopen(index));
        assert Answered(code, entry, index, first);
      } else {
        entry, work, first := Offer(code, entry, work, first, index);
      }
    }
  }

  /** `x` is reached from `begin` by a non-empty walk. */
  ghost predicate AfterBegin(g: Graph, begin: nat, x: nat) {
    exists w: nat :: Edge(g, begin, w) && Reaches(g, w, x)
  }

  /** What is stacked or seen follows `begin`, and nothing that follows is forgotten. */
  ghost predicate CycleInv(g: Graph, begin: nat, seen: seq<bool>, stack: seq<nat>) {
    && |seen| == |g| && begin < |g| && !seen[begin]
    && (forall x: nat :: x < |g| && x in stack ==> AfterBegin(g, begin, x))
    && (forall x: nat :: x < |g| && seen[x] ==> AfterBegin(g, begin, x))
    && (forall x: nat, y: nat :: Edge(g, x, y) && (x == begin || seen[x]) ==> seen[y] || y in stack)
  }

  lemma CycleStart(g: Graph, begin: nat)
    requires begin < |g|
    ensures CycleInv(g, begin, seq(|g|, _ => false), g[begin])
  {
    forall x: nat | x < |g| && x in g[begin]
      ensures AfterBegin(g, begin, x)
    {
      ReachesSelf(g, x);
      assert Edge(g, begin, x);
    }
  }

  lemma CycleMark(g: Graph, begin: nat, seen: seq<bool>, stack: seq<nat>, index: nat)
    requires CycleInv(g, begin, seen, stack + [index])
    requires index < |g| && index != begin
    ensures CycleInv(g, begin, seen[index := true], stack + g[index])
  {
    assert index in stack + [index];
    AfterBeginNext(g, begin, index);
    forall x: nat | x < |g| && x in stack + g[index]
      ensures AfterBegin(g, begin, x)
    {
      if x in stack {
        assert x in stack + [index];
      } else {
        assert Edge(g, index, x);
      }
    }
    forall x: nat, y: nat | Edge(g, x, y) && (x == begin || seen[index := true][x])
      ensures seen[index := true][y] || y in stack + g[index]
    {
      if x == begin || seen[x] {
        assert seen[y] || y in stack + [index];
      }
    }
  }

  lemma CycleSkip(g: Graph, begin: nat, seen: seq<bool>, stack: seq<nat>, index: nat)
    requires CycleInv(g, begin, seen, stack + [index])
    ensures index == begin ==> OnCycle(g, begin)
    ensures index >= |g| || seen[index] ==> CycleInv(g, begin, seen, stack)
  {
    assert index in stack + [index];
    assert forall x: nat :: x in stack ==> x in stack + [index];
    if index >= |g| || seen[index] {
      forall x: nat, y: nat | Edge(g, x, y) && (x == begin || seen[x])
        ensures seen[y] || y in stack
      {
        assert seen[y] || y in stack + [index];
      }
    }
  }

  /** Whether `begin` can reach itself, so that a later iteration would begin again. */
  method BeginOnCycle(code: seq<Instr>, begin: nat) returns (r: bool)
    requires begin < |code|
    ensures r <==> OnCycle(Flow(code), begin)
  {
    ghost var g := Flow(code);
    var seen := seq(|code|, _ => false);
    var stack: seq<nat> := Successors(code[begin], begin);
    CycleStart(g, begin);
    assert seen == seq(|g|, _ => false);
    hide CycleInv, OnCycle;
    while stack != []
      invariant |seen| == |code| && CycleInv(g, begin, seen, stack)
      decreases Unmarked(seen), |stack|
    {
      var n := |stack| - 1;
      var index := stack[n];
      assert stack == stack[..n] + [index];
      stack := stack[..n];
      CycleSkip(g, begin, seen, stack, index);
      if index == begin {
        return true;
      }
      if index < |code| && !seen[index] {
        CycleMark(g, begin, seen, stack, index);
        assert index in Unmarked(seen) && index !in Unmarked(seen[index := true]);
        seen := seen[index := true];
        stack := stack + Successors(code[index], index);
      }
    }
    CycleDone(g, begin, seen);
    return false;
  }

  ghost function Unmarked(seen: seq<bool>): set<nat> {
    set i: nat | 0 <= i < |seen| && !seen[i]
  }

  lemma AfterBeginNext(g: Graph, begin: nat, x: nat)
    requires AfterBegin(g, begin, x)
    ensures forall y: nat :: Edge(g, x, y) ==> AfterBegin(g, begin, y)
  {
    var w: nat :| Edge(g, begin, w) && Reaches(g, w, x);
    forall y: nat | Edge(g, x, y)
      ensures AfterBegin(g, begin, y)
    {
      ReachesEdge(g, x, y);
      ReachesTrans(g, w, x, y);
    }
  }

  lemma CycleDone(g: Graph, begin: nat, seen: seq<bool>)
    requires CycleInv(g, begin, seen, [])
    ensures !OnCycle(g, begin)
  {
    NeverReturns(g, begin, seen);
  }

  lemma NeverReturns(g: Graph, begin: nat, seen: seq<bool>)
    requires |seen| == |g| && begin < |g| && !seen[begin]
    requires forall x: nat, y: nat :: (x == begin || (x < |g| && seen[x])) && Edge(g, x, y) ==> seen[y]
    ensures !OnCycle(g, begin)
  {
    var marked := set x: nat | 0 <= x < |g| && seen[x];
    if OnCycle(g, begin) {
      var w :| Edge(g, begin, w) && Reaches(g, w, begin);
      ClosedWalk(g, marked, w, begin);
      assert false;
    }
  }

  /** Any recorded shape refutes the agreement of paths or the single begin. */
  lemma ShapeRefutes(code: seq<Instr>, shape: RegionShape)
    requires ShapeHolds(code, shape)
    ensures !PathsAgree(code) || !BeginsOnce(code)
  {
  }

  // ----- the verdict

  datatype Code = Reopened | Uncommitted | Conditional | DurableAfterCommit

  /** A report: its code and the instruction whose span carries it. */
  datatype Violation = Violation(code: Code, at: nat)

  /** The report of a region shape, at the block whose begin it concerns. */
  method RegionShapeReport(code: seq<Instr>, shape: RegionShape, ghost durable: seq<bool>) returns (v: Violation)
    requires ShapeHolds(code, shape)
    ensures match shape
      case Reopen(b) => v == Violation(Reopened, b)
      case LeftOpen(_, b) => v == Violation(Uncommitted, b)
      case RanOnSomePaths(_, b) => v == Violation(if OnCycle(Flow(code), b) then Reopened else Conditional, b)
    ensures ViolationHolds(code, durable, v)
  {
    match shape
    case Reopen(begin) => v := Violation(Reopened, begin);
    case LeftOpen(at, begin) =>
      EntersAfterBegin(code, at, InTxn(begin));
      v := Violation(Uncommitted, begin);
    case RanOnSomePaths(at, begin) =>
      EntersAfterBegin(code, at, AfterCommit(begin));
      var again := BeginOnCycle(code, begin);
      v := Violation(if again then Reopened else Conditional, begin);
  }

  /** What each report claims about the paths of the tape. */
  ghost predicate ViolationHolds(code: seq<Instr>, durable: seq<bool>, v: Violation) {
    v.at < |code| &&
    match v.code
    case Reopened =>
      && code[v.at].TxnBegin?
      && ((exists a :: Enters(code, v.at, a) && !a.BeforeBegin?)
          || (&& OnCycle(Flow(code), v.at)
              && exists m :: Enters(code, m, AfterCommit(v.at)) && Enters(code, m, BeforeBegin)))
    case Uncommitted =>
      || (code[v.at].Return? && exists a :: Enters(code, v.at, a) && a.InTxn?)
      || (code[v.at].TxnBegin? && exists m, a :: Enters(code, m, InTxn(v.at)) && Enters(code, m, a) && !a.InTxn?)
    case Conditional =>
      && code[v.at].TxnBegin? && !OnCycle(Flow(code), v.at)
      && exists m :: Enters(code, m, AfterCommit(v.at)) && Enters(code, m, BeforeBegin)
    case DurableAfterCommit =>
      TouchesStore(code, durable, v.at) && exists a :: Enters(code, v.at, a) && a.AfterCommit?
  }

  /** A state past the begin names a begin that opened it. */
  lemma {:induction false} OpenedBy(code: seq<Instr>, p: seq<nat>)
    requires |p| > 0 && forall i :: 0 <= i < |p| ==> p[i] < |code|
    ensures !StateAt(code, p).BeforeBegin? ==>
              StateAt(code, p).begin < |code| && code[StateAt(code, p).begin].TxnBegin?
    decreases |p|
  {
    if |p| > 1 {
      OpenedBy(code, p[..|p| - 1]);
    }
  }

  lemma EntersAfterBegin(code: seq<Instr>, at: nat, state: TxnState)
    requires Enters(code, at, state) && !state.BeforeBegin?
    ensures at < |code| && state.begin < |code| && code[state.begin].TxnBegin?
  {
    var p :| EntersBy(code, at, state, p);
    assert p[|p| - 1] == at;
    OpenedBy(code, p);
  }

  /** Every report refutes the region's well-formedness. */
  lemma ViolationRefutes(code: seq<Instr>, durable: seq<bool>, v: Violation)
    requires ViolationHolds(code, durable, v)
    ensures !WellFormedRegion(code, durable)
  {
  }

  /** A conflict-free walk labels every reached state. */
  lemma WalkCovers(code: seq<Instr>, entry: seq<Option<TxnState>>, i: nat, state: TxnState)
    requires WalkInv(code, entry, [], -1, None) && Enters(code, i, state)
    ensures i < |code| && entry[i].Some? && SamePhase(entry[i].value, state)
  {
    var p :| EntersBy(code, i, state, p);
    forall u: nat, v: nat | Edge(Flow(code), u, v) && entry[u].Some?
      ensures entry[v].Some? && SamePhase(entry[v].value, Transfer(code[u], entry[u].value, u))
    {
      AnsweredSettles(code, entry, u);
    }
    LabelsCover(code, entry, p, i, state);
  }

  /** No entry state before `at` breaks a law at its instruction. */
  ghost predicate ScannedTo(code: seq<Instr>, durable: seq<bool>, entry: seq<Option<TxnState>>, at: nat) {
    && |entry| == |code|
    && forall i: nat :: i < at && i < |code| && entry[i].Some? ==>
         && (code[i].Return? ==> !entry[i].value.InTxn?)
         && (DurableHere(code[i], durable) ==> !entry[i].value.AfterCommit?)
  }

  /** The entry state at `idx` breaks a law there: the first one to do so. */
  lemma ScanFinds(code: seq<Instr>, durable: seq<bool>, entry: seq<Option<TxnState>>, idx: nat, why: Code)
    requires WalkInv(code, entry, [], -1, None) && idx < |code| && entry[idx].Some?
    requires ScannedTo(code, durable, entry, idx)
    requires why == Uncommitted ==> code[idx].Return? && entry[idx].value.InTxn?
    requires why == DurableAfterCommit ==> DurableHere(code[idx], durable) && entry[idx].value.AfterCommit?
    requires why == Uncommitted || why == DurableAfterCommit
    ensures ViolationHolds(code, durable, Violation(why, idx)) && !WellFormedRegion(code, durable)
    ensures QuietBefore(code, durable, idx)
  {
    assert Enters(code, idx, entry[idx].value);
    ScanDecides(code, durable, entry, idx);
    ViolationRefutes(code, durable, Violation(why, idx));
  }

  lemma WalkDecides(code: seq<Instr>, durable: seq<bool>, entry: seq<Option<TxnState>>)
    requires WalkInv(code, entry, [], -1, None)
    requires ScannedTo(code, durable, entry, |code|)
    ensures WellFormedRegion(code, durable)
  {
    forall i: nat, a | Enters(code, i, a)
      ensures i < |code| && entry[i].Some? && SamePhase(entry[i].value, a) && Settled(code, entry, i)
    {
      WalkCovers(code, entry, i, a);
      AnsweredSettles(code, entry, i);
    }
  }

  /** No path returns with the region open, or touches the store after its commit, before `at`. */
  ghost predicate QuietBefore(code: seq<Instr>, durable: seq<bool>, at: nat) {
    forall i: nat, a :: i < at && Enters(code, i, a) && i < |code| ==>
      && (code[i] == Return ==> !a.InTxn?)
      && (a.AfterCommit? ==> !TouchesStore(code, durable, i))
  }

  lemma ScanDecides(code: seq<Instr>, durable: seq<bool>, entry: seq<Option<TxnState>>, at: nat)
    requires WalkInv(code, entry, [], -1, None)
    requires ScannedTo(code, durable, entry, at)
    ensures QuietBefore(code, durable, at)
  {
    forall i: nat, a | i < at && Enters(code, i, a) && i < |code|
      ensures i < |code| && entry[i].Some? && SamePhase(entry[i].value, a)
    {
      WalkCovers(code, entry, i, a);
    }
  }

  /** The first owner-lattice violation, or none when the region is well formed on every path. */
  method OwnerLatticeViolation(code: seq<Instr>, durable: seq<bool>) returns (r: Option<Violation>)
    ensures r.None? <==> WellFormedRegion(code, durable)
    ensures r.Some? ==> ViolationHolds(code, durable, r.value)
    ensures r.Some? && PathsAgree(code) && BeginsOnce(code) ==> QuietBefore(code, durable, r.value.at)
  {
    if code == [] {
      assert forall i: nat, a :: !Enters(code, i, a);
      return None;
    }
    var entry, first := WalkTape(code);
    if first.Some? {
      ShapeRefutes(code, first.value);
      var v := RegionShapeReport(code, first.value, durable);
      ViolationRefutes(code, durable, v);
      return Some(v);
    }
    assert |entry| == |code|;
    hide WalkInv, Enters, QuietBefore, PathsAgree, BeginsOnce, ReturnsClosed, NothingDurableAfterCommit, ViolationHolds;
    for idx := 0 to |code|
      invariant ScannedTo(code, durable, entry, idx)
    {
      if entry[idx].Some? {
        if code[idx].Return? && entry[idx].value.InTxn? {
          ScanFinds(code, durable, entry, idx, Uncommitted);
          return Some(Violation(Uncommitted, idx));
        } else if DurableHere(code[idx], durable) && entry[idx].value.AfterCommit? {
          ScanFinds(code, durable, entry, idx, DurableAfterCommit);
          return Some(Violation(DurableAfterCommit, idx));
        }
      }
    }
    WalkDecides(code, durable, entry);
    return None;
  }
}
