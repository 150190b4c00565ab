/**
 The passes that hold a lowered program to its transaction-ownership laws: recursion,
 missing transactions, and ownership of the `transaction` region.
 */
module Ownership {
  import opened Wrappers
  import opened Paths
  import opened CallGraph
  import opened Tape

  datatype Role = Helper | Export | Test

  /** A source position; reports of one position are one report. */
  datatype Span = Span(line: nat, column: nat)

  /** A settled body: its role, its calls, what it does outside any block, and its tape. */
  datatype Body = Body(
    role: Role,
    callees: seq<nat>,
    unwrappedMutations: seq<Span>,
    unwrappedCalls: seq<(nat, Span)>,
    code: seq<Instr>)

  /** Bodies at their reserved indices; a missing body is a hole. */
  type Program = seq<Option<Body>>

  datatype Row =
    | Recursion(f: nat)
    | MutationOutside(f: nat, span: Span)
    | CallOutside(f: nat, callee: nat, span: Span)
    | OwnerCalled(f: nat, at: nat)
    | EmptyRegion(f: nat, at: nat)
    | Region(f: nat, violation: Violation)
    | Misplaced(f: nat, at: nat)

  // ----- the relations the passes read

  function CalleesOf(p: Program): (c: Callees)
    ensures |c| == |p|
  {
    seq(|p|, i requires 0 <= i < |p| => if p[i].Some? then Some(p[i].value.callees) else None)
  }

  function Targets(calls: seq<(nat, Span)>): (r: seq<nat>)
    ensures |r| == |calls| && forall i :: 0 <= i < |r| ==> r[i] == calls[i].0
  {
    seq(|calls|, i requires 0 <= i < |calls| => calls[i].0)
  }

  /** The calls made outside any `transaction` block. */
  function UnwrappedGraph(p: Program): (g: Graph)
    ensures |g| == |p|
  {
    seq(|p|, i requires 0 <= i < |p| => if p[i].Some? then Targets(p[i].value.unwrappedCalls) else [])
  }

  function MutatesOutside(p: Program): (b: seq<bool>)
    ensures |b| == |p|
  {
    seq(|p|, i requires 0 <= i < |p| => p[i].Some? && p[i].value.unwrappedMutations != [])
  }

  predicate HasMutation(code: seq<Instr>) { Durable(true) in code }
  predicate HasDurable(code: seq<Instr>) { Durable(true) in code || Durable(false) in code }

  function DirectMutation(p: Program): (b: seq<bool>)
    ensures |b| == |p|
  {
    seq(|p|, i requires 0 <= i < |p| => p[i].Some? && HasMutation(p[i].value.code))
  }

  function DirectDurable(p: Program): (b: seq<bool>)
    ensures |b| == |p|
  {
    seq(|p|, i requires 0 <= i < |p| => p[i].Some? && HasDurable(p[i].value.code))
  }

  predicate HasBegin(p: Program, f: nat) {
    f < |p| && p[f].Some? && TxnBegin in p[f].value.code
  }

  predicate HasCommit(p: Program, f: nat) {
    f < |p| && p[f].Some? && TxnCommit in p[f].value.code
  }

  /** Calls outside blocks are calls. */
  ghost predicate CallsRecorded(p: Program) {
    forall f: nat, c: nat :: f < |p| && p[f].Some? && c in Targets(p[f].value.unwrappedCalls) ==>
      c in p[f].value.callees
  }

  // ----- what the closures mean

  /** `f` needs an ambient transaction: an unwrapped call chain from it ends in an unwrapped mutation. */
  ghost predicate RequiresTransaction(p: Program, f: nat) {
    ReachesBase(UnwrappedGraph(p), MutatesOutside(p), f)
  }

  ghost predicate Mutates(p: Program, f: nat) {
    ReachesBase(Bodies(CalleesOf(p)), DirectMutation(p), f)
  }

  ghost predicate PerformsDurable(p: Program, f: nat) {
    ReachesBase(Bodies(CalleesOf(p)), DirectDurable(p), f)
  }

  // ----- recursion

  /** Report every present body on a call cycle, in index order, and keep the acyclic order. */
  method RejectRecursion(p: Program) returns (rows: seq<Row>, order: AcyclicCallOrder)
    ensures IsOrderOf(CalleesOf(p), order)
    ensures forall row :: row in rows <==>
              row.Recursion? && row.f < |p| && p[row.f].Some? && OnCycle(Bodies(CalleesOf(p)), row.f)
    ensures forall i, j :: 0 <= i < j < |rows| ==> rows[i].f < rows[j].f
  {
    var analysis, _, _ := Analyze(CalleesOf(p));
    order := analysis.IntoAcyclicOrder();
    rows := [];
    for f := 0 to |p|
      invariant forall row :: row in rows <==>
                  row.Recursion? && row.f < f && p[row.f].Some? && OnCycle(Bodies(CalleesOf(p)), row.f)
      invariant forall i :: 0 <= i < |rows| ==> rows[i] in rows
      invariant forall i, j :: 0 <= i < j < |rows| ==> rows[i].f < rows[j].f
    {
      if p[f].Some? && analysis.IsOnCycle(f) {
        rows := rows + [Recursion(f)];
      }
    }
  }

  // ----- missing transactions

  ghost predicate NeedsSettled(p: Program, order: AcyclicCallOrder, needs: seq<bool>) {
    |needs| == |p| && forall f: nat :: f < |p| ==> (needs[f] <==> order.Contains(f) && RequiresTransaction(p, f))
  }

  method SettleRequires(p: Program, order: AcyclicCallOrder) returns (r: seq<bool>)
    requires IsOrderOf(CalleesOf(p), order) && CallsRecorded(p)
    ensures NeedsSettled(p, order, r)
  {
    var g := UnwrappedGraph(p);
    forall f: nat, c: nat | Edge(g, f, c)
      ensures Edge(Bodies(CalleesOf(p)), f, c)
    {
    }
    SubrelationOrder(CalleesOf(p), order, g);
    r := Propagate(order, MutatesOutside(p), g);
  }

  /** Row `row` of `f` names something `f` does outside any block that needs one. */
  ghost predicate MissingHolds(p: Program, row: Row) {
    && row.f < |p| && p[row.f].Some?
    && var body := p[row.f].value;
       match row
       case MutationOutside(_, span) => body.role.Export? && span in body.unwrappedMutations
       case CallOutside(_, callee, span) =>
         !body.role.Helper? && (callee, span) in body.unwrappedCalls && callee < |p| && RequiresTransaction(p, callee)
       case _ => false
  }

  ghost predicate Missing(p: Program, f: nat) {
    exists row :: MissingHolds(p, row) && row.f == f
  }

  /** The rows of one function: real, one per position, and no position forgotten. */
  ghost predicate MissingRows(p: Program, f: nat, rows: seq<Row>) {
    && (forall i :: 0 <= i < |rows| ==> rows[i].f == f && MissingHolds(p, rows[i]))
    && (forall i, j :: 0 <= i < j < |rows| ==> rows[i].span != rows[j].span)
    && (forall row :: MissingHolds(p, row) && row.f == f ==> exists i :: 0 <= i < |rows| && rows[i].span == row.span)
  }

  /** Rows so far, and exactly their positions. */
  ghost predicate Collected(p: Program, f: nat, rows: seq<Row>, seen: set<Span>) {
    && (forall i :: 0 <= i < |rows| ==> rows[i].f == f && MissingHolds(p, rows[i]))
    && (forall i :: 0 <= i < |rows| ==> rows[i].span in seen)
    && (forall i, j :: 0 <= i < j < |rows| ==> rows[i].span != rows[j].span)
    && (forall span :: span in seen ==> exists i :: 0 <= i < |rows| && rows[i].span == span)
  }

  lemma CollectedPush(p: Program, f: nat, rows: seq<Row>, seen: set<Span>, row: Row)
    requires Collected(p, f, rows, seen) && row.f == f && MissingHolds(p, row) && row.span !in seen
    ensures Collected(p, f, rows + [row], seen + {row.span})
  {
    var rows' := rows + [row];
    forall span | span in seen + {row.span}
      ensures exists i :: 0 <= i < |rows'| && rows'[i].span == span
    {
      if span in seen {
        var i :| 0 <= i < |rows| && rows[i].span == span;
        assert rows'[i].span == span;
      } else {
        assert rows'[|rows|].span == span;
      }
    }
  }

  method ReportMutations(p: Program, f: nat) returns (rows: seq<Row>, seen: set<Span>)
    requires f < |p| && p[f].Some? && !p[f].value.role.Helper?
    ensures Collected(p, f, rows, seen)
    ensures p[f].value.role.Export? ==> forall span :: span in p[f].value.unwrappedMutations ==> span in seen
  {
    var body := p[f].value;
    rows, seen := [], {};
    for i := 0 to |body.unwrappedMutations|
      invariant Collected(p, f, rows, seen)
      invariant body.role.Export? ==> forall j :: 0 <= j < i ==> body.unwrappedMutations[j] in seen
    {
      var span := body.unwrappedMutations[i];
      if !body.role.Test? && span !in seen {
        CollectedPush(p, f, rows, seen, MutationOutside(f, span));
        rows := rows + [MutationOutside(f, span)];
        seen := seen + {span};
      }
    }
  }

  /** Report the unwrapped mutations of an export and the unwrapped calls that need a transaction. */
  method ReportMissing(p: Program, needs: seq<bool>, f: nat) returns (rows: seq<Row>)
    requires f < |p| == |needs| && p[f].Some? && !p[f].value.role.Helper?
    requires forall c: nat :: c < |p| && c in Targets(p[f].value.unwrappedCalls) ==>
               (needs[c] <==> RequiresTransaction(p, c))
    ensures MissingRows(p, f, rows)
  {
    var calls := p[f].value.unwrappedCalls;
    var seen;
    rows, seen := ReportMutations(p, f);
    ghost var direct := seen;
    for i := 0 to |calls|
      invariant Collected(p, f, rows, seen) && direct <= seen
      invariant forall j :: 0 <= j < i && calls[j].0 < |p| && RequiresTransaction(p, calls[j].0) ==> calls[j].1 in seen
    {
      var (callee, span) := calls[i];
      assert Targets(calls)[i] == callee;
      if callee < |p| && needs[callee] && span !in seen {
        CollectedPush(p, f, rows, seen, CallOutside(f, callee, span));
        rows := rows + [CallOutside(f, callee, span)];
        seen := seen + {span};
      }
    }
    AllCovered(p, f, rows, seen);
  }

  lemma AllCovered(p: Program, f: nat, rows: seq<Row>, seen: set<Span>)
    requires Collected(p, f, rows, seen) && f < |p| && p[f].Some?
    requires p[f].value.role.Export? ==> forall span :: span in p[f].value.unwrappedMutations ==> span in seen
    requires var calls := p[f].value.unwrappedCalls;
      forall j :: 0 <= j < |calls| && calls[j].0 < |p| && RequiresTransaction(p, calls[j].0) ==> calls[j].1 in seen
    ensures MissingRows(p, f, rows)
  {
    forall row | MissingHolds(p, row) && row.f == f
      ensures exists i :: 0 <= i < |rows| && rows[i].span == row.span
    {
      assert row.span in seen;
    }
  }

  /** The rows of `f`: none unless it is an available export or test. */
  ghost predicate OwnRows(p: Program, order: AcyclicCallOrder, f: nat, own: seq<Row>)
    requires f < |p|
  {
    if order.Contains(f) && p[f].Some? && !p[f].value.role.Helper? then MissingRows(p, f, own) else own == []
  }

  method ReportFunction(p: Program, order: AcyclicCallOrder, needs: seq<bool>, f: nat) returns (own: seq<Row>)
    requires IsOrderOf(CalleesOf(p), order) && CallsRecorded(p) && f < |p| && NeedsSettled(p, order, needs)
    ensures OwnRows(p, order, f, own)
  {
    own := [];
    if order.Contains(f) && p[f].Some? && !p[f].value.role.Helper? {
      CalleesSettled(p, order, f);
      own := ReportMissing(p, needs, f);
    }
  }

  /** The rows drawn by `f`, in report order. */
  ghost function RowsOf(rows: seq<Row>, f: nat): seq<Row> {
    if rows == [] then []
    else
      var n := |rows| - 1;
      if rows[n].f == f then RowsOf(rows[..n], f) + [rows[n]] else RowsOf(rows[..n], f)
  }

  ghost predicate DrawnBy(rows: seq<Row>, f: nat) {
    forall i :: 0 <= i < |rows| ==> rows[i].f == f
  }

  /** Rows come function by function, in index order. */
  ghost predicate ByFunction(rows: seq<Row>, n: nat) {
    && (forall i :: 0 <= i < |rows| ==> rows[i].f < n)
    && (forall i, j :: 0 <= i < j < |rows| ==> rows[i].f <= rows[j].f)
  }

  lemma {:induction false} RowsOfAppend(rows: seq<Row>, own: seq<Row>, f: nat, g: nat)
    requires DrawnBy(own, f)
    ensures RowsOf(rows + own, g) == if g == f then RowsOf(rows, g) + own else RowsOf(rows, g)
    decreases |own|
  {
    if own == [] {
      assert rows + own == rows;
    } else {
      var n := |own| - 1;
      RowsOfAppend(rows, own[..n], f, g);
      assert (rows + own)[..|rows| + n] == rows + own[..n];
    }
  }

  lemma {:induction false} NoRowsOf(rows: seq<Row>, n: nat, f: nat)
    requires ByFunction(rows, n) && n <= f
    ensures RowsOf(rows, f) == []
    decreases |rows|
  {
    if rows != [] { NoRowsOf(rows[..|rows| - 1], n, f); }
  }

  /** Appending the rows of the next function leaves every other function's rows alone. */
  lemma NextRows(rows: seq<Row>, own: seq<Row>, f: nat)
    requires ByFunction(rows, f) && DrawnBy(own, f)
    ensures ByFunction(rows + own, f + 1)
    ensures RowsOf(rows + own, f) == own
    ensures forall g: nat :: g != f ==> RowsOf(rows + own, g) == RowsOf(rows, g)
  {
    NoRowsOf(rows, f, f);
    forall g: nat ensures RowsOf(rows + own, g) == if g == f then own else RowsOf(rows, g) {
      RowsOfAppend(rows, own, f, g);
    }
  }

  /** What the pass leaves for the functions below `n`: their own rows, in order, and a mark on
      exactly those that draw one. */
  ghost predicate MissingReported(p: Program, order: AcyclicCallOrder, rows: seq<Row>, reported: seq<bool>, n: nat)
    requires n <= |p|
  {
    && ByFunction(rows, n) && |reported| == |p|
    && (forall f: nat :: f < n ==> OwnRows(p, order, f, RowsOf(rows, f)))
    && (forall f: nat :: f < n ==> (reported[f] <==> order.Contains(f) && Missing(p, f)))
  }

  lemma MissingReportedNext(p: Program, order: AcyclicCallOrder, rows: seq<Row>, reported: seq<bool>, f: nat,
                            own: seq<Row>)
    requires f < |p| && MissingReported(p, order, rows, reported, f) && OwnRows(p, order, f, own)
    ensures MissingReported(p, order, rows + own, reported[f := own != []], f + 1)
  {
    ReportedIffMissing(p, order, f, own);
    hide OwnRows, RowsOf, Missing, ByFunction, DrawnBy;
    NextRows(rows, own, f);
  }

  /** Report every missing transaction of the available exports and tests, function by function. */
  method RejectMissingTransaction(p: Program, order: AcyclicCallOrder) returns (rows: seq<Row>, reported: seq<bool>)
    requires IsOrderOf(CalleesOf(p), order) && CallsRecorded(p)
    ensures MissingReported(p, order, rows, reported, |p|)
  {
    var needs := SettleRequires(p, order);
    rows, reported := [], seq(|p|, _ => false);
    for f := 0 to |p|
      invariant |reported| == |p| && MissingReported(p, order, rows, reported, f)
    {
      var mine := ReportFunction(p, order, needs, f);
      MissingReportedNext(p, order, rows, reported, f, mine);
      rows := rows + mine;
      reported := reported[f := mine != []];
    }
  }

  lemma ReportedIffMissing(p: Program, order: AcyclicCallOrder, f: nat, own: seq<Row>)
    requires f < |p| && OwnRows(p, order, f, own)
    ensures own != [] <==> order.Contains(f) && Missing(p, f)
    ensures DrawnBy(own, f)
  {
    if own != [] {
      assert MissingHolds(p, own[0]);
    }
  }

  /** An export draws a report exactly when some chain of its unwrapped calls, of any length from
      zero, ends in an unwrapped mutation; a test, when such a chain starts with a call. */
  lemma MissingMeans(p: Program, f: nat)
    requires f < |p| && p[f].Some?
    ensures p[f].value.role.Export? ==> (Missing(p, f) <==> RequiresTransaction(p, f))
    ensures p[f].value.role.Test? ==>
              (Missing(p, f) <==> exists c :: Edge(UnwrappedGraph(p), f, c) && RequiresTransaction(p, c))
    ensures p[f].value.role.Helper? ==> !Missing(p, f)
  {
    var g, body := UnwrappedGraph(p), p[f].value;
    if Missing(p, f) {
      var row :| MissingHolds(p, row) && row.f == f;
      if row.CallOutside? {
        var i :| 0 <= i < |body.unwrappedCalls| && body.unwrappedCalls[i] == (row.callee, row.span);
        assert Targets(body.unwrappedCalls)[i] == row.callee;
        assert Edge(g, f, row.callee);
        RequiresBack(p, f, row.callee);
      } else {
        assert MutatesOutside(p)[f];
        ReachesSelf(g, f);
      }
    }
    if body.role.Export? && RequiresTransaction(p, f) {
      var w: nat :| w < |p| && MutatesOutside(p)[w] && Reaches(g, f, w);
      FirstStep(g, f, w);
      if f == w {
        assert MissingHolds(p, MutationOutside(f, body.unwrappedMutations[0]));
      } else {
        var c :| Edge(g, f, c) && Reaches(g, c, w);
        CallMissing(p, f, c);
      }
    }
    if body.role.Test? && exists c :: Edge(g, f, c) && RequiresTransaction(p, c) {
      var c :| Edge(g, f, c) && RequiresTransaction(p, c);
      CallMissing(p, f, c);
    }
  }

  lemma RequiresBack(p: Program, f: nat, c: nat)
    requires Edge(UnwrappedGraph(p), f, c) && RequiresTransaction(p, c)
    ensures RequiresTransaction(p, f)
  {
    var g := UnwrappedGraph(p);
    var w: nat :| w < |p| && MutatesOutside(p)[w] && Reaches(g, c, w);
    ReachesEdge(g, f, c);
    ReachesTrans(g, f, c, w);
  }

  lemma CallMissing(p: Program, f: nat, c: nat)
    requires f < |p| && p[f].Some? && !p[f].value.role.Helper?
    requires Edge(UnwrappedGraph(p), f, c) && RequiresTransaction(p, c)
    ensures Missing(p, f)
  {
    var calls := p[f].value.unwrappedCalls;
    var i :| 0 <= i < |calls| && Targets(calls)[i] == c;
    assert MissingHolds(p, CallOutside(f, c, calls[i].1));
  }

  /** The callees of an available function are available. */
  lemma CalleesSettled(p: Program, order: AcyclicCallOrder, f: nat)
    requires IsOrderOf(CalleesOf(p), order) && CallsRecorded(p)
    requires f < |p| && p[f].Some? && order.Contains(f)
    ensures forall c: nat :: c in p[f].value.callees ==> c < |p| && order.Contains(c)
    ensures forall c: nat :: c in Targets(p[f].value.unwrappedCalls) ==> c < |p| && order.Contains(c)
  {
    assert order.eligible[f] <==> Available(CalleesOf(p), f);
    AvailableStep(CalleesOf(p), f);
    forall c: nat | c in p[f].value.callees
      ensures c < |p| && order.Contains(c)
    {
      assert c in CalleesOf(p)[f].value;
      assert Available(CalleesOf(p), c);
      assert order.eligible[c] <==> Available(CalleesOf(p), c);
    }
  }

  // ----- ownership

  ghost predicate Settles(p: Program, order: AcyclicCallOrder, mask: seq<bool>, base: seq<bool>) {
    |mask| == |p| && forall f: nat :: f < |p| ==>
      (mask[f] <==> order.Contains(f) && ReachesBase(Bodies(CalleesOf(p)), base, f))
  }

  predicate CallsOwner(p: Program, instr: Instr) {
    instr.Call? && HasBegin(p, instr.callee)
  }

  /** `at` is the first `transaction` marker of the tape. */
  ghost predicate FirstMarker(code: seq<Instr>, at: nat) {
    && at < |code| && (code[at].TxnBegin? || code[at].TxnCommit?)
    && forall i :: 0 <= i < at ==> !code[i].TxnBegin? && !code[i].TxnCommit?
  }

  method FindMarker(code: seq<Instr>) returns (at: nat)
    requires TxnBegin in code || TxnCommit in code
    ensures FirstMarker(code, at)
  {
    at := 0;
    while !code[at].TxnBegin? && !code[at].TxnCommit?
      invariant at < |code|
      invariant forall i :: 0 <= i < at ==> !code[i].TxnBegin? && !code[i].TxnCommit?
      invariant exists i :: at <= i < |code| && (code[i].TxnBegin? || code[i].TxnCommit?)
      decreases |code| - at
    {
      at := at + 1;
    }
  }

  /** An export that owns or needs a region. */
  ghost predicate OwnsRegion(p: Program, f: nat) {
    f < |p| && p[f].Some? && p[f].value.role.Export? && (Mutates(p, f) || HasBegin(p, f))
  }

  /** The ownership laws `f` is held to. */
  ghost predicate OwnershipClean(p: Program, durable: seq<bool>, f: nat)
    requires f < |p| && p[f].Some?
  {
    var body := p[f].value;
    && (!body.role.Test? ==> forall i :: 0 <= i < |body.code| ==> !CallsOwner(p, body.code[i]))
    && (body.role.Export? && HasBegin(p, f) ==> PerformsDurable(p, f))
    && (if OwnsRegion(p, f) then WellFormedRegion(body.code, durable) else !HasBegin(p, f) && !HasCommit(p, f))
  }

  /** What each ownership row claims. */
  ghost predicate OwnershipHolds(p: Program, durable: seq<bool>, row: Row) {
    && row.f < |p| && p[row.f].Some?
    && var body := p[row.f].value;
       match row
       case OwnerCalled(_, at) => !body.role.Test? && at < |body.code| && CallsOwner(p, body.code[at])
       case EmptyRegion(f, at) =>
         body.role.Export? && HasBegin(p, f) && !PerformsDurable(p, f) && FirstMarker(body.code, at)
       case Region(f, v) => OwnsRegion(p, f) && ViolationHolds(body.code, durable, v)
       case Misplaced(f, at) => !OwnsRegion(p, f) && FirstMarker(body.code, at)
       case _ => false
  }

  ghost predicate OwnershipRows(p: Program, durable: seq<bool>, f: nat, rows: seq<Row>)
    requires f < |p| && p[f].Some?
  {
    && (forall i :: 0 <= i < |rows| ==> rows[i].f == f && OwnershipHolds(p, durable, rows[i]))
    && (rows == [] <==> OwnershipClean(p, durable, f))
    && var body := p[f].value;
       var calls := !body.role.Test? && exists i :: 0 <= i < |body.code| && CallsOwner(p, body.code[i]);
       if calls then
         forall i: nat :: i < |body.code| && CallsOwner(p, body.code[i]) ==> OwnerCalled(f, i) in rows
       else
         && |rows| <= 1
         && (body.role.Export? && HasBegin(p, f) && !PerformsDurable(p, f) ==> |rows| == 1 && rows[0].EmptyRegion?)
  }

  /** Every call site of a transaction owner, in tape order. */
  method ReportOwnerCalls(p: Program, f: nat) returns (rows: seq<Row>)
    requires f < |p| && p[f].Some?
    ensures forall row :: row in rows <==>
              row.OwnerCalled? && row.f == f && row.at < |p[f].value.code| && CallsOwner(p, p[f].value.code[row.at])
    ensures forall i, j :: 0 <= i < j < |rows| ==>
      rows[i].OwnerCalled? && rows[j].OwnerCalled? && rows[i].at < rows[j].at
  {
    var code := p[f].value.code;
    rows := [];
    for idx := 0 to |code|
      invariant forall row :: row in rows <==>
                  row.OwnerCalled? && row.f == f && row.at < idx && CallsOwner(p, code[row.at])
      invariant forall i :: 0 <= i < |rows| ==> rows[i] in rows
      invariant forall i, j :: 0 <= i < j < |rows| ==>
        rows[i].OwnerCalled? && rows[j].OwnerCalled? && rows[i].at < rows[j].at
    {
      if CallsOwner(p, code[idx]) {
        rows := rows + [OwnerCalled(f, idx)];
      }
    }
  }

  method ReportOwnership(p: Program, order: AcyclicCallOrder, mutates: seq<bool>, durable: seq<bool>, f: nat)
    returns (rows: seq<Row>)
    requires Settles(p, order, mutates, DirectMutation(p)) && Settles(p, order, durable, DirectDurable(p))
    requires f < |p| && p[f].Some? && order.Contains(f)
    ensures OwnershipRows(p, durable, f, rows)
  {
    var body := p[f].value;
    if !body.role.Test? {
      rows := ReportOwnerCalls(p, f);
      if rows != [] {
        assert rows[0] in rows;
        assert forall i :: 0 <= i < |rows| ==> rows[i] in rows;
        return;
      }
      forall i | 0 <= i < |body.code|
        ensures !CallsOwner(p, body.code[i])
      {
        assert OwnerCalled(f, i) !in rows;
      }
    }
    rows := [];
    if body.role.Export? && HasBegin(p, f) && !durable[f] {
      var at := FindMarker(body.code);
      rows := [EmptyRegion(f, at)];
    } else if body.role.Export? && (mutates[f] || HasBegin(p, f)) {
      var violation := OwnerLatticeViolation(body.code, durable);
      if violation.Some? {
        rows := [Region(f, violation.value)];
      }
    } else if HasBegin(p, f) || HasCommit(p, f) {
      var at := FindMarker(body.code);
      rows := [Misplaced(f, at)];
    }
  }

  /** The available functions that perform something durable, in any frame below them. */
  ghost function DurableMask(p: Program, order: AcyclicCallOrder): (mask: seq<bool>)
    ensures Settles(p, order, mask, DirectDurable(p))
  {
    seq(|p|, f requires 0 <= f < |p| => order.Contains(f) && PerformsDurable(p, f))
  }

  /** Ownership holds a body it does not skip to its laws, and reports nothing for the others. */
  ghost predicate OwnershipOf(p: Program, order: AcyclicCallOrder, unwrapped: seq<bool>, f: nat, own: seq<Row>)
    requires f < |p|
  {
    if p[f].Some? && order.Contains(f) && !(f < |unwrapped| && unwrapped[f])
    then OwnershipRows(p, DurableMask(p, order), f, own) else own == []
  }

  /** Hold every available body that drew no missing-transaction report to the ownership laws. */
  method RejectTransactionOwnership(p: Program, order: AcyclicCallOrder, unwrapped: seq<bool>) returns (rows: seq<Row>)
    requires IsOrderOf(CalleesOf(p), order)
    ensures ByFunction(rows, |p|)
    ensures forall f: nat :: f < |p| ==> OwnershipOf(p, order, unwrapped, f, RowsOf(rows, f))
  {
    SubrelationOrder(CalleesOf(p), order, Bodies(CalleesOf(p)));
    var mutates := Propagate(order, DirectMutation(p), Bodies(CalleesOf(p)));
    var durable := Propagate(order, DirectDurable(p), Bodies(CalleesOf(p)));
    assert durable == DurableMask(p, order);
    rows := [];
    for f := 0 to |p|
      invariant ByFunction(rows, f)
      invariant forall g: nat :: g < f ==> OwnershipOf(p, order, unwrapped, g, RowsOf(rows, g))
    {
      var mine := [];
      if p[f].Some? && order.Contains(f) && !(f < |unwrapped| && unwrapped[f]) {
        mine := ReportOwnership(p, order, mutates, durable, f);
      }
      NextRows(rows, mine, f);
      rows := rows + mine;
    }
  }
}
