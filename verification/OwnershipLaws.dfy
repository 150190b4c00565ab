/**
 What the ownership passes hold a program to, in the program's own terms: bodies, calls, spans and
 instructions, without the passes' own masks and helper tests.
 */
module OwnershipLaws {
  import opened Paths
  import opened CallGraph
  import opened Tape
  import opened Ownership

  // ----- the relations

  /** A call is an entry of a present body's call list whose target is reserved. */
  lemma CallEdge(p: Program, u: nat, v: nat)
    ensures Edge(Bodies(CalleesOf(p)), u, v) <==> u < |p| && v < |p| && p[u].Some? && v in p[u].value.callees
  {
  }

  /** An unwrapped call is an entry of its list of unwrapped calls, at some span. */
  lemma UnwrappedEdge(p: Program, u: nat, v: nat)
    ensures Edge(UnwrappedGraph(p), u, v) <==>
            u < |p| && v < |p| && p[u].Some? && exists span :: (v, span) in p[u].value.unwrappedCalls
  {
    if Edge(UnwrappedGraph(p), u, v) {
      var calls := p[u].value.unwrappedCalls;
      var i :| 0 <= i < |calls| && Targets(calls)[i] == v;
      assert (v, calls[i].1) in calls;
    }
    if u < |p| && v < |p| && p[u].Some? && exists span :: (v, span) in p[u].value.unwrappedCalls {
      var span :| (v, span) in p[u].value.unwrappedCalls;
      var calls := p[u].value.unwrappedCalls;
      var i :| 0 <= i < |calls| && calls[i] == (v, span);
      assert Targets(calls)[i] == v;
    }
  }

  /** Body `w` holds instruction `instr`. */
  ghost predicate Holds(p: Program, w: nat, instr: Instr) {
    w < |p| && p[w].Some? && exists i :: 0 <= i < |p[w].value.code| && p[w].value.code[i] == instr
  }

  /** Some body `f` reaches by calls, itself included, mutates. */
  ghost predicate ReachesMutation(p: Program, f: nat) {
    exists w: nat :: Reaches(Bodies(CalleesOf(p)), f, w) && Holds(p, w, Durable(true))
  }

  /** Some body `f` reaches by calls, itself included, operates on the store. */
  ghost predicate ReachesStore(p: Program, f: nat) {
    exists w: nat :: Reaches(Bodies(CalleesOf(p)), f, w) && (Holds(p, w, Durable(true)) || Holds(p, w, Durable(false)))
  }

  /** Some body `f` reaches by unwrapped calls, itself included, writes outside every block. */
  ghost predicate ReachesUnwrappedMutation(p: Program, f: nat) {
    exists w: nat ::
      Reaches(UnwrappedGraph(p), f, w) && w < |p| && p[w].Some? && |p[w].value.unwrappedMutations| > 0
  }

  lemma ClosuresMean(p: Program, f: nat)
    ensures Mutates(p, f) <==> ReachesMutation(p, f)
    ensures PerformsDurable(p, f) <==> ReachesStore(p, f)
    ensures RequiresTransaction(p, f) <==> ReachesUnwrappedMutation(p, f)
  {
    forall w: nat | w < |p|
      ensures DirectMutation(p)[w] <==> Holds(p, w, Durable(true))
      ensures DirectDurable(p)[w] <==> Holds(p, w, Durable(true)) || Holds(p, w, Durable(false))
      ensures MutatesOutside(p)[w] <==> p[w].Some? && |p[w].value.unwrappedMutations| > 0
    {
    }
    if Mutates(p, f) {
      var w: nat :| w < |p| && DirectMutation(p)[w] && Reaches(Bodies(CalleesOf(p)), f, w);
    }
    if PerformsDurable(p, f) {
      var w: nat :| w < |p| && DirectDurable(p)[w] && Reaches(Bodies(CalleesOf(p)), f, w);
    }
    if RequiresTransaction(p, f) {
      var w: nat :| w < |p| && MutatesOutside(p)[w] && Reaches(UnwrappedGraph(p), f, w);
    }
  }

  // ----- missing transactions

  /** Main result: a body draws a missing-transaction report exactly when it is an export from which
      unwrapped calls lead to an unwrapped write, or a test one of whose unwrapped calls does. */
  lemma MissingIff(p: Program, f: nat)
    requires f < |p| && p[f].Some?
    ensures Missing(p, f) <==>
      || (p[f].value.role.Export? && ReachesUnwrappedMutation(p, f))
      || (p[f].value.role.Test? && exists c :: Edge(UnwrappedGraph(p), f, c) && ReachesUnwrappedMutation(p, c))
  {
    hide Missing, RequiresTransaction, ReachesUnwrappedMutation;
    MissingMeans(p, f);
    forall c: nat ensures RequiresTransaction(p, c) <==> ReachesUnwrappedMutation(p, c) { ClosuresMean(p, c); }
  }

  // ----- ownership

  /** `f` calls a body that holds a begin. */
  ghost predicate CallsAnOwner(p: Program, f: nat, i: nat)
    requires f < |p| && p[f].Some?
  {
    i < |p[f].value.code| && exists c: nat :: p[f].value.code[i] == Call(c) && Holds(p, c, TxnBegin)
  }

  /** Instruction `i` of `f` operates on the store, itself or in some body it reaches by its call. */
  ghost predicate OperatesOnStore(p: Program, order: AcyclicCallOrder, f: nat, i: nat)
    requires f < |p| && p[f].Some?
  {
    i < |p[f].value.code| &&
    var instr := p[f].value.code[i];
    || instr == Durable(true) || instr == Durable(false)
    || exists c: nat :: instr == Call(c) && c < |p| && order.Contains(c) && ReachesStore(p, c)
  }

  /** The region of `f` is lawful on every path. */
  ghost predicate LawfulRegion(p: Program, order: AcyclicCallOrder, f: nat)
    requires f < |p| && p[f].Some?
  {
    var code := p[f].value.code;
    && PathsAgree(code) && BeginsOnce(code) && ReturnsClosed(code)
    && forall i: nat, a :: Enters(code, i, a) && a.AfterCommit? ==> !OperatesOnStore(p, order, f, i)
  }

  lemma StoreMeans(p: Program, order: AcyclicCallOrder, f: nat, i: nat)
    requires f < |p| && p[f].Some?
    ensures TouchesStore(p[f].value.code, DurableMask(p, order), i) <==> OperatesOnStore(p, order, f, i)
  {
    hide PerformsDurable, ReachesStore;
    forall c: nat | c < |p| ensures DurableMask(p, order)[c] <==> order.Contains(c) && ReachesStore(p, c) {
      ClosuresMean(p, c);
    }
  }

  lemma RegionMeans(p: Program, order: AcyclicCallOrder, f: nat)
    requires f < |p| && p[f].Some?
    ensures WellFormedRegion(p[f].value.code, DurableMask(p, order)) <==> LawfulRegion(p, order, f)
  {
    hide PathsAgree, BeginsOnce, ReturnsClosed, TouchesStore, OperatesOnStore;
    var code, mask := p[f].value.code, DurableMask(p, order);
    forall i: nat ensures TouchesStore(code, mask, i) <==> OperatesOnStore(p, order, f, i) {
      StoreMeans(p, order, f, i);
    }
  }

  lemma MarkersMean(p: Program, f: nat)
    ensures HasBegin(p, f) <==> Holds(p, f, TxnBegin)
    ensures HasCommit(p, f) <==> Holds(p, f, TxnCommit)
  {
  }

  /** Main result: the ownership pass leaves a body alone exactly when it calls no transaction owner,
      unless it is a test; a region it opens has store work; its region, if it owns or needs one, is
      lawful on every path; and otherwise it holds no marker. */
  lemma CleanIff(p: Program, order: AcyclicCallOrder, f: nat)
    requires f < |p| && p[f].Some?
    ensures OwnershipClean(p, DurableMask(p, order), f) <==>
      var role := p[f].value.role;
      && (!role.Test? ==> forall i: nat :: !CallsAnOwner(p, f, i))
      && (role.Export? && Holds(p, f, TxnBegin) ==> ReachesStore(p, f))
      && (if role.Export? && (ReachesMutation(p, f) || Holds(p, f, TxnBegin)) then LawfulRegion(p, order, f)
          else !Holds(p, f, TxnBegin) && !Holds(p, f, TxnCommit))
  {
    hide WellFormedRegion, LawfulRegion, ReachesMutation, ReachesStore, Mutates, PerformsDurable, Holds, HasBegin,
         HasCommit;
    RegionMeans(p, order, f);
    ClosuresMean(p, f);
    MarkersMean(p, f);
    forall i: nat | i < |p[f].value.code| ensures CallsOwner(p, p[f].value.code[i]) <==> CallsAnOwner(p, f, i) {
      OwnerCallMeans(p, f, i);
    }
  }

  lemma OwnerCallMeans(p: Program, f: nat, i: nat)
    requires f < |p| && p[f].Some? && i < |p[f].value.code|
    ensures CallsOwner(p, p[f].value.code[i]) <==> CallsAnOwner(p, f, i)
  {
    hide Holds, HasBegin;
    if p[f].value.code[i].Call? { MarkersMean(p, p[f].value.code[i].callee); }
  }

  /** What each ownership row says of the program. */
  ghost predicate RowSays(p: Program, order: AcyclicCallOrder, row: Row) {
    && row.f < |p| && p[row.f].Some?
    && var body := p[row.f].value;
       match row
       case OwnerCalled(f, at) => !body.role.Test? && CallsAnOwner(p, f, at)
       case EmptyRegion(f, at) =>
         body.role.Export? && Holds(p, f, TxnBegin) && !ReachesStore(p, f) && FirstMarker(body.code, at)
       case Misplaced(f, at) =>
         FirstMarker(body.code, at) && !(body.role.Export? && (ReachesMutation(p, f) || Holds(p, f, TxnBegin)))
       case Region(f, v) =>
         && body.role.Export? && (ReachesMutation(p, f) || Holds(p, f, TxnBegin)) && !LawfulRegion(p, order, f)
         && (v.code.DurableAfterCommit? ==>
               OperatesOnStore(p, order, f, v.at) && exists a :: Enters(body.code, v.at, a) && a.AfterCommit?)
       case _ => false
  }

  /** Main result: every ownership row is true of the program. */
  lemma RowHolds(p: Program, order: AcyclicCallOrder, row: Row)
    requires OwnershipHolds(p, DurableMask(p, order), row)
    ensures RowSays(p, order, row)
  {
    hide LawfulRegion, ReachesMutation, ReachesStore, Mutates, PerformsDurable, Holds, HasBegin, HasCommit,
         WellFormedRegion,
         OperatesOnStore, TouchesStore, FirstMarker, CallsOwner, CallsAnOwner;
    var f := row.f;
    ClosuresMean(p, f);
    MarkersMean(p, f);
    if row.OwnerCalled? { OwnerCallMeans(p, f, row.at); }
    if row.Region? {
      RegionMeans(p, order, f);
      ViolationRefutes(p[f].value.code, DurableMask(p, order), row.violation);
      StoreMeans(p, order, f, row.violation.at);
    }
  }
}
