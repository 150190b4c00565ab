/**
 Joining the stage terminals of one compilation: the production join reports the first
 stage that found something, the analysis join reports the union of them all.
 */
module Stages {
  import opened Bounded
  import opened Diagnostics

  datatype ResourceLimit = FromDiagnostics(limit: Limit) | FromSemantics(kind: nat)

  datatype Cause = Coherence(cause: nat) | EmptyDiagnostics(stage: nat)

  /** What the semantic pass ended with. */
  datatype SemanticOutcome =
    | SemanticInvariant(cause: nat)
    | SemanticRows(terminal: BoundedDiagnostics, stage: nat)
    | SemanticChecked(program: nat)
    | SemanticLimit(limit: nat)

  datatype StageJoin = First | Union

  datatype Analyzed =
    | Invariant(cause: Cause)
    | Rejected(rows: seq<Row>)
    | Checked(program: nat)
    | OverLimit(limit: ResourceLimit)

  /** What stands beside an empty complete terminal. */
  datatype Beside = ProgramBeside(program: nat) | EmptyBeside(stage: nat) | StoppedBeside(limit: nat)

  ghost predicate CarryAll(stages: seq<BoundedDiagnostics>) {
    forall i :: 0 <= i < |stages| ==> Carries(stages[i])
  }

  /** The state of a fresh collector after absorbing `stages` in order. */
  ghost function JoinedState(stages: seq<BoundedDiagnostics>): State<Row>
    requires CarryAll(stages)
  {
    if stages == [] then Retaining(0, 0, [])
    else Absorbed(DIAGNOSTIC_CEILING, JoinedState(stages[..|stages| - 1]), stages[|stages| - 1])
  }

  ghost function FirstFound(stages: seq<BoundedDiagnostics>): BoundedDiagnostics {
    if stages == [] then Complete(0, [])
    else if !stages[0].IsEmpty() then stages[0]
    else FirstFound(stages[1..])
  }

  function StagesOf(parse: BoundedDiagnostics, structural: BoundedDiagnostics,
                    semantic: SemanticOutcome): seq<BoundedDiagnostics> {
    [parse, structural] + (if semantic.SemanticRows? then [semantic.terminal] else [])
  }

  /** The verdict a joined terminal and what stands beside it give. */
  function Verdict(terminal: BoundedDiagnostics, beside: Beside): Analyzed {
    match terminal
    case Overrun(_, _, limit) => OverLimit(FromDiagnostics(limit))
    case Complete(_, rows) =>
      if rows != [] then Rejected(rows)
      else
        match beside
        case ProgramBeside(program) => Checked(program)
        case EmptyBeside(stage) => Invariant(EmptyDiagnostics(stage))
        case StoppedBeside(limit) => OverLimit(FromSemantics(limit))
  }

  function BesideOf(semantic: SemanticOutcome): Beside
    requires !semantic.SemanticInvariant?
  {
    match semantic
    case SemanticRows(_, stage) => EmptyBeside(stage)
    case SemanticChecked(program) => ProgramBeside(program)
    case SemanticLimit(limit) => StoppedBeside(limit)
  }

  /** What `ResolveStages` decides. */
  ghost function Resolved(parse: BoundedDiagnostics, structural: BoundedDiagnostics, semantic: SemanticOutcome,
                          join: StageJoin): Analyzed
    requires CarryAll(StagesOf(parse, structural, semantic))
  {
    if semantic.SemanticInvariant? then Invariant(Coherence(semantic.cause))
    else if semantic.SemanticLimit? && parse.IsEmpty() && structural.IsEmpty()
    then OverLimit(FromSemantics(semantic.limit))
    else
      var stages := StagesOf(parse, structural, semantic);
      Verdict(if join.First? then FirstFound(stages) else Seal(JoinedState(stages)), BesideOf(semantic))
  }

  /** Resolve the stage terminals under Invariant > Diagnostics > ResourceLimit. */
  method ResolveStages(parse: BoundedDiagnostics, structural: BoundedDiagnostics, semantic: SemanticOutcome,
                       join: StageJoin)
    returns (r: Analyzed)
    requires CarryAll(StagesOf(parse, structural, semantic))
    ensures r == Resolved(parse, structural, semantic, join)
  {
    var precheckPresent := !parse.IsEmpty() || !structural.IsEmpty();
    if semantic.SemanticInvariant? {
      return Invariant(Coherence(semantic.cause));
    }
    if semantic.SemanticLimit? && !precheckPresent {
      return OverLimit(FromSemantics(semantic.limit));
    }
    var stages := StagesOf(parse, structural, semantic);
    var terminal;
    match join {
      case First => terminal := FindFirst(stages);
      case Union => terminal := AbsorbAll(stages);
    }
    r := Verdict(terminal, BesideOf(semantic));
  }

  method FindFirst(stages: seq<BoundedDiagnostics>) returns (t: BoundedDiagnostics)
    ensures t == FirstFound(stages)
  {
    for i := 0 to |stages|
      invariant FirstFound(stages) == FirstFound(stages[i..])
    {
      if !stages[i].IsEmpty() {
        return stages[i];
      }
    }
    t := Complete(0, []);
  }

  method AbsorbAll(stages: seq<BoundedDiagnostics>) returns (t: BoundedDiagnostics)
    requires CarryAll(stages)
    ensures t == Seal(JoinedState(stages))
  {
    var owner := new Bounded<Row>(DIAGNOSTIC_CEILING);
    for i := 0 to |stages|
      invariant fresh(owner) && owner.ceiling == DIAGNOSTIC_CEILING
      invariant owner.state == JoinedState(stages[..i])
    {
      assert stages[..i + 1][..i] == stages[..i];
      match stages[i] {
        case Complete(bytes, rows) => owner.Admit((0, 0), Contribution(|rows|, bytes, rows));
        case Overrun(count, bytes, limit) => owner.AbsorbLimited(count, bytes, limit);
      }
    }
    assert stages[..|stages|] == stages;
    t := Seal(owner.state);
  }

  // ----- what the union reports

  /** The rows of every stage, in order. */
  ghost function AllRows(given: seq<seq<Row>>): seq<Row> {
    if given == [] then [] else AllRows(given[..|given| - 1]) + given[|given| - 1]
  }

  /** The stages are the finished terminals of collectors given these rows. */
  ghost predicate FinishedFrom(stages: seq<BoundedDiagnostics>, given: seq<seq<Row>>) {
    |stages| == |given| && forall i :: 0 <= i < |stages| ==> stages[i] == TerminalOf(given[i])
  }

  /** The union of finished stages is the terminal of one collector given all their rows, whether
      each stage, none or only their union overran. */
  lemma {:induction false} UnionReports(stages: seq<BoundedDiagnostics>, given: seq<seq<Row>>)
    requires FinishedFrom(stages, given)
    ensures CarryAll(stages) && JoinedState(stages) == StateOf(AllRows(given))
    ensures Seal(JoinedState(stages)) == TerminalOf(AllRows(given))
    decreases |stages|
  {
    forall i | 0 <= i < |stages| ensures Carries(stages[i]) { FinishedIsLawful(given[i]); }
    if stages != [] {
      var n := |stages| - 1;
      UnionReports(stages[..n], given[..n]);
      var before, rows := AllRows(given[..n]), given[n];
      RowBytesAppend(before, rows);
      SealingIsHomomorphism(DIAGNOSTIC_CEILING, |before|, RowBytes(before), before, |rows|, RowBytes(rows), rows);
    }
  }

  // ----- the verdict, from the rows themselves

  /** The rows fit one collector. */
  ghost predicate RowsFit(rows: seq<Row>) { |rows| <= 4096 && RowBytes(rows) <= 1048576 }

  /** The rows a join looks at: all of them in stage order, or those of the first stage with any. */
  ghost function Found(parse: seq<Row>, structural: seq<Row>, semantic: seq<Row>, join: StageJoin): seq<Row> {
    if join.Union? then parse + structural + semantic
    else if parse != [] then parse
    else if structural != [] then structural
    else semantic
  }

  /** Main result: what the stages' rows and the semantic outcome decide. An invariant always wins;
      rows found are reported if they fit and are the limit if they do not; with none found the
      outcome itself speaks. */
  lemma VerdictMeans(parse: seq<Row>, structural: seq<Row>, semantic: SemanticOutcome, rows: seq<Row>, join: StageJoin)
    requires if semantic.SemanticRows? then semantic.terminal == TerminalOf(rows) else rows == []
    ensures CarryAll(StagesOf(TerminalOf(parse), TerminalOf(structural), semantic))
    ensures Resolved(TerminalOf(parse), TerminalOf(structural), semantic, join) ==
      var found := Found(parse, structural, rows, join);
      if semantic.SemanticInvariant? then Invariant(Coherence(semantic.cause))
      else if found != [] && RowsFit(found) then Rejected(found)
      else if found != [] then OverLimit(FromDiagnostics(if |found| > 4096 then Count else OwnedBytes))
      else match semantic
           case SemanticRows(_, stage) => Invariant(EmptyDiagnostics(stage))
           case SemanticChecked(program) => Checked(program)
           case SemanticLimit(limit) => OverLimit(FromSemantics(limit))
  {
    assert RowBytes([]) == 0;
    hide TerminalOf, FirstFound, JoinedState, RowBytes;
    var found := Found(parse, structural, rows, join);
    JoinFinds(parse, structural, semantic, rows, join);
    FinishedMeans(parse);
    FinishedMeans(structural);
    FinishedMeans(found);
  }

  /** Either join ends in the terminal of the rows it looks at. */
  lemma JoinFinds(parse: seq<Row>, structural: seq<Row>, semantic: SemanticOutcome, rows: seq<Row>, join: StageJoin)
    requires if semantic.SemanticRows? then semantic.terminal == TerminalOf(rows) else rows == []
    ensures var stages := StagesOf(TerminalOf(parse), TerminalOf(structural), semantic);
      && CarryAll(stages)
      && (if join.First? then FirstFound(stages) else Seal(JoinedState(stages))) ==
         TerminalOf(Found(parse, structural, rows, join))
  {
    var stages := StagesOf(TerminalOf(parse), TerminalOf(structural), semantic);
    var given := [parse, structural] + (if semantic.SemanticRows? then [rows] else []);
    assert FinishedFrom(stages, given);
    UnionReports(stages, given);
    if join.First? {
      assert TerminalOf([]) == Complete(0, []);
      FinishedMeans(parse);
      FinishedMeans(structural);
      FinishedMeans(rows);
      hide FirstFound, TerminalOf, RowBytes;
      FirstOfStages(TerminalOf(parse), TerminalOf(structural), semantic);
    } else {
      GivenRows(parse, structural, rows, semantic.SemanticRows?);
    }
  }

  lemma GivenRows(parse: seq<Row>, structural: seq<Row>, rows: seq<Row>, three: bool)
    requires !three ==> rows == []
    ensures AllRows([parse, structural] + (if three then [rows] else [])) == parse + structural + rows
  {
    var two := [parse, structural];
    assert two[..1] == [parse] && [parse][..0] == [];
    assert AllRows([parse]) == [] + parse;
    assert AllRows(two) == parse + structural;
    if three { assert (two + [rows])[..2] == two; } else { assert two + [] == two; }
  }

  lemma FirstOfStages(parse: BoundedDiagnostics, structural: BoundedDiagnostics, semantic: SemanticOutcome)
    ensures FirstFound(StagesOf(parse, structural, semantic)) ==
      if !parse.IsEmpty() then parse
      else if !structural.IsEmpty() then structural
      else if semantic.SemanticRows? && !semantic.terminal.IsEmpty() then semantic.terminal
      else Complete(0, [])
  {
    var stages := StagesOf(parse, structural, semantic);
    assert stages[0] == parse && stages[1..][0] == structural;
    var last := if semantic.SemanticRows? then [semantic.terminal] else [];
    assert stages[1..][1..] == last;
    if semantic.SemanticRows? { assert last[1..] == []; }
    assert FirstFound(last) ==
      if semantic.SemanticRows? && !semantic.terminal.IsEmpty() then semantic.terminal else Complete(0, []);
    assert FirstFound(stages[1..]) == if !structural.IsEmpty() then structural else FirstFound(last);
  }

  // ----- the two joins agree

  ghost predicate AllEmpty(stages: seq<BoundedDiagnostics>) {
    forall i :: 0 <= i < |stages| ==> stages[i].IsEmpty()
  }

  /** Empty rows charge nothing, as every finished collector guarantees. */
  ghost predicate ChargedByRows(stages: seq<BoundedDiagnostics>) {
    forall i :: 0 <= i < |stages| && stages[i].IsEmpty() ==> stages[i].bytes == 0
  }

  /** What the union retains: the rows of every stage in order, unless one overran. */
  lemma {:induction false} UnionKeeps(stages: seq<BoundedDiagnostics>)
    requires CarryAll(stages) && ChargedByRows(stages)
    ensures AllEmpty(stages) ==> JoinedState(stages) == Retaining(0, 0, [])
    ensures JoinedState(stages).Retaining? ==>
      && (forall i :: 0 <= i < |stages| ==> stages[i].Complete?)
      && FirstFound(stages).Complete? && FirstFound(stages).rows <= JoinedState(stages).payload
      && (FirstFound(stages).rows == [] <==> JoinedState(stages).payload == [])
    ensures FirstFound(stages).IsEmpty() <==> AllEmpty(stages)
    decreases |stages|
  {
    if stages != [] {
      var n := |stages| - 1;
      var front, last := stages[..n], stages[n];
      UnionKeeps(front);
      FirstFoundSnoc(front, last);
      assert front + [last] == stages;
      assert AllEmpty(stages) <==> AllEmpty(front) && last.IsEmpty();
    }
  }

  lemma {:induction false} FirstFoundSnoc(front: seq<BoundedDiagnostics>, last: BoundedDiagnostics)
    ensures FirstFound(front + [last]) ==
            if !FirstFound(front).IsEmpty() then FirstFound(front) else if last.IsEmpty() then Complete(0, []) else last
    ensures FirstFound(front).IsEmpty() ==> FirstFound(front) == Complete(0, [])
    decreases |front|
  {
    if front == [] {
      assert front + [last] == [last];
      assert [last][1..] == [];
    } else {
      assert (front + [last])[1..] == front[1..] + [last];
      FirstFoundSnoc(front[1..], last);
    }
  }

  /**
   The joins give Checked on the same inputs and Invariant on the same inputs; a First limit
   is a Union limit; a Union rejection starts with a non-empty First rejection; and a semantic
   stop beneath a precheck finding is never what is reported.
   */
  lemma JoinsAgree(parse: BoundedDiagnostics, structural: BoundedDiagnostics, semantic: SemanticOutcome)
    requires CarryAll(StagesOf(parse, structural, semantic)) && ChargedByRows(StagesOf(parse, structural, semantic))
    ensures
      var first := Resolved(parse, structural, semantic, First);
      var union := Resolved(parse, structural, semantic, Union);
      && (first.Checked? <==> union.Checked?) && (first.Checked? ==> first == union)
      && (first.Invariant? <==> union.Invariant?) && (first.Invariant? ==> first == union)
      && (first.OverLimit? ==> union.OverLimit?)
      && (union.Rejected? ==> first.Rejected? && first.rows != [] && first.rows <= union.rows)
      && (forall join :: semantic.SemanticLimit? && !(parse.IsEmpty() && structural.IsEmpty()) ==>
            Resolved(parse, structural, semantic, join) != OverLimit(FromSemantics(semantic.limit)))
  {
    hide JoinedState;
    var stages := StagesOf(parse, structural, semantic);
    UnionKeeps(stages);
    assert stages[0] == parse && stages[1] == structural;
  }
}
