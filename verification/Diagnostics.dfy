/**
 The diagnostic collector over the shared ceiling machine, and the terminal it finishes with.
 */
module Diagnostics {
  import opened Bounded

  const MAX_DIAGNOSTIC_COUNT: nat := 4096
  const MAX_DIAGNOSTIC_BYTES: nat := 1024 * 1024

  const DIAGNOSTIC_CEILING: Ceiling := Ceiling(MAX_DIAGNOSTIC_COUNT, MAX_DIAGNOSTIC_BYTES)

  /** A finalized row, with the owned bytes it retains. */
  datatype Row = Row(text: string, ownedBytes: U64)

  type BoundedDiagnostics = Terminal<Row>

  function RowBytes(rows: seq<Row>): nat {
    if rows == [] then 0 else RowBytes(rows[..|rows| - 1]) + rows[|rows| - 1].ownedBytes
  }

  lemma {:induction false} RowBytesAppend(a: seq<Row>, b: seq<Row>)
    ensures RowBytes(a + b) == RowBytes(a) + RowBytes(b)
  {
    if b == [] {
      assert a + b == a;
    } else {
      var n := |b| - 1;
      RowBytesAppend(a, b[..n]);
      assert (a + b)[..|a + b| - 1] == a + b[..n];
    }
  }

  /** The state of a collector that was given exactly `rows`. */
  function StateOf(rows: seq<Row>): State<Row> {
    Exact(DIAGNOSTIC_CEILING, (0, 0), |rows|, RowBytes(rows), rows)
  }

  function TerminalOf(rows: seq<Row>): BoundedDiagnostics {
    Seal(StateOf(rows))
  }

  class DiagnosticCollector {
    const owner: Bounded<Row>
    /** Every row ever handed over, directly or inside a finished terminal. */
    ghost var given: seq<Row>

    ghost predicate Valid()
      reads this, owner
    {
      owner.ceiling == DIAGNOSTIC_CEILING && owner.state == StateOf(given)
    }

    constructor ()
      ensures Valid() && given == [] && fresh(owner)
    {
      owner := new Bounded(DIAGNOSTIC_CEILING);
      given := [];
    }

    method Push(row: Row)
      requires Valid()
      modifies this, owner
      ensures Valid() && given == old(given) + [row]
    {
      hide Exact, Admitted;
      var one := Contribution(1, row.ownedBytes, [row]);
      AdmittedExact(DIAGNOSTIC_CEILING, (0, 0), |given|, RowBytes(given), given, one);
      assert (given + [row])[..|given|] == given;
      owner.Admit((0, 0), Contribution(1, row.ownedBytes, [row]));
      given := given + [row];
    }

    /** Merge the finished terminal of another collector: the same as pushing its rows. */
    method Absorb(finished: BoundedDiagnostics, ghost rows: seq<Row>)
      requires Valid() && finished == TerminalOf(rows)
      modifies this, owner
      ensures Valid() && given == old(given) + rows
    {
      hide RowBytes, Exact, Admitted, AbsorbedLimited;
      SealingIsHomomorphism(DIAGNOSTIC_CEILING, |given|, RowBytes(given), given, |rows|, RowBytes(rows), rows);
      RowBytesAppend(given, rows);
      match finished {
        case Complete(bytes, kept) => owner.Admit((0, 0), Contribution(|kept|, bytes, kept));
        case Overrun(count, bytes, limit) => owner.AbsorbLimited(count, bytes, limit);
      }
      given := given + rows;
    }

    method Finish() returns (t: BoundedDiagnostics)
      requires Valid()
      ensures t == TerminalOf(given)
    {
      t := Seal(owner.state);
    }
  }

  /** A finished collector is complete with every row exactly when both sums fit. */
  lemma FinishedMeans(rows: seq<Row>)
    ensures TerminalOf(rows).Complete? <==> |rows| <= 4096 && RowBytes(rows) <= 0x10_0000
    ensures TerminalOf(rows).Complete? ==> TerminalOf(rows).rows == rows && TerminalOf(rows).bytes == RowBytes(rows)
    ensures TerminalOf(rows).Overrun? ==> (TerminalOf(rows).limit.Count? <==> |rows| > 4096)
  {
  }

  /** A collector's terminal can be absorbed anywhere, and an empty one charges nothing. */
  lemma FinishedIsLawful(rows: seq<Row>)
    ensures Carries(TerminalOf(rows)) && (TerminalOf(rows).IsEmpty() ==> rows == [] && TerminalOf(rows).bytes == 0)
  {
    FinishedMeans(rows);
  }
}
