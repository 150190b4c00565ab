/**
 The count-and-bytes ceiling machine every bounded owner is built on.
 */
module Bounded {
  import opened Wrappers

  const U64_MAX: nat := 0xFFFF_FFFF_FFFF_FFFF

  type U64 = n: nat | n <= U64_MAX

  function SaturatingAdd(a: U64, b: U64): U64 {
    if a + b <= U64_MAX then a + b else U64_MAX
  }

  function Min(a: nat, b: nat): nat { if a <= b then a else b }

  datatype Limit = Count | OwnedBytes

  /** Both ceilings, each with room for its one-past value. */
  datatype Ceiling = Ceiling(maxCount: nat, maxBytes: nat) {
    predicate Fits() { maxCount < U64_MAX && maxBytes < U64_MAX }
  }

  datatype State<T> =
    | Retaining(count: U64, bytes: U64, payload: seq<T>)
    | Limited(count: U64, bytes: U64, limit: Limit)
  {
    function Totals(): (U64, U64) { (count, bytes) }
  }

  /** One contribution: what it charges and what it would retain. */
  datatype Contribution<T> = Contribution(count: U64, bytes: U64, rows: seq<T>)

  /** Classify a composed total, count taking precedence. */
  function Crossed(c: Ceiling, count: nat, bytes: nat): Option<Limit> {
    if count > c.maxCount then Some(Count) else if bytes > c.maxBytes then Some(OwnedBytes) else None
  }

  function Saturated<T>(c: Ceiling, count: nat, bytes: nat, limit: Limit): State<T>
    requires c.Fits()
  {
    Limited(Min(count, c.maxCount + 1), Min(bytes, c.maxBytes + 1), limit)
  }

  class Bounded<T> {
    const ceiling: Ceiling
    var state: State<T>

    constructor (ceiling: Ceiling)
      ensures this.ceiling == ceiling && state == Retaining(0, 0, [])
    {
      this.ceiling := ceiling;
      state := Retaining(0, 0, []);
    }

    /** Admit one contribution over `base`, a settled ledger's totals or zero. */
    method Admit(base: (U64, U64), added: Contribution<T>)
      requires ceiling.Fits()
      modifies this
      ensures state == Admitted(ceiling, old(state), base, added)
    {
      match state
      case Retaining(count, bytes, payload) =>
        var newCount := SaturatingAdd(count, added.count);
        var newBytes := SaturatingAdd(bytes, added.bytes);
        var crossed := Crossed(ceiling, SaturatingAdd(base.0, newCount), SaturatingAdd(base.1, newBytes));
        if crossed.Some? {
          state := Saturated(ceiling, newCount, newBytes, crossed.value);
        } else {
          state := Retaining(newCount, newBytes, payload + added.rows);
        }
      case Limited(count, bytes, limit) =>
        var newCount := Min(SaturatingAdd(count, added.count), ceiling.maxCount + 1);
        var newBytes := Min(SaturatingAdd(bytes, added.bytes), ceiling.maxBytes + 1);
        var newLimit := limit;
        if limit.OwnedBytes? && SaturatingAdd(base.0, newCount) > ceiling.maxCount {
          newLimit := Count;
        }
        state := Limited(newCount, newBytes, newLimit);
    }

    /** Compose a contribution whose payload a crossing already destroyed. */
    method AbsorbLimited(count: U64, bytes: U64, inherited: Limit)
      requires ceiling.Fits()
      modifies this
      ensures state == AbsorbedLimited(ceiling, old(state), count, bytes, inherited)
      ensures state.Limited?
    {
      if state.Retaining? {
        var newCount := SaturatingAdd(state.count, count);
        var newBytes := SaturatingAdd(state.bytes, bytes);
        var crossed := Crossed(ceiling, newCount, newBytes);
        state := Saturated(ceiling, newCount, newBytes, if crossed.Some? then crossed.value else inherited);
      } else {
        Admit((0, 0), Contribution(count, bytes, []));
      }
    }
  }

  function Admitted<T>(c: Ceiling, s: State<T>, base: (U64, U64), added: Contribution<T>): State<T>
    requires c.Fits()
  {
    var count, bytes := SaturatingAdd(s.count, added.count), SaturatingAdd(s.bytes, added.bytes);
    match s
    case Retaining(_, _, payload) =>
      (match Crossed(c, SaturatingAdd(base.0, count), SaturatingAdd(base.1, bytes))
       case Some(limit) => Saturated(c, count, bytes, limit)
       case None => Retaining(count, bytes, payload + added.rows))
    case Limited(_, _, limit) =>
      Saturated(c, count, bytes,
        if limit.OwnedBytes? && SaturatingAdd(base.0, Min(count, c.maxCount + 1)) > c.maxCount then Count else limit)
  }

  function AbsorbedLimited<T>(c: Ceiling, s: State<T>, count: U64, bytes: U64, inherited: Limit): State<T>
    requires c.Fits()
  {
    if s.Limited? then Admitted(c, s, (0, 0), Contribution(count, bytes, []))
    else
      var newCount, newBytes := SaturatingAdd(s.count, count), SaturatingAdd(s.bytes, bytes);
      var crossed := Crossed(c, newCount, newBytes);
      Saturated(c, newCount, newBytes, if crossed.Some? then crossed.value else inherited)
  }

  // ----- the exact totals decide everything

  /** The state that exact totals determine: everything retained while both sums fit over
      `base`, otherwise totals cut one past the ceiling and Count exactly when the count crossed. */
  function Exact<T>(c: Ceiling, base: (U64, U64), count: nat, bytes: nat, rows: seq<T>): State<T>
    requires c.Fits()
  {
    if base.0 + count <= c.maxCount && base.1 + bytes <= c.maxBytes then Retaining(count, bytes, rows)
    else
      Limited(if count <= c.maxCount then count else c.maxCount + 1,
              if bytes <= c.maxBytes then bytes else c.maxBytes + 1,
              if base.0 + count > c.maxCount then Count else OwnedBytes)
  }

  lemma AdmittedExact<T>(c: Ceiling, base: (U64, U64), count: nat, bytes: nat, rows: seq<T>, added: Contribution<T>)
    requires c.Fits()
    ensures Admitted(c, Exact(c, base, count, bytes, rows), base, added) ==
            Exact(c, base, count + added.count, bytes + added.bytes, rows + added.rows)
  {
  }

  function Run<T>(c: Ceiling, s: State<T>, base: (U64, U64), added: seq<Contribution<T>>): State<T>
    requires c.Fits()
    decreases |added|
  {
    if added == [] then s else Run(c, Admitted(c, s, base, added[0]), base, added[1..])
  }

  function CountSum<T>(added: seq<Contribution<T>>): nat {
    if added == [] then 0 else added[0].count + CountSum(added[1..])
  }

  function ByteSum<T>(added: seq<Contribution<T>>): nat {
    if added == [] then 0 else added[0].bytes + ByteSum(added[1..])
  }

  function RowSum<T>(added: seq<Contribution<T>>): seq<T> {
    if added == [] then [] else added[0].rows + RowSum(added[1..])
  }

  /** After any admissions, the state is the one their exact totals determine. */
  lemma {:induction false} RunExact<T>(c: Ceiling, base: (U64, U64), count: nat, bytes: nat, rows: seq<T>,
                                       added: seq<Contribution<T>>)
    requires c.Fits()
    ensures Run(c, Exact(c, base, count, bytes, rows), base, added) ==
            Exact(c, base, count + CountSum(added), bytes + ByteSum(added), rows + RowSum(added))
    decreases |added|
  {
    hide Admitted, Exact;
    if added == [] {
      assert rows + [] == rows;
    } else {
      var first, rest := added[0], added[1..];
      AdmittedExact(c, base, count, bytes, rows, first);
      RunExact(c, base, count + first.count, bytes + first.bytes, rows + first.rows, rest);
      assert rows + (first.rows + RowSum(rest)) == (rows + first.rows) + RowSum(rest);
    }
  }

  /** Batching does not matter, and once over a ceiling neither does order. */
  lemma OrderAndBatching<T>(c: Ceiling, base: (U64, U64), a: seq<Contribution<T>>, b: seq<Contribution<T>>)
    requires c.Fits() && base.0 <= c.maxCount && base.1 <= c.maxBytes
    requires CountSum(a) == CountSum(b) && ByteSum(a) == ByteSum(b)
    ensures var start: State<T> := Retaining(0, 0, []);
      && (RowSum(a) == RowSum(b) ==> Run(c, start, base, a) == Run(c, start, base, b))
      && (Run(c, start, base, a).Limited? ==> Run(c, start, base, a) == Run(c, start, base, b))
  {
    hide Run, Admitted, CountSum, ByteSum, RowSum;
    RunExact(c, base, 0, 0, [], a);
    RunExact(c, base, 0, 0, [], b);
    assert [] + RowSum(a) == RowSum(a) && [] + RowSum(b) == RowSum(b);
  }

  // ----- sealing

  /** The finished terminal of an owner. */
  datatype Terminal<T> =
    | Complete(bytes: nat, rows: seq<T>)
    | Overrun(count: nat, bytes: nat, limit: Limit)
  {
    /** An overrun is never empty: its limit displaced at least one row. */
    predicate IsEmpty() { Complete? && rows == [] }
  }

  function Seal<T>(s: State<T>): Terminal<T> {
    match s
    case Retaining(_, bytes, payload) => Complete(bytes, payload)
    case Limited(count, bytes, limit) => Overrun(count, bytes, limit)
  }

  predicate Carries<T>(t: Terminal<T>) {
    t.bytes <= U64_MAX && (if t.Complete? then |t.rows| <= U64_MAX else t.count <= U64_MAX)
  }

  function Absorbed<T>(c: Ceiling, s: State<T>, t: Terminal<T>): State<T>
    requires c.Fits() && Carries(t)
  {
    match t
    case Complete(bytes, rows) => Admitted(c, s, (0, 0), Contribution(|rows|, bytes, rows))
    case Overrun(count, bytes, limit) => AbsorbedLimited(c, s, count, bytes, limit)
  }

  /** Absorbing a finished terminal is admitting everything it was finished from. */
  lemma SealingIsHomomorphism<T>(c: Ceiling, count: nat, bytes: nat, rows: seq<T>, count': nat, bytes': nat,
                                 rows': seq<T>)
    requires c.Fits() && |rows'| == count'
    ensures Carries(Seal(Exact(c, (0, 0), count', bytes', rows')))
    ensures Absorbed(c, Exact(c, (0, 0), count, bytes, rows), Seal(Exact(c, (0, 0), count', bytes', rows'))) ==
            Exact(c, (0, 0), count + count', bytes + bytes', rows + rows')
  {
  }

  // ----- staging over a settled ledger

  /** What a staging owner releases into its ledger. */
  function Released<T>(staged: State<T>): Contribution<T> {
    Contribution(staged.count, staged.bytes, if staged.Retaining? then staged.payload else [])
  }

  lemma SettleExact<T>(c: Ceiling, count: nat, bytes: nat, rows: seq<T>, count': nat, bytes': nat, rows': seq<T>)
    requires c.Fits() && count <= c.maxCount && bytes <= c.maxBytes
    ensures Admitted(c, Exact(c, (0, 0), count, bytes, rows), (0, 0),
                     Released(Exact(c, (count as U64, bytes as U64), count', bytes', rows'))) ==
            Exact(c, (0, 0), count + count', bytes + bytes', rows + rows')
  {
  }

  lemma SettleOver<T>(c: Ceiling, count: nat, bytes: nat, rows: seq<T>, staged: State<T>, count': nat, bytes': nat,
                      rows': seq<T>)
    requires c.Fits() && Exact(c, (0, 0), count, bytes, rows).Limited?
    requires staged.count == Min(count', c.maxCount + 1) && staged.bytes == Min(bytes', c.maxBytes + 1)
    ensures Admitted(c, Exact(c, (0, 0), count, bytes, rows), (0, 0), Released(staged)) ==
            Exact(c, (0, 0), count + count', bytes + bytes', rows + rows')
  {
  }

  /** Staging over a ledger's totals and then settling reaches the ledger's own verdict. */
  lemma StagingSettles<T>(c: Ceiling, count: nat, bytes: nat, rows: seq<T>, added: seq<Contribution<T>>)
    requires c.Fits()
    ensures
      var ledger := Exact(c, (0, 0), count, bytes, rows);
      var staged := Run(c, Retaining(0, 0, []), ledger.Totals(), added);
      var settled := Admitted(c, ledger, (0, 0), Released(staged));
      && settled == Run(c, ledger, (0, 0), added)
      && (ledger.Retaining? ==> (staged.Limited? <==> settled.Limited?))
      && (ledger.Retaining? && staged.Limited? ==> staged.limit == settled.limit)
  {
    hide Run, CountSum, ByteSum, RowSum, Admitted, Released;
    var ledger := Exact(c, (0, 0), count, bytes, rows);
    RunExact(c, (0, 0), count, bytes, rows, added);
    if ledger.Retaining? {
      RunExact(c, ledger.Totals(), 0, 0, [], added);
      assert [] + RowSum(added) == RowSum(added);
      SettleExact(c, count, bytes, rows, CountSum(added), ByteSum(added), RowSum(added));
    } else {
      StagedOverLimited<T>(c, ledger.Totals(), added);
      var staged := Run(c, Retaining(0, 0, []), ledger.Totals(), added);
      SettleOver(c, count, bytes, rows, staged, CountSum(added), ByteSum(added), RowSum(added));
    }
  }

  lemma {:induction false} StagedSaturates<T>(c: Ceiling, base: (U64, U64), s: State<T>, added: seq<Contribution<T>>)
    requires c.Fits() && s.Limited? && s.count <= c.maxCount + 1 && s.bytes <= c.maxBytes + 1
    ensures var t := Run(c, s, base, added);
      && t.Limited? && t.count == Min(s.count + CountSum(added), c.maxCount + 1)
      && t.bytes == Min(s.bytes + ByteSum(added), c.maxBytes + 1)
    decreases |added|
  {
    if added != [] {
      StagedSaturates(c, base, Admitted(c, s, base, added[0]), added[1..]);
    }
  }

  lemma StagedSums<T>(added: seq<Contribution<T>>)
    ensures added == [] ==> CountSum(added) == 0 && ByteSum(added) == 0
    ensures added != [] ==> CountSum(added) == added[0].count + CountSum(added[1..])
    ensures added != [] ==> ByteSum(added) == added[0].bytes + ByteSum(added[1..])
  {
  }

  /** Over a limited ledger every contribution is limited at once, and its totals still count. */
  lemma StagedOverLimited<T>(c: Ceiling, base: (U64, U64), added: seq<Contribution<T>>)
    requires c.Fits() && (base.0 > c.maxCount || base.1 > c.maxBytes)
    ensures var t := Run(c, State<T>.Retaining(0, 0, []), base, added);
      && t.count == Min(CountSum(added), c.maxCount + 1) && t.bytes == Min(ByteSum(added), c.maxBytes + 1)
      && (added != [] ==> t.Limited?)
  {
    hide CountSum, ByteSum;
    StagedSums(added);
    if added != [] {
      StagedSaturates(c, base, Admitted(c, State<T>.Retaining(0, 0, []), base, added[0]), added[1..]);
    }
  }
}
