/**
 Declared-name ledgers: an index over an occurrence log that answers like the first
 occurrence in the source, within one byte budget shared by every ledger of a pass.
 */
module Declarations {
  import opened Wrappers

  /** The most owned bytes the ledgers of one pass may retain together. */
  const MAX_DECLARATION_LEDGER_BYTES: nat := 1024 * 1024
  /** The fixed footprint of one retained summary; it is never zero. */
  const FOOTPRINT: nat := 96
  const U32_RANGE: nat := 0x1_0000_0000
  const U16_MAX: nat := 0xFFFF

  type U16 = n: nat | n <= U16_MAX

  // ----- occurrences

  /** Why one declared key is refused, and how many further refusals merged into it. */
  datatype Summary = Summary(name: string, code: nat, further: U16, gap: Option<string>, report: nat) {
    function RetainedBytes(): nat {
      FOOTPRINT + |name| + (if gap.Some? then |gap.value| else 0)
    }
  }

  datatype Occurrence<T> = Accepted(value: T) | Refused(summary: Summary)

  function Saturate16(n: nat): U16 { if n <= U16_MAX then n else U16_MAX }

  /** A further refusal raises the count and completes a missing gap, nothing else. */
  function Merged(first: Summary, later: Summary): Summary {
    first.(gap := if first.gap.None? then later.gap else first.gap,
           further := Saturate16(Saturate16(first.further + later.further) + 1))
  }

  /** What a merge newly retains. */
  function MergeCharge(first: Summary, later: Summary): nat {
    if first.gap.None? && later.gap.Some? then |later.gap.value| else 0
  }

  lemma MergeRetains(first: Summary, later: Summary)
    ensures Merged(first, later).RetainedBytes() == first.RetainedBytes() + MergeCharge(first, later)
  {
  }

  type Log<K, T> = seq<(K, Occurrence<T>)>

  // ----- the ledger as a value

  datatype RefusalId = RefusalId(namespace: nat, index: nat)

  datatype Selected = SelectedAccepted(at: nat) | SelectedRefused(id: RefusalId)

  datatype KeyOccurrences = KeyOccurrences(first: Selected, refused: Option<RefusalId>)

  datatype DeclareError = LedgerFull | IndexDrift

  datatype Binding<T> = BoundAccepted(value: T) | BoundRefused(id: RefusalId, summary: Summary) | Absent

  /** The occurrence log, the index by key, and the position of each key's merged refusal. */
  datatype Book<K(==), T> = Book(
    namespace: nat,
    occurrences: Log<K, T>,
    index: map<K, KeyOccurrences>,
    refusals: seq<nat>)

  /** What a charge leaves in the budget, if it fits. */
  function Charge(charged: nat, bytes: nat): Option<nat> {
    if charged + bytes > MAX_DECLARATION_LEDGER_BYTES then None else Some(charged + bytes)
  }

  /** Record one occurrence: the new book and budget, or why it was not recorded. */
  function Declared<K(==), T>(b: Book<K, T>, charged: nat, key: K, occurrence: Occurrence<T>)
    : Result<(Book<K, T>, nat), DeclareError>
  {
    var position := |b.occurrences|;
    match occurrence
    case Accepted(_) =>
      var index := if key in b.index then b.index
                   else b.index[key := KeyOccurrences(SelectedAccepted(position), None)];
      Ok((b.(occurrences := b.occurrences + [(key, occurrence)], index := index), charged))
    case Refused(summary) =>
      if key in b.index && b.index[key].refused.Some?
      then MergedRefusal(b, charged, b.index[key].refused.value, summary)
      else
        match Charge(charged, summary.RetainedBytes())
        case None => Err(LedgerFull)
        case Some(charged') =>
          var id := RefusalId(b.namespace, |b.refusals| % U32_RANGE);
          var entry := if key in b.index then b.index[key].(refused := Some(id))
                       else KeyOccurrences(SelectedRefused(id), Some(id));
          Ok((b.(occurrences := b.occurrences + [(key, occurrence)],
                 index := b.index[key := entry],
                 refusals := b.refusals + [position]), charged'))
  }

  /** Fold a further refusal into the summary `id` addresses. */
  function MergedRefusal<K(==), T>(b: Book<K, T>, charged: nat, id: RefusalId, summary: Summary)
    : Result<(Book<K, T>, nat), DeclareError>
  {
    if id.index >= |b.refusals| then Err(IndexDrift)
    else
      var at := b.refusals[id.index];
      if at >= |b.occurrences| || !b.occurrences[at].1.Refused? then Err(IndexDrift)
      else
        var first := b.occurrences[at].1.summary;
        match if first.gap.None? && summary.gap.Some? then Charge(charged, |summary.gap.value|) else Some(charged)
        case None => Err(LedgerFull)
        case Some(charged') =>
          Ok((b.(occurrences := b.occurrences[at := (b.occurrences[at].0, Refused(Merged(first, summary)))]), charged'))
  }

  /** The merged refusal `id` addresses; `None` is drift. */
  function RefusalOf<K(==), T>(b: Book<K, T>, id: RefusalId): Option<Summary> {
    if id.namespace != b.namespace || id.index >= |b.refusals| then None
    else
      var at := b.refusals[id.index];
      if at < |b.occurrences| && b.occurrences[at].1.Refused? then Some(b.occurrences[at].1.summary) else None
  }

  /** What `key` resolves to; `None` is drift. */
  function Lookup<K(==), T>(b: Book<K, T>, key: K): Option<Binding<T>> {
    if key !in b.index then Some(Absent)
    else
      match b.index[key].first
      case SelectedAccepted(at) =>
        if at < |b.occurrences| && b.occurrences[at].1.Accepted?
        then Some(BoundAccepted(b.occurrences[at].1.value)) else None
      case SelectedRefused(id) =>
        match RefusalOf(b, id)
        case Some(summary) => Some(BoundRefused(id, summary))
        case None => None
  }

  // ----- coherence of the log and the index

  /** `key` first occurs at `at`. */
  ghost predicate FirstAt<K, T>(log: Log<K, T>, key: K, at: nat) {
    at < |log| && log[at].0 == key && forall i :: 0 <= i < at ==> log[i].0 != key
  }

  ghost predicate RefusedAt<K, T>(log: Log<K, T>, key: K, at: nat) {
    at < |log| && log[at].0 == key && log[at].1.Refused?
  }

  /** The positions of refused occurrences, ascending. */
  ghost function RefusedPositions<K, T>(log: Log<K, T>): seq<nat> {
    if log == [] then []
    else
      var n := |log| - 1;
      RefusedPositions(log[..n]) + (if log[n].1.Refused? then [n] else [])
  }

  ghost predicate EntryOk<K, T>(b: Book<K, T>, key: K, e: KeyOccurrences) {
    && (match e.first
        case SelectedAccepted(at) => FirstAt(b.occurrences, key, at) && b.occurrences[at].1.Accepted?
        case SelectedRefused(id) =>
          e.refused == Some(id) && id.index < |b.refusals| && FirstAt(b.occurrences, key, b.refusals[id.index]))
    && (match e.refused
        case None => forall i: nat :: !RefusedAt(b.occurrences, key, i)
        case Some(id) =>
          id.namespace == b.namespace && id.index < |b.refusals| && RefusedAt(b.occurrences, key, b.refusals[id.index]))
  }

  ghost predicate Indexed<K, T>(b: Book<K, T>) {
    forall i :: 0 <= i < |b.occurrences| ==> b.occurrences[i].0 in b.index
  }

  /** No key is refused at two positions: later refusals merged into the first. */
  ghost predicate SoleRefusals<K, T>(log: Log<K, T>) {
    forall i, j :: 0 <= i < j < |log| && log[i].1.Refused? && log[j].1.Refused? ==> log[i].0 != log[j].0
  }

  ghost predicate Coherent<K, T>(b: Book<K, T>) {
    && Indexed(b)
    && (forall key :: key in b.index ==> EntryOk(b, key, b.index[key]))
    && b.refusals == RefusedPositions(b.occurrences)
    && SoleRefusals(b.occurrences)
  }

  function Empty<K(==), T>(namespace: nat): Book<K, T> {
    Book(namespace, [], map[], [])
  }

  lemma {:induction false} PositionsAreRefused<K, T>(log: Log<K, T>, j: nat)
    requires j < |RefusedPositions(log)|
    ensures RefusedPositions(log)[j] < |log| && log[RefusedPositions(log)[j]].1.Refused?
    decreases |log|
  {
    var n := |log| - 1;
    if j < |RefusedPositions(log[..n])| { PositionsAreRefused(log[..n], j); }
  }

  /** The positions depend on the kinds alone. */
  lemma {:induction false} PositionsOfKinds<K, T>(log: Log<K, T>, log': Log<K, T>)
    requires |log| == |log'| && forall i :: 0 <= i < |log| ==> log[i].1.Refused? == log'[i].1.Refused?
    ensures RefusedPositions(log) == RefusedPositions(log')
    decreases |log|
  {
    if |log| > 0 {
      var n := |log| - 1;
      PositionsOfKinds(log[..n], log'[..n]);
    }
  }

  lemma PositionsSnoc<K, T>(log: Log<K, T>, key: K, occurrence: Occurrence<T>)
    ensures RefusedPositions(log + [(key, occurrence)]) ==
            RefusedPositions(log) + (if occurrence.Refused? then [|log|] else [])
  {
    assert (log + [(key, occurrence)])[..|log|] == log;
  }

  /** An entry stays good when the log grows by an occurrence that is not this key's refusal. */
  lemma EntryGrows<K, T>(b: Book<K, T>, b': Book<K, T>, key: K, e: KeyOccurrences, added: (K, Occurrence<T>))
    requires EntryOk(b, key, e) && b'.namespace == b.namespace
    requires b'.occurrences == b.occurrences + [added]
    requires |b.refusals| <= |b'.refusals| && b'.refusals[..|b.refusals|] == b.refusals
    requires added.0 == key ==> added.1.Accepted?
    ensures EntryOk(b', key, e)
  {
    forall i: nat | e.refused.None? ensures !RefusedAt(b'.occurrences, key, i) {
      if i < |b.occurrences| { assert !RefusedAt(b.occurrences, key, i); }
    }
    if e.refused.Some? { assert b'.refusals[e.refused.value.index] == b.refusals[e.refused.value.index]; }
  }

  /** An entry stays good when one refusal is rewritten in place. */
  lemma EntryMerges<K, T>(b: Book<K, T>, b': Book<K, T>, key: K, e: KeyOccurrences)
    requires EntryOk(b, key, e) && b'.namespace == b.namespace && b'.refusals == b.refusals
    requires |b'.occurrences| == |b.occurrences|
    requires forall i :: 0 <= i < |b.occurrences| ==>
               b'.occurrences[i].0 == b.occurrences[i].0 && b'.occurrences[i].1.Refused? == b.occurrences[i].1.Refused?
    ensures EntryOk(b', key, e)
  {
    forall i: nat | e.refused.None? ensures !RefusedAt(b'.occurrences, key, i) {
      assert !RefusedAt(b.occurrences, key, i);
    }
  }

  /** The entry a first refusal of `key` leaves. */
  lemma EntryRefused<K, T>(b: Book<K, T>, b': Book<K, T>, key: K, added: (K, Occurrence<T>), id: RefusalId)
    requires Indexed(b) && (key in b.index ==> EntryOk(b, key, b.index[key]) && b.index[key].refused.None?)
    requires b'.namespace == b.namespace == id.namespace && id.index == |b.refusals|
    requires b'.occurrences == b.occurrences + [added] && added.0 == key && added.1.Refused?
    requires b'.refusals == b.refusals + [|b.occurrences|]
    ensures key in b.index ==> EntryOk(b', key, b.index[key].(refused := Some(id)))
    ensures key !in b.index ==> EntryOk(b', key, KeyOccurrences(SelectedRefused(id), Some(id)))
  {
    assert b'.refusals[id.index] == |b.occurrences|;
  }

  /** On a coherent book whose refusals fit the id width, `Declared` never drifts and what it
      records is coherent again. */
  lemma DeclaredCoherent<K, T>(b: Book<K, T>, charged: nat, key: K, occurrence: Occurrence<T>)
    requires Coherent(b) && |b.refusals| < U32_RANGE
    ensures var r := Declared(b, charged, key, occurrence);
            && r != Err(IndexDrift)
            && (r.Ok? ==> Coherent(r.value.0) && r.value.0.namespace == b.namespace)
  {
    if key in b.index && b.index[key].refused.Some? && occurrence.Refused? {
      MergeCoherent(b, charged, key, occurrence.summary);
    } else {
      var r := Declared(b, charged, key, occurrence);
      if r.Ok? { GrowthCoherent(b, r.value.0, charged, r.value.1, key, occurrence); }
    }
  }

  lemma MergeCoherent<K, T>(b: Book<K, T>, charged: nat, key: K, summary: Summary)
    requires Coherent(b) && key in b.index && b.index[key].refused.Some?
    ensures var r := MergedRefusal(b, charged, b.index[key].refused.value, summary);
            && r != Err(IndexDrift)
            && (r.Ok? ==> Coherent(r.value.0) && r.value.0.namespace == b.namespace)
  {
    assert EntryOk(b, key, b.index[key]);
    var r := MergedRefusal(b, charged, b.index[key].refused.value, summary);
    if r.Ok? {
      var b' := r.value.0;
      forall k | k in b'.index ensures EntryOk(b', k, b'.index[k]) {
        EntryMerges(b, b', k, b.index[k]);
      }
      PositionsOfKinds(b.occurrences, b'.occurrences);
    }
  }

  /** The entry a grown book holds for `k`. */
  lemma GrownEntry<K, T>(b: Book<K, T>, b': Book<K, T>, charged: nat, charged': nat, key: K, occurrence: Occurrence<T>,
                         k: K)
    requires Indexed(b) && |b.refusals| < U32_RANGE
    requires occurrence.Refused? && key in b.index ==> b.index[key].refused.None?
    requires Declared(b, charged, key, occurrence) == Ok((b', charged'))
    requires k in b'.index && (k in b.index ==> EntryOk(b, k, b.index[k]))
    ensures EntryOk(b', k, b'.index[k])
  {
    if k != key || (k in b.index && occurrence.Accepted?) {
      assert k in b.index && b'.index[k] == b.index[k];
      hide EntryOk;
      EntryGrows(b, b', k, b.index[k], (key, occurrence));
    } else if occurrence.Refused? {
      hide EntryOk;
      EntryRefused(b, b', key, (key, occurrence), RefusalId(b.namespace, |b.refusals|));
    }
  }

  lemma SoleGrows<K, T>(b: Book<K, T>, key: K, occurrence: Occurrence<T>)
    requires Indexed(b) && SoleRefusals(b.occurrences)
    requires key in b.index ==> EntryOk(b, key, b.index[key])
    requires occurrence.Refused? && key in b.index ==> b.index[key].refused.None?
    ensures SoleRefusals(b.occurrences + [(key, occurrence)])
  {
    forall i: nat | occurrence.Refused? && i < |b.occurrences| && b.occurrences[i].1.Refused?
      ensures b.occurrences[i].0 != key
    {
      assert key in b.index ==> !RefusedAt(b.occurrences, key, i);
    }
  }

  lemma GrowthCoherent<K, T>(b: Book<K, T>, b': Book<K, T>, charged: nat, charged': nat, key: K,
                             occurrence: Occurrence<T>)
    requires Coherent(b) && |b.refusals| < U32_RANGE
    requires occurrence.Refused? && key in b.index ==> b.index[key].refused.None?
    requires Declared(b, charged, key, occurrence) == Ok((b', charged'))
    ensures Coherent(b') && b'.namespace == b.namespace
  {
    hide EntryOk, SoleRefusals, RefusedPositions;
    PositionsSnoc(b.occurrences, key, occurrence);
    SoleGrows(b, key, occurrence);
    forall k | k in b'.index ensures EntryOk(b', k, b'.index[k]) {
      GrownEntry(b, b', charged, charged', key, occurrence, k);
    }
  }

  // ----- what is retained

  ghost function Held<T>(occurrence: Occurrence<T>): nat {
    match occurrence
    case Accepted(_) => 0
    case Refused(Summary(name, _, _, gap, _)) =>
      FOOTPRINT + |name| + (match gap case Some(path) => |path| case None => 0)
  }

  ghost function Retained<K, T>(log: Log<K, T>): nat {
    if log == [] then 0 else Retained(log[..|log| - 1]) + Held(log[|log| - 1].1)
  }

  lemma RetainedSnoc<K, T>(log: Log<K, T>, key: K, occurrence: Occurrence<T>)
    ensures Retained(log + [(key, occurrence)]) == Retained(log) + Held(occurrence)
  {
    assert (log + [(key, occurrence)])[..|log|] == log;
  }

  lemma {:induction false} RetainedUpdate<K, T>(log: Log<K, T>, at: nat, entry: (K, Occurrence<T>))
    requires at < |log|
    ensures Retained(log[at := entry]) + Held(log[at].1) == Retained(log) + Held(entry.1)
    decreases |log|
  {
    var n := |log| - 1;
    if at == n {
      assert log[at := entry][..n] == log[..n];
    } else {
      assert log[at := entry][..n] == log[..n][at := entry];
      RetainedUpdate(log[..n], at, entry);
    }
  }

  /** Every recorded declaration charges the budget exactly what it newly retains. */
  lemma DeclaredCharges<K, T>(b: Book<K, T>, charged: nat, key: K, occurrence: Occurrence<T>)
    requires Declared(b, charged, key, occurrence).Ok?
    ensures var (b', charged') := Declared(b, charged, key, occurrence).value;
            && charged' - charged == Retained(b'.occurrences) - Retained(b.occurrences)
            && charged <= charged'
            && (charged <= MAX_DECLARATION_LEDGER_BYTES ==> charged' <= MAX_DECLARATION_LEDGER_BYTES)
  {
    RetainedSnoc(b.occurrences, key, occurrence);
    if occurrence.Refused? && key in b.index && b.index[key].refused.Some? {
      var at := b.refusals[b.index[key].refused.value.index];
      var first := b.occurrences[at].1.summary;
      MergeRetains(first, occurrence.summary);
      RetainedUpdate(b.occurrences, at, (b.occurrences[at].0, Refused(Merged(first, occurrence.summary))));
    }
  }

  /** Each held refusal costs at least its footprint. */
  lemma {:induction false} RefusalsCost<K, T>(log: Log<K, T>)
    ensures |RefusedPositions(log)| * FOOTPRINT <= Retained(log)
    decreases |log|
  {
    if log != [] { RefusalsCost(log[..|log| - 1]); }
  }

  /** So within the budget a refusal's position always fits the id's 32 bits. */
  lemma RefusalsBelowWidth<K, T>(b: Book<K, T>)
    requires Coherent(b) && Retained(b.occurrences) <= MAX_DECLARATION_LEDGER_BYTES
    ensures |b.refusals| < U32_RANGE
  {
    RefusalsCost(b.occurrences);
  }
}
