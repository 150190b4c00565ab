/**
 The first-occurrence oracle: what the list of recorded declarations, read from the source
 alone, says about every key, and that the indexed ledger answers exactly that.
 */
module DeclarationOracle {
  import opened Wrappers
  import opened Declarations

  // ----- the oracle, over the calls a ledger took

  datatype First<T> = NoOccurrence | FirstAccepted(value: T) | FirstRefused

  /** What the first occurrence of `key` is. */
  ghost function FirstOf<K, T>(log: Log<K, T>, key: K): First<T> {
    if log == [] then NoOccurrence
    else
      var (last, o) := log[|log| - 1];
      var before := FirstOf(log[..|log| - 1], key);
      if before != NoOccurrence || last != key then before
      else if o.Accepted? then FirstAccepted(o.value) else FirstRefused
  }

  /** Every refusal of `key`, merged in source order into the first one. */
  ghost function AllRefusals<K, T>(log: Log<K, T>, key: K): Option<Summary> {
    if log == [] then None
    else
      var (last, o) := log[|log| - 1];
      var before := AllRefusals(log[..|log| - 1], key);
      if last != key || o.Accepted? then before
      else if before.None? then Some(o.summary) else Some(Merged(before.value, o.summary))
  }

  /** The refusals of `key`, in source order. */
  ghost function RefusalsOf<K, T>(log: Log<K, T>, key: K): seq<Summary> {
    if log == [] then []
    else
      var (last, o) := log[|log| - 1];
      var before := RefusalsOf(log[..|log| - 1], key);
      if last == key && o.Refused? then before + [o.summary] else before
  }

  ghost function TotalFurther(refusals: seq<Summary>): nat {
    if refusals == [] then 0 else TotalFurther(refusals[..|refusals| - 1]) + refusals[|refusals| - 1].further
  }

  /** The first gap any of them carries. */
  ghost function FirstGap(refusals: seq<Summary>): Option<string> {
    if refusals == [] then None
    else
      var before := FirstGap(refusals[..|refusals| - 1]);
      if before.Some? then before else refusals[|refusals| - 1].gap
  }

  /** The one summary a list of refusals is held as: the cause is the first one's, every other counts
      once besides what it counted itself, up to what 16 bits hold, and the first gap is kept. */
  ghost predicate Summarizes(refusals: seq<Summary>, m: Summary) {
    && refusals != []
    && m.name == refusals[0].name && m.code == refusals[0].code && m.report == refusals[0].report
    && m.gap == FirstGap(refusals)
    && var count := TotalFurther(refusals) + |refusals| - 1;
       m.further == if count <= 65535 then count else 65535
  }

  /** The keys whose first occurrence is an acceptance, with it, in source order. */
  ghost function AcceptedFirsts<K, T>(log: Log<K, T>): seq<(K, T)> {
    if log == [] then []
    else
      var (last, o) := log[|log| - 1];
      var before := log[..|log| - 1];
      if FirstOf(before, last) == NoOccurrence && o.Accepted? then AcceptedFirsts(before) + [(last, o.value)]
      else AcceptedFirsts(before)
  }

  /** The refused keys, in the source order of their first refusal. */
  ghost function RefusedKeys<K, T>(log: Log<K, T>): seq<K> {
    if log == [] then []
    else
      var (last, o) := log[|log| - 1];
      var before := log[..|log| - 1];
      if AllRefusals(before, last).None? && o.Refused? then RefusedKeys(before) + [last] else RefusedKeys(before)
  }

  /** Two logs that no read can tell apart. */
  ghost predicate SameAnswers<K(!new), T>(a: Log<K, T>, b: Log<K, T>) {
    && (forall key :: FirstOf(a, key) == FirstOf(b, key))
    && (forall key :: AllRefusals(a, key) == AllRefusals(b, key))
    && AcceptedFirsts(a) == AcceptedFirsts(b)
    && RefusedKeys(a) == RefusedKeys(b)
  }

  lemma SnocSame<K(!new), T>(a: Log<K, T>, b: Log<K, T>, key: K, occurrence: Occurrence<T>)
    requires SameAnswers(a, b)
    ensures SameAnswers(a + [(key, occurrence)], b + [(key, occurrence)])
  {
    var a', b' := a + [(key, occurrence)], b + [(key, occurrence)];
    assert a'[..|a|] == a && b'[..|b|] == b;
    assert a'[|a|] == b'[|b|] == (key, occurrence);
    forall k ensures FirstOf(a', k) == FirstOf(b', k) && AllRefusals(a', k) == AllRefusals(b', k) {
      assert FirstOf(a, k) == FirstOf(b, k) && AllRefusals(a, k) == AllRefusals(b, k);
    }
    assert FirstOf(a, key) == FirstOf(b, key) && AllRefusals(a, key) == AllRefusals(b, key);
  }

  /** Main result: merging one by one holds exactly the summary of all the refusals. */
  lemma {:induction false} MergedSummarizes<K, T>(log: Log<K, T>, key: K)
    ensures AllRefusals(log, key).None? <==> RefusalsOf(log, key) == []
    ensures AllRefusals(log, key).Some? ==> Summarizes(RefusalsOf(log, key), AllRefusals(log, key).value)
    decreases |log|
  {
    if log != [] {
      var n := |log| - 1;
      MergedSummarizes(log[..n], key);
      var before := RefusalsOf(log[..n], key);
      if log[n].0 == key && log[n].1.Refused? {
        SummarizeSnoc(before, AllRefusals(log[..n], key), log[n].1.summary);
      }
    }
  }

  lemma SummarizeSnoc(before: seq<Summary>, merged: Option<Summary>, later: Summary)
    requires merged.None? <==> before == []
    requires merged.Some? ==> Summarizes(before, merged.value)
    ensures Summarizes(before + [later], if merged.None? then later else Merged(merged.value, later))
  {
    var all := before + [later];
    assert all[..|before|] == before && all[|before|] == later;
  }

  // ----- facts the log alone determines

  lemma {:induction false} FirstOfAt<K, T>(log: Log<K, T>, key: K, at: nat)
    requires FirstAt(log, key, at)
    ensures FirstOf(log, key) == if log[at].1.Accepted? then FirstAccepted(log[at].1.value) else FirstRefused
    decreases |log|
  {
    var n := |log| - 1;
    if at == n { NoFirst(log[..n], key); } else { FirstOfAt(log[..n], key, at); }
  }

  lemma {:induction false} NoFirst<K, T>(log: Log<K, T>, key: K)
    requires forall i :: 0 <= i < |log| ==> log[i].0 != key
    ensures FirstOf(log, key) == NoOccurrence && AllRefusals(log, key) == None
    decreases |log|
  {
    if log != [] { NoFirst(log[..|log| - 1], key); }
  }

  lemma {:induction false} NoRefusal<K, T>(log: Log<K, T>, key: K)
    requires forall i: nat :: !RefusedAt(log, key, i)
    ensures AllRefusals(log, key) == None
    decreases |log|
  {
    if log != [] {
      var n := |log| - 1;
      assert !RefusedAt(log, key, n);
      forall i: nat ensures !RefusedAt(log[..n], key, i) { assert !RefusedAt(log, key, i); }
      NoRefusal(log[..n], key);
    }
  }

  lemma {:induction false} SoleRefusal<K, T>(log: Log<K, T>, key: K, at: nat)
    requires SoleRefusals(log) && RefusedAt(log, key, at)
    ensures AllRefusals(log, key) == Some(log[at].1.summary)
    decreases |log|
  {
    var n := |log| - 1;
    if at == n {
      forall i: nat ensures !RefusedAt(log[..n], key, i) {}
      NoRefusal(log[..n], key);
    } else {
      SoleRefusal(log[..n], key, at);
    }
  }

  /** `log'` is `log` with the refusal at `at` rewritten. */
  ghost predicate RewrittenAt<K, T>(log: Log<K, T>, log': Log<K, T>, at: nat) {
    && at < |log| == |log'|
    && log[at].1.Refused? && log'[at].1.Refused? && log'[at].0 == log[at].0
    && forall i :: 0 <= i < |log| && i != at ==> log'[i] == log[i]
  }

  /** Rewriting one refusal in place moves no first occurrence and no first refusal. */
  lemma {:induction false} RewriteKeepsFirst<K, T>(log: Log<K, T>, log': Log<K, T>, at: nat, key: K)
    requires RewrittenAt(log, log', at)
    ensures FirstOf(log', key) == FirstOf(log, key)
    ensures AllRefusals(log', key).Some? == AllRefusals(log, key).Some?
    decreases |log|
  {
    var n := |log| - 1;
    if at < n {
      RewriteKeepsFirst(log[..n], log'[..n], at, key);
    } else {
      assert log'[..n] == log[..n];
    }
  }

  lemma {:induction false} RewriteKeepsAccepted<K, T>(log: Log<K, T>, log': Log<K, T>, at: nat)
    requires RewrittenAt(log, log', at)
    ensures AcceptedFirsts(log') == AcceptedFirsts(log)
    decreases |log|
  {
    var n := |log| - 1;
    if at < n {
      RewriteKeepsAccepted(log[..n], log'[..n], at);
      RewriteKeepsFirst(log[..n], log'[..n], at, log[n].0);
    } else {
      assert log'[..n] == log[..n];
    }
  }

  lemma {:induction false} RewriteKeepsRefused<K, T>(log: Log<K, T>, log': Log<K, T>, at: nat)
    requires RewrittenAt(log, log', at)
    ensures RefusedKeys(log') == RefusedKeys(log)
    decreases |log|
  {
    var n := |log| - 1;
    if at < n {
      RewriteKeepsRefused(log[..n], log'[..n], at);
      RewriteKeepsFirst(log[..n], log'[..n], at, log[n].0);
    } else {
      assert log'[..n] == log[..n];
    }
  }

  lemma {:induction false} RewriteKeepsOthers<K, T>(log: Log<K, T>, log': Log<K, T>, at: nat, key: K)
    requires RewrittenAt(log, log', at) && log[at].0 != key
    ensures AllRefusals(log', key) == AllRefusals(log, key)
    decreases |log|
  {
    var n := |log| - 1;
    if at < n {
      RewriteKeepsOthers(log[..n], log'[..n], at, key);
    } else {
      assert log'[..n] == log[..n];
    }
  }

  /** Whatever refused occurrence `key` had, it has a first occurrence. */
  lemma {:induction false} RefusedHasFirst<K, T>(log: Log<K, T>, key: K)
    requires AllRefusals(log, key).Some?
    ensures FirstOf(log, key) != NoOccurrence
    decreases |log|
  {
    if AllRefusals(log[..|log| - 1], key).Some? { RefusedHasFirst(log[..|log| - 1], key); }
  }

  // ----- the ledger agrees with the oracle

  /** Recording a call keeps the book indistinguishable from the calls taken so far. */
  lemma DeclaredMirrors<K(!new), T>(b: Book<K, T>, charged: nat, key: K, occurrence: Occurrence<T>, taken: Log<K, T>)
    requires Coherent(b) && SameAnswers(b.occurrences, taken)
    requires Declared(b, charged, key, occurrence).Ok?
    ensures SameAnswers(Declared(b, charged, key, occurrence).value.0.occurrences, taken + [(key, occurrence)])
  {
    var b' := Declared(b, charged, key, occurrence).value.0;
    if occurrence.Refused? && key in b.index && b.index[key].refused.Some? {
      assert EntryOk(b, key, b.index[key]);
      var at := b.refusals[b.index[key].refused.value.index];
      MergeMirrors(b.occurrences, b'.occurrences, at, key, occurrence.summary, taken);
    } else {
      SnocSame(b.occurrences, taken, key, occurrence);
    }
  }

  lemma MergeMirrors<K(!new), T>(log: Log<K, T>, log': Log<K, T>, at: nat, key: K, later: Summary, taken: Log<K, T>)
    requires SoleRefusals(log) && SameAnswers(log, taken) && RefusedAt(log, key, at)
    requires log' == log[at := (log[at].0, Refused(Merged(log[at].1.summary, later)))]
    ensures SameAnswers(log', taken + [(key, Refused(later))])
  {
    var taken' := taken + [(key, Occurrence<T>.Refused(later))];
    assert taken'[..|taken|] == taken;
    SoleRefusal(log, key, at);
    SoleRefusal(log', key, at);
    RefusedHasFirst(taken, key);
    RewriteKeepsAccepted(log, log', at);
    RewriteKeepsRefused(log, log', at);
    forall k ensures FirstOf(log', k) == FirstOf(taken', k) && AllRefusals(log', k) == AllRefusals(taken', k) {
      RewriteKeepsFirst(log, log', at, k);
      if k != key { RewriteKeepsOthers(log, log', at, k); }
    }
  }

  /** What the source says a lookup of `key` must answer, the id aside. */
  ghost predicate AnswersLike<K, T>(answer: Binding<T>, taken: Log<K, T>, key: K) {
    match FirstOf(taken, key)
    case NoOccurrence => answer == Absent
    case FirstAccepted(value) => answer == BoundAccepted(value)
    case FirstRefused =>
      && answer.BoundRefused?
      && Summarizes(RefusalsOf(taken, key), answer.summary)
      && answer.id.index < |RefusedKeys(taken)| && RefusedKeys(taken)[answer.id.index] == key
  }

  /** The slots of a coherent book are its refused keys, one each. */
  lemma {:induction false} SlotsAreRefusedKeys<K, T>(log: Log<K, T>)
    requires SoleRefusals(log)
    ensures |RefusedKeys(log)| == |RefusedPositions(log)|
    ensures forall j :: 0 <= j < |RefusedPositions(log)| ==>
              RefusedPositions(log)[j] < |log| && log[RefusedPositions(log)[j]].0 == RefusedKeys(log)[j]
    decreases |log|
  {
    if log != [] {
      var n := |log| - 1;
      SlotsAreRefusedKeys(log[..n]);
      if log[n].1.Refused? {
        forall i: nat ensures !RefusedAt(log[..n], log[n].0, i) {}
        NoRefusal(log[..n], log[n].0);
      }
    }
  }

  /** Main result: a coherent book answers every lookup like the first occurrence in the calls
      it took, and never reports drift. */
  lemma LookupAnswers<K(!new), T>(b: Book<K, T>, taken: Log<K, T>, key: K)
    requires Coherent(b) && SameAnswers(b.occurrences, taken)
    ensures Lookup(b, key).Some? && AnswersLike(Lookup(b, key).value, taken, key)
  {
    if key !in b.index {
      NoFirst(b.occurrences, key);
    } else {
      var e := b.index[key];
      assert EntryOk(b, key, e);
      match e.first {
        case SelectedAccepted(at) => FirstOfAt(b.occurrences, key, at);
        case SelectedRefused(id) =>
          FirstOfAt(b.occurrences, key, b.refusals[id.index]);
          SoleRefusal(b.occurrences, key, b.refusals[id.index]);
          SlotsAreRefusedKeys(b.occurrences);
          MergedSummarizes(taken, key);
      }
    }
  }

  // ----- which calls a full budget refuses

  /** What a call would newly retain, read from the calls taken so far: nothing for an acceptance,
      a first refusal whole, and of a later one only the gap it completes. */
  ghost function NewlyRetained<K, T>(taken: Log<K, T>, key: K, occurrence: Occurrence<T>): nat {
    match occurrence
    case Accepted(_) => 0
    case Refused(Summary(name, _, _, gap, _)) =>
      var gapBytes := match gap case Some(path) => |path| case None => 0;
      if RefusalsOf(taken, key) == [] then FOOTPRINT + |name| + gapBytes
      else if FirstGap(RefusalsOf(taken, key)).Some? then 0
      else gapBytes
  }

  /** A call is refused exactly when what it would newly retain does not fit the budget. */
  lemma RefusedIffOver<K(!new), T>(b: Book<K, T>, charged: nat, key: K, occurrence: Occurrence<T>, taken: Log<K, T>)
    requires Coherent(b) && SameAnswers(b.occurrences, taken) && charged <= MAX_DECLARATION_LEDGER_BYTES
    ensures Declared(b, charged, key, occurrence).Err? <==>
            charged + NewlyRetained(taken, key, occurrence) > MAX_DECLARATION_LEDGER_BYTES
    ensures Declared(b, charged, key, occurrence).Ok? ==>
            Declared(b, charged, key, occurrence).value.1 == charged + NewlyRetained(taken, key, occurrence)
  {
    assert AllRefusals(b.occurrences, key) == AllRefusals(taken, key);
    MergedSummarizes(taken, key);
    if key !in b.index {
      NoFirst(b.occurrences, key);
    } else {
      var e := b.index[key];
      assert EntryOk(b, key, e);
      match e.refused
      case None => NoRefusal(b.occurrences, key);
      case Some(id) => SoleRefusal(b.occurrences, key, b.refusals[id.index]);
    }
  }
}
