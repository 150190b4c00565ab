/**
 Reads of one owner's contiguous run of keys, in source order: the index selects the keys,
 the occurrence log gives order and payload.
 */
module DeclarationRuns {
  import opened Wrappers
  import opened Declarations
  import opened DeclarationOracle

  // ----- ordered keys and runs

  ghost predicate TotalOrder<K(!new)>(le: (K, K) -> bool) {
    && (forall a, b :: le(a, b) || le(b, a))
    && (forall a, b :: le(a, b) && le(b, a) ==> a == b)
    && (forall a, b, c :: le(a, b) && le(b, c) ==> le(a, c))
  }

  ghost predicate Ascending<K>(le: (K, K) -> bool, keys: seq<K>) {
    forall i, j :: 0 <= i < j < |keys| ==> le(keys[i], keys[j]) && keys[i] != keys[j]
  }

  /** `keys` is the index iterated in key order. */
  ghost predicate Lists<K(!new)>(le: (K, K) -> bool, keys: seq<K>, index: map<K, KeyOccurrences>) {
    Ascending(le, keys) && forall k :: k in keys <==> k in index
  }

  /** The order makes the run contiguous: it begins at `start` and no other key lies inside. */
  ghost predicate LawfulRun<K(!new)>(le: (K, K) -> bool, start: K, inRun: K -> bool) {
    && (forall k :: inRun(k) ==> le(start, k))
    && (forall k, c :: le(start, k) && le(k, c) && inRun(c) ==> inRun(k))
  }

  /** The keys at or above `start`. */
  function Seek<K>(le: (K, K) -> bool, keys: seq<K>, start: K): seq<K> {
    if keys == [] || le(start, keys[0]) then keys else Seek(le, keys[1..], start)
  }

  function TakeRun<K>(keys: seq<K>, inRun: K -> bool): seq<K> {
    if keys == [] || !inRun(keys[0]) then [] else [keys[0]] + TakeRun(keys[1..], inRun)
  }

  function Run<K>(le: (K, K) -> bool, keys: seq<K>, start: K, inRun: K -> bool): seq<K> {
    TakeRun(Seek(le, keys, start), inRun)
  }

  ghost function Filter<K>(keys: seq<K>, inRun: K -> bool): seq<K> {
    if keys == [] then []
    else
      var n := |keys| - 1;
      if inRun(keys[n]) then Filter(keys[..n], inRun) + [keys[n]] else Filter(keys[..n], inRun)
  }

  /** One seek and one stop read exactly the run: nothing of it is skipped or cut off, and no
      other owner's key is read. */
  lemma {:induction false} RunIsExact<K(!new)>(le: (K, K) -> bool, keys: seq<K>, start: K, inRun: K -> bool)
    requires TotalOrder(le) && LawfulRun(le, start, inRun) && Ascending(le, keys)
    ensures forall k :: k in Run(le, keys, start, inRun) <==> k in keys && inRun(k)
    ensures Ascending(le, Run(le, keys, start, inRun))
    decreases |keys|
  {
    if keys == [] {
    } else if !le(start, keys[0]) {
      RunIsExact(le, keys[1..], start, inRun);
      assert keys == [keys[0]] + keys[1..];
    } else {
      TakeIsExact(le, keys, start, inRun);
    }
  }

  lemma {:induction false} TakeIsExact<K(!new)>(le: (K, K) -> bool, keys: seq<K>, start: K, inRun: K -> bool)
    requires TotalOrder(le) && LawfulRun(le, start, inRun) && Ascending(le, keys)
    requires keys != [] ==> le(start, keys[0])
    ensures forall k :: k in TakeRun(keys, inRun) <==> k in keys && inRun(k)
    ensures Ascending(le, TakeRun(keys, inRun))
    decreases |keys|
  {
    if keys != [] && inRun(keys[0]) {
      var rest := keys[1..];
      if rest != [] { assert rest[0] == keys[1] && le(keys[0], keys[1]); }
      TakeIsExact(le, rest, start, inRun);
      assert keys == [keys[0]] + rest;
      var run := TakeRun(keys, inRun);
      forall j | 1 <= j < |run| ensures le(keys[0], run[j]) && keys[0] != run[j] {
        assert run[j] in rest;
        var i :| 0 <= i < |rest| && rest[i] == run[j];
        assert keys[i + 1] == run[j];
      }
    } else if keys != [] {
      forall k | k in keys ensures !inRun(k) {
        var i :| 0 <= i < |keys| && keys[i] == k;
        assert i == 0 || le(keys[0], k);
      }
    }
  }

  // ----- pairs sorted back into source order

  datatype Place<K> = Place(at: nat, key: K)

  type Pairs<K> = seq<Place<K>>

  function InsertPair<K>(pairs: Pairs<K>, p: Place<K>): Pairs<K> {
    if pairs == [] || p.at <= pairs[0].at then [p] + pairs else [pairs[0]] + InsertPair(pairs[1..], p)
  }

  function SortPairs<K>(pairs: Pairs<K>): Pairs<K> {
    if pairs == [] then [] else InsertPair(SortPairs(pairs[1..]), pairs[0])
  }

  ghost predicate Strict<K>(pairs: Pairs<K>) {
    forall i, j :: 0 <= i < j < |pairs| ==> pairs[i].at < pairs[j].at
  }

  ghost predicate DistinctPositions<K>(pairs: Pairs<K>) {
    forall i, j :: 0 <= i < j < |pairs| ==> pairs[i].at != pairs[j].at
  }

  lemma StrictSnoc<K(!new)>(pairs: Pairs<K>, p: Place<K>)
    requires Strict(pairs) && forall q :: q in pairs ==> q.at < p.at
    ensures Strict(pairs + [p])
    ensures (pairs + [p])[..|pairs|] == pairs
    ensures forall q :: q in pairs + [p] <==> q in pairs || q == p
  {
  }

  lemma {:induction false} InsertSorts<K(!new)>(pairs: Pairs<K>, p: Place<K>)
    requires Strict(pairs) && forall q :: q in pairs ==> q.at != p.at
    ensures Strict(InsertPair(pairs, p))
    ensures forall q :: q in InsertPair(pairs, p) <==> q in pairs || q == p
    decreases |pairs|
  {
    if pairs != [] && p.at > pairs[0].at {
      InsertSorts(pairs[1..], p);
      assert pairs == [pairs[0]] + pairs[1..];
      var r := InsertPair(pairs, p);
      forall j | 1 <= j < |r| ensures r[0].at < r[j].at { assert r[j] in InsertPair(pairs[1..], p); }
    }
  }

  lemma {:induction false} SortSorts<K(!new)>(pairs: Pairs<K>)
    requires DistinctPositions(pairs)
    ensures Strict(SortPairs(pairs))
    ensures forall q :: q in SortPairs(pairs) <==> q in pairs
    decreases |pairs|
  {
    if pairs != [] {
      SortSorts(pairs[1..]);
      assert pairs == [pairs[0]] + pairs[1..];
      forall q | q in SortPairs(pairs[1..]) ensures q.at != pairs[0].at { assert q in pairs[1..]; }
      InsertSorts(SortPairs(pairs[1..]), pairs[0]);
    }
  }

  /** Strictly ascending lists of the same pairs are one list. */
  lemma {:induction false} StrictUnique<K(!new)>(a: Pairs<K>, b: Pairs<K>)
    requires Strict(a) && Strict(b) && forall q :: q in a <==> q in b
    ensures a == b
    decreases |a|
  {
    if a != [] || b != [] {
      var q := if a != [] then a[|a| - 1] else b[|b| - 1];
      assert q in a && q in b;
      var m, n := |a| - 1, |b| - 1;
      assert a[m] in b;
      assert b[n] in a;
      assert a[m] == b[n];
      forall q ensures q in a[..m] <==> q in b[..n] {
        if q in a[..m] { assert q in a && q.at < a[m].at; }
        if q in b[..n] { assert q in b && q.at < b[n].at; }
      }
      StrictUnique(a[..m], b[..n]);
      assert a == a[..m] + [a[m]] && b == b[..n] + [b[n]];
    }
  }

  // ----- the accepted run

  /** The run's keys whose first occurrence is an acceptance, with its position. */
  function AcceptedPairs<K(==), T>(b: Book<K, T>, run: seq<K>): Pairs<K> {
    if run == [] then []
    else
      var rest := AcceptedPairs(b, run[1..]);
      if run[0] in b.index && b.index[run[0]].first.SelectedAccepted?
      then [Place(b.index[run[0]].first.at, run[0])] + rest
      else rest
  }

  /** Read each position back from the log; `None` is drift. */
  function ReadAccepted<K(==), T>(b: Book<K, T>, pairs: Pairs<K>): Option<seq<(K, T)>> {
    if pairs == [] then Some([])
    else
      var Place(at, key) := pairs[|pairs| - 1];
      match ReadAccepted(b, pairs[..|pairs| - 1])
      case None => None
      case Some(rows) =>
        if at < |b.occurrences| && b.occurrences[at].0 == key && b.occurrences[at].1.Accepted?
        then Some(rows + [(key, b.occurrences[at].1.value)]) else None
  }

  function AcceptedRun<K(==), T>(b: Book<K, T>, le: (K, K) -> bool, keys: seq<K>, start: K, inRun: K -> bool)
    : Option<seq<(K, T)>>
  {
    ReadAccepted(b, SortPairs(AcceptedPairs(b, Run(le, keys, start, inRun))))
  }

  ghost function FilterRows<K, T>(rows: seq<(K, T)>, inRun: K -> bool): seq<(K, T)> {
    if rows == [] then []
    else
      var n := |rows| - 1;
      if inRun(rows[n].0) then FilterRows(rows[..n], inRun) + [rows[n]] else FilterRows(rows[..n], inRun)
  }

  lemma {:induction false} AcceptedPairsAre<K(!new), T>(b: Book<K, T>, le: (K, K) -> bool, run: seq<K>)
    requires Ascending(le, run) && (forall key :: key in b.index ==> EntryOk(b, key, b.index[key]))
    ensures forall q :: q in AcceptedPairs(b, run) <==>
              q.key in run && q.key in b.index && b.index[q.key].first == SelectedAccepted(q.at)
    ensures DistinctPositions(AcceptedPairs(b, run))
    decreases |run|
  {
    if run != [] {
      AcceptedPairsAre(b, le, run[1..]);
      assert run == [run[0]] + run[1..];
      var pairs := AcceptedPairs(b, run);
      if run[0] in b.index && b.index[run[0]].first.SelectedAccepted? {
        var at := b.index[run[0]].first.at;
        assert EntryOk(b, run[0], b.index[run[0]]);
        forall j | 1 <= j < |pairs| ensures pairs[j].at != at {
          assert pairs[j] in AcceptedPairs(b, run[1..]);
          assert EntryOk(b, pairs[j].key, b.index[pairs[j].key]);
        }
      }
    }
  }

  /** The positions the oracle would read, found without the index. */
  ghost function FirstPositions<K, T>(log: Log<K, T>, inRun: K -> bool): Pairs<K> {
    if log == [] then []
    else
      var n := |log| - 1;
      var picked := FirstOf(log[..n], log[n].0) == NoOccurrence && log[n].1.Accepted? && inRun(log[n].0);
      if picked then FirstPositions(log[..n], inRun) + [Place(n, log[n].0)] else FirstPositions(log[..n], inRun)
  }

  lemma {:induction false} FirstOfSome<K(!new), T>(log: Log<K, T>, key: K, i: nat)
    requires i < |log| && log[i].0 == key
    ensures FirstOf(log, key) != NoOccurrence
    decreases |log|
  {
    if i < |log| - 1 { FirstOfSome(log[..|log| - 1], key, i); }
  }

  lemma NewKey<K(!new), T>(before: Log<K, T>, key: K)
    ensures FirstOf(before, key) == NoOccurrence <==> forall i :: 0 <= i < |before| ==> before[i].0 != key
  {
    if forall i :: 0 <= i < |before| ==> before[i].0 != key {
      NoFirst(before, key);
    } else {
      var i :| 0 <= i < |before| && before[i].0 == key;
      FirstOfSome(before, key, i);
    }
  }

  /** The last occurrence is a first one exactly when its key is new. */
  lemma FirstAtEnd<K(!new), T>(log: Log<K, T>)
    requires log != []
    ensures var n := |log| - 1;
      FirstAt(log, log[n].0, n) <==> FirstOf(log[..n], log[n].0) == NoOccurrence
  {
    NewKey(log[..|log| - 1], log[|log| - 1].0);
  }

  lemma FirstAtBefore<K(!new), T>(log: Log<K, T>, key: K, at: nat)
    requires log != []
    ensures FirstAt(log, key, at) && at < |log| - 1 <==> FirstAt(log[..|log| - 1], key, at)
    ensures FirstAt(log, key, at) && at >= |log| - 1 ==> at == |log| - 1 && key == log[at].0
  {
  }

  lemma {:induction false} FirstPositionsAre<K(!new), T>(log: Log<K, T>, inRun: K -> bool)
    ensures Strict(FirstPositions(log, inRun))
    ensures forall q :: q in FirstPositions(log, inRun) <==>
              FirstAt(log, q.key, q.at) && log[q.at].1.Accepted? && inRun(q.key)
    decreases |log|
  {
    if log != [] {
      var n := |log| - 1;
      var before, key := log[..n], log[n].0;
      FirstPositionsAre(before, inRun);
      FirstAtEnd(log);
      StrictSnoc(FirstPositions(before, inRun), Place(n, key));
      forall q ensures q in FirstPositions(log, inRun) <==>
        FirstAt(log, q.key, q.at) && log[q.at].1.Accepted? && inRun(q.key)
      {
        FirstAtBefore(log, q.key, q.at);
        hide FirstAt, FirstOf;
        if q.at < n { assert log[q.at] == before[q.at]; }
      }
    }
  }

  lemma ReadSnoc<K(!new), T>(b: Book<K, T>, pairs: Pairs<K>, at: nat, rows: seq<(K, T)>)
    requires at < |b.occurrences| && b.occurrences[at].1.Accepted? && ReadAccepted(b, pairs) == Some(rows)
    ensures ReadAccepted(b, pairs + [Place(at, b.occurrences[at].0)]) ==
            Some(rows + [(b.occurrences[at].0, b.occurrences[at].1.value)])
  {
    assert (pairs + [Place(at, b.occurrences[at].0)])[..|pairs|] == pairs;
  }

  lemma FilterRowsSnoc<K, T>(rows: seq<(K, T)>, row: (K, T), inRun: K -> bool)
    ensures FilterRows(rows + [row], inRun) ==
            if inRun(row.0) then FilterRows(rows, inRun) + [row] else FilterRows(rows, inRun)
  {
    assert (rows + [row])[..|rows|] == rows;
  }

  /** One more occurrence adds a row and its position, or neither. */
  lemma FirstsStep<K(!new), T>(log: Log<K, T>, inRun: K -> bool)
    requires log != []
    ensures var n := |log| - 1;
      var before, key, o := log[..n], log[n].0, log[n].1;
      var isNew := FirstOf(before, key) == NoOccurrence && o.Accepted?;
      && AcceptedFirsts(log) == (if isNew then AcceptedFirsts(before) + [(key, o.value)] else AcceptedFirsts(before))
      && FirstPositions(log, inRun) ==
         (if isNew && inRun(key) then FirstPositions(before, inRun) + [Place(n, key)]
          else FirstPositions(before, inRun))
  {
    hide FirstOf;
  }

  lemma NothingReadBack<K(!new), T>(b: Book<K, T>, inRun: K -> bool)
    ensures ReadAccepted(b, FirstPositions<K, T>([], inRun)) == Some(FilterRows(AcceptedFirsts<K, T>([]), inRun))
  {
  }

  lemma {:induction false} PositionsReadBack<K(!new), T>(b: Book<K, T>, n: nat, inRun: K -> bool)
    requires n <= |b.occurrences|
    ensures ReadAccepted(b, FirstPositions(b.occurrences[..n], inRun)) ==
            Some(FilterRows(AcceptedFirsts(b.occurrences[..n]), inRun))
    decreases n
  {
    hide FirstOf, FirstPositions, AcceptedFirsts, FilterRows, ReadAccepted;
    if n == 0 {
      NothingReadBack(b, inRun);
    } else {
      var log, before := b.occurrences[..n], b.occurrences[..n - 1];
      PositionsReadBack(b, n - 1, inRun);
      assert log[..n - 1] == before && log[n - 1] == b.occurrences[n - 1];
      FirstsStep(log, inRun);
      var key, o := log[n - 1].0, log[n - 1].1;
      if FirstOf(before, key) == NoOccurrence && o.Accepted? {
        FilterRowsSnoc(AcceptedFirsts(before), (key, o.value), inRun);
        if inRun(key) {
          ReadSnoc(b, FirstPositions(before, inRun), n - 1, FilterRows(AcceptedFirsts(before), inRun));
        }
      }
    }
  }

  /** Main result: the accepted run is the source's first occurrences that are acceptances of
      the run's keys, in source order, and drift is never reported. */
  lemma AcceptedRunAnswers<K(!new), T>(b: Book<K, T>, taken: Log<K, T>, le: (K, K) -> bool, keys: seq<K>, start: K,
                                       inRun: K -> bool)
    requires Coherent(b) && SameAnswers(b.occurrences, taken)
    requires TotalOrder(le) && LawfulRun(le, start, inRun) && Lists(le, keys, b.index)
    ensures AcceptedRun(b, le, keys, start, inRun) == Some(FilterRows(AcceptedFirsts(taken), inRun))
  {
    var run := Run(le, keys, start, inRun);
    RunIsExact(le, keys, start, inRun);
    AcceptedPairsAre(b, le, run);
    var pairs := AcceptedPairs(b, run);
    SortSorts(pairs);
    var firsts := FirstPositions(b.occurrences, inRun);
    FirstPositionsAre(b.occurrences, inRun);
    forall q ensures q in SortPairs(pairs) <==> q in firsts {
      SelectedIsFirst(b, q.key, q.at);
    }
    StrictUnique(SortPairs(pairs), firsts);
    assert b.occurrences[..|b.occurrences|] == b.occurrences;
    PositionsReadBack(b, |b.occurrences|, inRun);
  }

  lemma SelectedIsFirst<K(!new), T>(b: Book<K, T>, key: K, at: nat)
    requires Coherent(b)
    ensures key in b.index && b.index[key].first == SelectedAccepted(at) <==>
            FirstAt(b.occurrences, key, at) && b.occurrences[at].1.Accepted?
  {
    if key in b.index {
      var e := b.index[key];
      assert EntryOk(b, key, e);
      if FirstAt(b.occurrences, key, at) {
        var first := if e.first.SelectedAccepted? then e.first.at else b.refusals[e.first.id.index];
        assert FirstAt(b.occurrences, key, first);
        assert first == at;
      }
    }
  }

  // ----- the refused run

  /** The run's refused keys, with the slot of the refusal. */
  function RefusedPairs<K(==), T>(b: Book<K, T>, run: seq<K>): Pairs<K> {
    if run == [] then []
    else
      var rest := RefusedPairs(b, run[1..]);
      if run[0] in b.index && b.index[run[0]].refused.Some?
      then [Place(b.index[run[0]].refused.value.index, run[0])] + rest
      else rest
  }

  function ReadRefused<K(==), T>(b: Book<K, T>, pairs: Pairs<K>): Option<seq<K>> {
    if pairs == [] then Some([])
    else
      var Place(slot, key) := pairs[|pairs| - 1];
      match ReadRefused(b, pairs[..|pairs| - 1])
      case None => None
      case Some(rows) =>
        if slot >= |b.refusals| then None
        else
          var at := b.refusals[slot];
          if at < |b.occurrences| && b.occurrences[at].0 == key && b.occurrences[at].1.Refused?
          then Some(rows + [key]) else None
  }

  function RefusedRun<K(==), T>(b: Book<K, T>, le: (K, K) -> bool, keys: seq<K>, start: K, inRun: K -> bool)
    : Option<seq<K>>
  {
    ReadRefused(b, SortPairs(RefusedPairs(b, Run(le, keys, start, inRun))))
  }

  lemma {:induction false} PositionsAscend<K(!new), T>(log: Log<K, T>)
    ensures forall i, j :: 0 <= i < j < |RefusedPositions(log)| ==> RefusedPositions(log)[i] < RefusedPositions(log)[j]
    ensures forall i :: 0 <= i < |RefusedPositions(log)| ==> RefusedPositions(log)[i] < |log|
    decreases |log|
  {
    if log != [] { PositionsAscend(log[..|log| - 1]); }
  }

  /** The index entry of a refused key names its place among the refused keys. */
  lemma SlotIsPlace<K(!new), T>(b: Book<K, T>, key: K, slot: nat)
    requires Coherent(b)
    ensures key in b.index && b.index[key].refused.Some? && b.index[key].refused.value.index == slot <==>
            slot < |RefusedKeys(b.occurrences)| && RefusedKeys(b.occurrences)[slot] == key
  {
    SlotsAreRefusedKeys(b.occurrences);
    PositionsAscend(b.occurrences);
    if key in b.index { assert EntryOk(b, key, b.index[key]); }
    if slot < |b.refusals| && RefusedKeys(b.occurrences)[slot] == key {
      PositionsAreRefused(b.occurrences, slot);
      assert RefusedAt(b.occurrences, key, b.refusals[slot]);
      var id := b.index[key].refused.value;
      assert RefusedAt(b.occurrences, key, b.refusals[id.index]);
      assert b.refusals[id.index] == b.refusals[slot];
    }
  }

  lemma {:induction false} RefusedPairsAre<K(!new), T>(b: Book<K, T>, le: (K, K) -> bool, run: seq<K>)
    requires Ascending(le, run) && Coherent(b)
    ensures forall q :: q in RefusedPairs(b, run) <==>
              && q.key in run && q.key in b.index
              && b.index[q.key].refused.Some? && b.index[q.key].refused.value.index == q.at
    ensures DistinctPositions(RefusedPairs(b, run))
    decreases |run|
  {
    hide Coherent;
    if run != [] {
      RefusedPairsAre(b, le, run[1..]);
      assert run == [run[0]] + run[1..];
      var pairs := RefusedPairs(b, run);
      if run[0] in b.index && b.index[run[0]].refused.Some? {
        var slot := b.index[run[0]].refused.value.index;
        SlotIsPlace(b, run[0], slot);
        forall j | 1 <= j < |pairs| ensures pairs[j].at != slot {
          assert pairs[j] in RefusedPairs(b, run[1..]);
          SlotIsPlace(b, pairs[j].key, slot);
        }
      }
    }
  }

  ghost function Placed<K>(keys: seq<K>, inRun: K -> bool): Pairs<K> {
    if keys == [] then []
    else
      var n := |keys| - 1;
      if inRun(keys[n]) then Placed(keys[..n], inRun) + [Place(n, keys[n])] else Placed(keys[..n], inRun)
  }

  lemma {:induction false} PlacedAre<K(!new)>(keys: seq<K>, inRun: K -> bool)
    ensures Strict(Placed(keys, inRun))
    ensures forall q :: q in Placed(keys, inRun) <==> q.at < |keys| && keys[q.at] == q.key && inRun(q.key)
    decreases |keys|
  {
    if keys != [] {
      var n := |keys| - 1;
      var before := Placed(keys[..n], inRun);
      PlacedAre(keys[..n], inRun);
      StrictSnoc(before, Place(n, keys[n]));
      assert Placed(keys, inRun) == if inRun(keys[n]) then before + [Place(n, keys[n])] else before;
      hide Placed, Strict;
      forall q ensures q in Placed(keys, inRun) <==> q.at < |keys| && keys[q.at] == q.key && inRun(q.key) {
        if q.at < n { assert keys[..n][q.at] == keys[q.at]; }
      }
    }
  }

  lemma ReadRefusedSnoc<K(!new), T>(b: Book<K, T>, pairs: Pairs<K>, slot: nat, rows: seq<K>, key: K)
    requires slot < |b.refusals| && RefusedAt(b.occurrences, key, b.refusals[slot])
    requires ReadRefused(b, pairs) == Some(rows)
    ensures ReadRefused(b, pairs + [Place(slot, key)]) == Some(rows + [key])
  {
    assert (pairs + [Place(slot, key)])[..|pairs|] == pairs;
  }

  lemma {:induction false} PlacesReadBack<K(!new), T>(b: Book<K, T>, keys: seq<K>, inRun: K -> bool)
    requires |keys| <= |b.refusals|
    requires forall j :: 0 <= j < |keys| ==> RefusedAt(b.occurrences, keys[j], b.refusals[j])
    ensures ReadRefused(b, Placed(keys, inRun)) == Some(Filter(keys, inRun))
    decreases |keys|
  {
    if keys != [] {
      var n := |keys| - 1;
      PlacesReadBack(b, keys[..n], inRun);
      ReadRefusedSnoc(b, Placed(keys[..n], inRun), n, Filter(keys[..n], inRun), keys[n]);
    }
  }

  /** Main result: the refused run is the run's refused keys in the source order of each key's
      first refusal, and drift is never reported. */
  lemma RefusedRunAnswers<K(!new), T>(b: Book<K, T>, taken: Log<K, T>, le: (K, K) -> bool, keys: seq<K>, start: K,
                                      inRun: K -> bool)
    requires Coherent(b) && SameAnswers(b.occurrences, taken)
    requires TotalOrder(le) && LawfulRun(le, start, inRun) && Lists(le, keys, b.index)
    ensures RefusedRun(b, le, keys, start, inRun) == Some(Filter(RefusedKeys(taken), inRun))
  {
    var run := Run(le, keys, start, inRun);
    var refused := RefusedKeys(b.occurrences);
    RunIsExact(le, keys, start, inRun);
    RefusedPairsAre(b, le, run);
    SortSorts(RefusedPairs(b, run));
    PlacedAre(refused, inRun);
    forall q ensures q in SortPairs(RefusedPairs(b, run)) <==> q in Placed(refused, inRun) {
      SlotIsPlace(b, q.key, q.at);
    }
    StrictUnique(SortPairs(RefusedPairs(b, run)), Placed(refused, inRun));
    SlotsAreRefusedKeys(b.occurrences);
    forall j: nat | j < |refused| ensures RefusedAt(b.occurrences, refused[j], b.refusals[j]) {
      PositionsAreRefused(b.occurrences, j);
    }
    PlacesReadBack(b, refused, inRun);
  }

  // ----- the one keyed run in production: a resource member under its owner

  datatype MemberKey<O, M> = MemberKey(owner: O, member: M)

  /** The derived order: the owner compares first. */
  function MemberLe<O(==), M>(ownerLe: (O, O) -> bool,
                              memberLe: (M, M) -> bool): (MemberKey<O, M>, MemberKey<O, M>) -> bool {
    (a: MemberKey<O, M>, b: MemberKey<O, M>) =>
      if a.owner == b.owner then memberLe(a.member, b.member) else ownerLe(a.owner, b.owner)
  }

  /** An owner's members, begun at the least member name, are a lawful run of that order. */
  lemma MemberRunIsLawful<O(!new), M(!new)>(ownerLe: (O, O) -> bool, memberLe: (M, M) -> bool, least: M, owner: O)
    requires TotalOrder(ownerLe) && TotalOrder(memberLe) && forall m :: memberLe(least, m)
    ensures TotalOrder(MemberLe(ownerLe, memberLe))
    ensures forall a, b :: MemberLe(ownerLe, memberLe)(a, b) <==>
              (a.owner != b.owner && ownerLe(a.owner, b.owner)) || (a.owner == b.owner && memberLe(a.member, b.member))
    ensures LawfulRun(MemberLe(ownerLe, memberLe), MemberKey(owner, least), (k: MemberKey<O, M>) => k.owner == owner)
  {
    var le := MemberLe(ownerLe, memberLe);
    forall a, b ensures le(a, b) || le(b, a) {
      assert ownerLe(a.owner, b.owner) || ownerLe(b.owner, a.owner);
      assert memberLe(a.member, b.member) || memberLe(b.member, a.member);
    }
    forall a, b | le(a, b) && le(b, a) ensures a == b {
      assert a.owner == b.owner;
      assert memberLe(a.member, b.member) && memberLe(b.member, a.member);
    }
    forall a, b, c | le(a, b) && le(b, c) ensures le(a, c) {
      if a.owner == b.owner && b.owner == c.owner {
        assert memberLe(a.member, b.member) && memberLe(b.member, c.member);
      } else if a.owner != b.owner && b.owner != c.owner {
        assert ownerLe(a.owner, b.owner) && ownerLe(b.owner, c.owner);
      }
    }
  }
}
