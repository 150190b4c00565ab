/**
 The ledger object itself, charging a budget shared by handle, and a whole pass of several
 ledgers over one budget.
 */
module DeclarationLedger {
  import opened Wrappers
  import opened Declarations
  import opened DeclarationOracle
  import opened DeclarationRuns

  // ----- several ledgers, one budget, any interleaving

  datatype Pass<K(==), T> = Pass(books: seq<Book<K, T>>, charged: nat)

  datatype Call<K, T> = Call(ledger: nat, key: K, occurrence: Occurrence<T>)

  /** One `declare`: recorded, or refused with everything left as it was. */
  function Stepped<K(==), T>(p: Pass<K, T>, c: Call<K, T>): Pass<K, T> {
    if c.ledger >= |p.books| then p
    else
      match Declared(p.books[c.ledger], p.charged, c.key, c.occurrence)
      case Ok((book, charged)) => Pass(p.books[c.ledger := book], charged)
      case Err(_) => p
  }

  ghost function After<K, T>(p: Pass<K, T>, script: seq<Call<K, T>>): Pass<K, T> {
    if script == [] then p
    else Stepped(After(p, script[..|script| - 1]), script[|script| - 1])
  }

  /** The calls of the script that ledger `i` recorded, as the source wrote them. */
  ghost function Taken<K, T>(p: Pass<K, T>, script: seq<Call<K, T>>, i: nat): Log<K, T> {
    if script == [] then []
    else
      var before, c := script[..|script| - 1], script[|script| - 1];
      var books := After(p, before).books;
      if c.ledger == i < |books| && Declared(books[i], After(p, before).charged, c.key, c.occurrence).Ok?
      then Taken(p, before, i) + [(c.key, c.occurrence)] else Taken(p, before, i)
  }

  ghost function TotalRetained<K, T>(books: seq<Book<K, T>>): nat {
    if books == [] then 0 else TotalRetained(books[..|books| - 1]) + Retained(books[|books| - 1].occurrences)
  }

  lemma {:induction false} TotalUpdate<K, T>(books: seq<Book<K, T>>, i: nat, book: Book<K, T>)
    requires i < |books|
    ensures TotalRetained(books[i := book]) + Retained(books[i].occurrences) ==
            TotalRetained(books) + Retained(book.occurrences)
    ensures Retained(books[i].occurrences) <= TotalRetained(books)
    decreases |books|
  {
    var n := |books| - 1;
    if i == n {
      assert books[i := book][..n] == books[..n];
    } else {
      assert books[i := book][..n] == books[..n][i := book];
      TotalUpdate(books[..n], i, book);
    }
  }

  /** Every book is coherent and the charged bytes are exactly what all of them hold. */
  ghost predicate Sound<K, T>(p: Pass<K, T>) {
    && p.charged == TotalRetained(p.books) <= MAX_DECLARATION_LEDGER_BYTES
    && forall i :: 0 <= i < |p.books| ==> Coherent(p.books[i])
  }

  /** In a sound pass no `declare` reports drift. */
  lemma NoDrift<K, T>(p: Pass<K, T>, c: Call<K, T>)
    requires Sound(p) && c.ledger < |p.books|
    ensures |p.books[c.ledger].refusals| < U32_RANGE
    ensures Declared(p.books[c.ledger], p.charged, c.key, c.occurrence) != Err(IndexDrift)
  {
    hide Coherent, Declared;
    TotalUpdate(p.books, c.ledger, p.books[c.ledger]);
    RefusalsBelowWidth(p.books[c.ledger]);
    DeclaredCoherent(p.books[c.ledger], p.charged, c.key, c.occurrence);
  }

  lemma SteppedSound<K, T>(p: Pass<K, T>, c: Call<K, T>)
    requires Sound(p)
    ensures Sound(Stepped(p, c)) && |Stepped(p, c).books| == |p.books|
  {
    hide Coherent, Declared;
    if c.ledger < |p.books| {
      var r := Declared(p.books[c.ledger], p.charged, c.key, c.occurrence);
      NoDrift(p, c);
      DeclaredCoherent(p.books[c.ledger], p.charged, c.key, c.occurrence);
      if r.Ok? {
        DeclaredCharges(p.books[c.ledger], p.charged, c.key, c.occurrence);
        TotalUpdate(p.books, c.ledger, r.value.0);
      }
    }
  }

  ghost predicate Fresh<K, T>(p: Pass<K, T>) {
    p.charged == 0 && forall i :: 0 <= i < |p.books| ==> p.books[i] == Empty(p.books[i].namespace)
  }

  lemma {:induction false} FreshSound<K, T>(books: seq<Book<K, T>>)
    requires forall i :: 0 <= i < |books| ==> books[i] == Empty(books[i].namespace)
    ensures Sound(Pass(books, 0))
    decreases |books|
  {
    if books != [] { FreshSound(books[..|books| - 1]); }
  }

  /** Main result: whatever is declared into whichever ledger in whatever order, the budget is
      charged exactly the bytes held by all ledgers together, gaps adopted on merge included,
      within the ceiling; and every book stays coherent. */
  lemma {:induction false} PassConserves<K, T>(p: Pass<K, T>, script: seq<Call<K, T>>)
    requires Fresh(p)
    ensures Sound(After(p, script)) && |After(p, script).books| == |p.books|
    decreases |script|
  {
    if script == [] {
      FreshSound(p.books);
    } else {
      PassConserves(p, script[..|script| - 1]);
      SteppedSound(After(p, script[..|script| - 1]), script[|script| - 1]);
    }
  }

  /** Main result: after any script each ledger's log answers like the calls it took. */
  lemma {:induction false} PassAnswers<K(!new), T>(p: Pass<K, T>, script: seq<Call<K, T>>, i: nat)
    requires Fresh(p) && i < |p.books|
    ensures |After(p, script).books| == |p.books|
    ensures SameAnswers(After(p, script).books[i].occurrences, Taken(p, script, i))
    decreases |script|
  {
    hide Coherent, Declared, SameAnswers;
    if script == [] {
      SameItself(Taken(p, script, i));
    } else {
      var before, c := script[..|script| - 1], script[|script| - 1];
      PassAnswers(p, before, i);
      PassConserves(p, before);
      var q := After(p, before);
      if c.ledger == i && Declared(q.books[i], q.charged, c.key, c.occurrence).Ok? {
        DeclaredMirrors(q.books[i], q.charged, c.key, c.occurrence, Taken(p, before, i));
      }
    }
  }

  /** Which calls are taken, in the source's own terms: ledger `i` takes the next call exactly when
      what the call would newly retain still fits the budget. */
  lemma TakenIffFits<K(!new), T>(p: Pass<K, T>, script: seq<Call<K, T>>, c: Call<K, T>)
    requires Fresh(p) && c.ledger < |p.books|
    ensures var before := Taken(p, script, c.ledger);
      Taken(p, script + [c], c.ledger) ==
        if After(p, script).charged + NewlyRetained(before, c.key, c.occurrence) <= MAX_DECLARATION_LEDGER_BYTES
        then before + [(c.key, c.occurrence)] else before
  {
    hide Coherent, Declared, SameAnswers, NewlyRetained;
    assert (script + [c])[..|script|] == script;
    PassConserves(p, script);
    PassAnswers(p, script, c.ledger);
    var q := After(p, script);
    RefusedIffOver(q.books[c.ledger], q.charged, c.key, c.occurrence, Taken(p, script, c.ledger));
  }

  /** So after any script of any pass, every read of every ledger is the oracle's answer over the
      calls that ledger took. */
  lemma PassReads<K(!new), T>(p: Pass<K, T>, script: seq<Call<K, T>>, i: nat, key: K,
                              le: (K, K) -> bool, keys: seq<K>, start: K, inRun: K -> bool)
    requires Fresh(p) && i < |p.books| == |After(p, script).books|
    requires TotalOrder(le) && LawfulRun(le, start, inRun) && Lists(le, keys, After(p, script).books[i].index)
    ensures var b, taken := After(p, script).books[i], Taken(p, script, i);
            && Lookup(b, key).Some? && AnswersLike(Lookup(b, key).value, taken, key)
            && AcceptedRun(b, le, keys, start, inRun) == Some(FilterRows(AcceptedFirsts(taken), inRun))
            && RefusedRun(b, le, keys, start, inRun) == Some(Filter(RefusedKeys(taken), inRun))
  {
    hide Coherent, SameAnswers, Declared;
    PassConserves(p, script);
    PassAnswers(p, script, i);
    var b, taken := After(p, script).books[i], Taken(p, script, i);
    LookupAnswers(b, taken, key);
    AcceptedRunAnswers(b, taken, le, keys, start, inRun);
    RefusedRunAnswers(b, taken, le, keys, start, inRun);
  }

  lemma SameItself<K(!new), T>(log: Log<K, T>)
    ensures SameAnswers(log, log)
  {
  }

  // ----- the objects

  class DeclarationBudget {
    var charged: nat

    constructor ()
      ensures charged == 0
    {
      charged := 0;
    }

    method ChargeBytes(bytes: nat) returns (fits: bool)
      modifies this
      ensures fits <==> old(charged) + bytes <= MAX_DECLARATION_LEDGER_BYTES
      ensures charged == if fits then old(charged) + bytes else old(charged)
    {
      var total := charged + bytes;
      if total > MAX_DECLARATION_LEDGER_BYTES { return false; }
      charged := total;
      return true;
    }
  }

  function InsertKey<K(==)>(le: (K, K) -> bool, keys: seq<K>, key: K): seq<K> {
    if keys == [] then [key]
    else if keys[0] == key then keys
    else if le(key, keys[0]) then [key] + keys
    else [keys[0]] + InsertKey(le, keys[1..], key)
  }

  ghost predicate Below<K>(le: (K, K) -> bool, key: K, keys: seq<K>) {
    forall j :: 0 <= j < |keys| ==> le(key, keys[j]) && key != keys[j]
  }

  lemma AscendingCons<K>(le: (K, K) -> bool, key: K, keys: seq<K>)
    ensures Ascending(le, [key] + keys) <==> Below(le, key, keys) && Ascending(le, keys)
  {
    var all := [key] + keys;
    if Ascending(le, all) {
      forall j | 0 <= j < |keys| ensures le(key, keys[j]) && key != keys[j] {
        assert all[0] == key && all[j + 1] == keys[j];
      }
      forall i, j | 0 <= i < j < |keys| ensures le(keys[i], keys[j]) && keys[i] != keys[j] {
        assert all[i + 1] == keys[i] && all[j + 1] == keys[j];
      }
    }
  }

  /** What comes before the head of an ascending list comes before all of it. */
  lemma BelowHead<K(!new)>(le: (K, K) -> bool, key: K, head: K, rest: seq<K>)
    requires TotalOrder(le) && le(key, head) && key != head && Below(le, head, rest)
    ensures Below(le, key, [head] + rest)
  {
    forall j | 0 <= j < |rest| ensures le(key, rest[j]) && key != rest[j] {
      assert le(head, rest[j]);
    }
  }

  lemma Comparable<K(!new)>(le: (K, K) -> bool, a: K, b: K)
    requires TotalOrder(le)
    ensures le(a, b) || le(b, a)
  {
  }

  lemma {:induction false} InsertKeyAscends<K(!new)>(le: (K, K) -> bool, keys: seq<K>, key: K)
    requires TotalOrder(le) && Ascending(le, keys)
    ensures Ascending(le, InsertKey(le, keys, key))
    ensures forall k :: k in InsertKey(le, keys, key) <==> k in keys || k == key
    decreases |keys|
  {
    hide TotalOrder, Ascending;
    if keys == [] {
      AscendingCons(le, key, []);
      assert Ascending(le, [key]) by { assert [key] == [key] + []; AscendingNil(le); }
    } else {
      var head, rest := keys[0], keys[1..];
      assert keys == [head] + rest;
      AscendingCons(le, head, rest);
      Comparable(le, key, head);
      if head != key && le(key, head) {
        BelowHead(le, key, head, rest);
        AscendingCons(le, key, keys);
      } else if head != key {
        InsertKeyAscends(le, rest, key);
        var grown := InsertKey(le, rest, key);
        forall j | 0 <= j < |grown| ensures le(head, grown[j]) && head != grown[j] {
          assert grown[j] in grown;
          if grown[j] in rest { var i :| 0 <= i < |rest| && rest[i] == grown[j]; }
        }
        AscendingCons(le, head, grown);
      }
    }
  }

  lemma AscendingNil<K>(le: (K, K) -> bool)
    ensures Ascending(le, [])
  {
  }

  lemma InsertKeyLists<K(!new)>(le: (K, K) -> bool, keys: seq<K>, index: map<K, KeyOccurrences>, key: K,
                                index': map<K, KeyOccurrences>)
    requires TotalOrder(le) && Lists(le, keys, index) && index'.Keys == index.Keys + {key}
    ensures Lists(le, if key in index then keys else InsertKey(le, keys, key), index')
  {
    InsertKeyAscends(le, keys, key);
  }

  class DeclarationLedger<K(==,!new), T> {
    const namespace: nat
    const le: (K, K) -> bool
    const budget: DeclarationBudget
    var occurrences: Log<K, T>
    var index: map<K, KeyOccurrences>
    /** The index's keys in key order. */
    var keys: seq<K>
    var refusals: seq<nat>
    /** Every call recorded so far, as the source wrote it. */
    ghost var taken: Log<K, T>

    function AsBook(): Book<K, T>
      reads this
    {
      Book(namespace, occurrences, index, refusals)
    }

    ghost predicate Valid()
      reads this, budget
    {
      && Coherent(AsBook())
      && SameAnswers(occurrences, taken)
      && TotalOrder(le) && Lists(le, keys, index)
      && Retained(occurrences) <= budget.charged <= MAX_DECLARATION_LEDGER_BYTES
    }

    constructor (namespace: nat, le: (K, K) -> bool, budget: DeclarationBudget)
      requires TotalOrder(le) && budget.charged <= MAX_DECLARATION_LEDGER_BYTES
      ensures Valid() && taken == [] && this.budget == budget && this.namespace == namespace && this.le == le
    {
      this.namespace, this.le, this.budget := namespace, le, budget;
      occurrences, index, keys, refusals, taken := [], map[], [], [], [];
      new;
      SameItself(taken);
    }

    /** Record one occurrence. A refused call changes nothing; drift is never the reason. */
    method Declare(key: K, occurrence: Occurrence<T>) returns (r: Result<(), DeclareError>)
      requires Valid()
      modifies this, budget
      ensures Valid()
      ensures r != Err(IndexDrift)
      ensures r.Ok? <==>
        old(budget.charged) + NewlyRetained(old(taken), key, occurrence) <= MAX_DECLARATION_LEDGER_BYTES
      ensures r.Ok? ==> taken == old(taken) + [(key, occurrence)]
      ensures r.Err? ==>
        AsBook() == old(AsBook()) && keys == old(keys) && taken == old(taken) && budget.charged == old(budget.charged)
      ensures budget.charged - old(budget.charged) == Retained(occurrences) - old(Retained(occurrences))
      ensures match Declared(old(AsBook()), old(budget.charged), key, occurrence)
              case Ok((book, charged)) => r.Ok? && AsBook() == book && budget.charged == charged
              case Err(e) => r == Err(e)
    {
      ghost var was, listed := AsBook(), keys;
      hide Coherent, SameAnswers, Retained, Lists, TotalOrder, InsertKey, Declared, NewlyRetained;
      BeforeDeclare(was, budget.charged, key, occurrence, taken);
      RefusedIffOver(was, budget.charged, key, occurrence, taken);
      r := Record(key, occurrence);
      if r.Ok? {
        taken := taken + [(key, occurrence)];
        KeysGrow(was, old(budget.charged), key, occurrence);
        InsertKeyLists(le, listed, was.index, key, index);
      }
    }

    /** Enter the occurrence in the log and the index, charging what it retains. */
    method Record(key: K, occurrence: Occurrence<T>) returns (r: Result<(), DeclareError>)
      modifies this`occurrences, this`index, this`keys, this`refusals, budget
      ensures match Declared(old(AsBook()), old(budget.charged), key, occurrence)
              case Ok((book, charged)) => r.Ok? && AsBook() == book && budget.charged == charged
              case Err(e) => r == Err(e) && AsBook() == old(AsBook()) && budget.charged == old(budget.charged)
      ensures keys == if r.Err? || key in old(index) then old(keys) else InsertKey(le, old(keys), key)
    {
      var position := |occurrences|;
      match occurrence {
        case Accepted(_) =>
          if key !in index {
            index := index[key := KeyOccurrences(SelectedAccepted(position), None)];
            keys := InsertKey(le, keys, key);
          }
        case Refused(summary) =>
          if key in index && index[key].refused.Some? {
            r := MergeRefusal(index[key].refused.value, summary);
            return;
          }
          var fits := budget.ChargeBytes(summary.RetainedBytes());
          if !fits { return Err(LedgerFull); }
          var id := RefusalId(namespace, |refusals| % U32_RANGE);
          refusals := refusals + [position];
          if key in index {
            index := index[key := index[key].(refused := Some(id))];
          } else {
            index := index[key := KeyOccurrences(SelectedRefused(id), Some(id))];
            keys := InsertKey(le, keys, key);
          }
      }
      occurrences := occurrences + [(key, occurrence)];
      r := Ok(());
    }

    /** Fold a further refusal into the summary `id` addresses. */
    method MergeRefusal(id: RefusalId, summary: Summary) returns (r: Result<(), DeclareError>)
      modifies this`occurrences, budget
      ensures match MergedRefusal(old(AsBook()), old(budget.charged), id, summary)
              case Ok((book, charged)) => r.Ok? && AsBook() == book && budget.charged == charged
              case Err(e) => r == Err(e) && AsBook() == old(AsBook()) && budget.charged == old(budget.charged)
    {
      if id.index >= |refusals| { return Err(IndexDrift); }
      var at := refusals[id.index];
      if at >= |occurrences| || !occurrences[at].1.Refused? { return Err(IndexDrift); }
      var first := occurrences[at].1.summary;
      var gap := first.gap;
      if first.gap.None? && summary.gap.Some? {
        var fits := budget.ChargeBytes(|summary.gap.value|);
        if !fits { return Err(LedgerFull); }
        gap := summary.gap;
      }
      var further := Saturate16(Saturate16(first.further + summary.further) + 1);
      occurrences := occurrences[at := (occurrences[at].0, Refused(first.(gap := gap, further := further)))];
      r := Ok(());
    }

    /** What `key` resolves to. */
    function Lookup(key: K): (r: Option<Binding<T>>)
      requires Valid()
      reads this, budget
      ensures r.Some? && AnswersLike(r.value, taken, key)
    {
      LookupAnswers(AsBook(), taken, key);
      Declarations.Lookup(AsBook(), key)
    }

    function AcceptedRun(start: K, inRun: K -> bool): (r: Option<seq<(K, T)>>)
      requires Valid() && LawfulRun(le, start, inRun)
      reads this, budget
      ensures r == Some(FilterRows(AcceptedFirsts(taken), inRun))
    {
      AcceptedRunAnswers(AsBook(), taken, le, keys, start, inRun);
      DeclarationRuns.AcceptedRun(AsBook(), le, keys, start, inRun)
    }

    function RefusedRun(start: K, inRun: K -> bool): (r: Option<seq<K>>)
      requires Valid() && LawfulRun(le, start, inRun)
      reads this, budget
      ensures r == Some(Filter(RefusedKeys(taken), inRun))
    {
      RefusedRunAnswers(AsBook(), taken, le, keys, start, inRun);
      DeclarationRuns.RefusedRun(AsBook(), le, keys, start, inRun)
    }
  }

  lemma KeysGrow<K, T>(b: Book<K, T>, charged: nat, key: K, occurrence: Occurrence<T>)
    requires Declared(b, charged, key, occurrence).Ok?
    ensures Declared(b, charged, key, occurrence).value.0.index.Keys == b.index.Keys + {key}
  {
  }

  /** What a call will have done, known before it is made. */
  lemma BeforeDeclare<K(!new), T>(b: Book<K, T>, charged: nat, key: K, occurrence: Occurrence<T>, taken: Log<K, T>)
    requires Coherent(b) && SameAnswers(b.occurrences, taken)
    requires Retained(b.occurrences) <= charged <= MAX_DECLARATION_LEDGER_BYTES
    ensures |b.refusals| < U32_RANGE
    ensures var r := Declared(b, charged, key, occurrence);
            && r != Err(IndexDrift)
            && (r.Ok? ==>
                  && Coherent(r.value.0) && SameAnswers(r.value.0.occurrences, taken + [(key, occurrence)])
                  && r.value.1 - charged == Retained(r.value.0.occurrences) - Retained(b.occurrences)
                  && r.value.1 <= MAX_DECLARATION_LEDGER_BYTES)
  {
    hide Coherent, SameAnswers, Retained;
    RefusalsBelowWidth(b);
    DeclaredCoherent(b, charged, key, occurrence);
    if Declared(b, charged, key, occurrence).Ok? {
      DeclaredMirrors(b, charged, key, occurrence, taken);
      DeclaredCharges(b, charged, key, occurrence);
    }
  }
}
