/** Histories as the catalog stores them: runs of releases with one fact, as long as they
    can be (crates/stm32wb-catalog/src/merge.rs). */
module Runs {
  import opened Options

  /** A fact of the release with an index. */
  datatype Entry<T> = Entry(index: nat, fact: T)

  datatype Run<T> = Run(first: nat, last: nat, fact: T)

  /** Entries at successive indices with one fact become one run. */
  function RunsOf<T(==)>(entries: seq<Entry<T>>): (runs: seq<Run<T>>)
    ensures entries != [] ==> runs != []
  {
    if entries == [] then [] else
    var before, entry := RunsOf(entries[..|entries| - 1]), entries[|entries| - 1];
    var last := |before| - 1;
    if before != [] && before[last].last + 1 == entry.index && before[last].fact == entry.fact
    then before[..last] + [Run(before[last].first, entry.index, entry.fact)]
    else before + [Run(entry.index, entry.index, entry.fact)]
  }

  predicate Strict<T>(entries: seq<Entry<T>>) {
    forall i, j | 0 <= i < j < |entries| :: entries[i].index < entries[j].index
  }

  /** The fact recorded for a release. */
  function FactAt<T>(entries: seq<Entry<T>>, index: nat): Option<T> {
    if entries == [] then None
    else if entries[0].index == index then Some(entries[0].fact)
    else FactAt(entries[1..], index)
  }

  /** The fact of the first run covering a release. */
  function LookUp<T>(runs: seq<Run<T>>, index: nat): Option<T> {
    if runs == [] then None
    else if runs[0].first <= index <= runs[0].last then Some(runs[0].fact)
    else LookUp(runs[1..], index)
  }

  /** Disjoint ascending runs, none of which the next one continues. */
  ghost predicate Canonical<T>(runs: seq<Run<T>>) {
    && (forall k | 0 <= k < |runs| :: runs[k].first <= runs[k].last)
    && (forall j, k | 0 <= j < k < |runs| :: runs[j].last < runs[k].first)
    && (forall k | 0 < k < |runs| :: !Continues(runs, k))
  }

  ghost predicate Continues<T>(runs: seq<Run<T>>, k: nat)
    requires 0 < k < |runs|
  {
    runs[k - 1].last + 1 == runs[k].first && runs[k - 1].fact == runs[k].fact
  }

  // ----- lookups

  lemma {:induction false} LookUpAppend<T>(runs: seq<Run<T>>, more: seq<Run<T>>, index: nat)
    ensures LookUp(runs + more, index) ==
            if LookUp(runs, index).Some? then LookUp(runs, index) else LookUp(more, index)
  {
    if runs == [] {
      assert runs + more == more;
    } else {
      assert (runs + more)[1..] == runs[1..] + more;
      LookUpAppend(runs[1..], more, index);
    }
  }

  lemma {:induction false} FactAppend<T>(entries: seq<Entry<T>>, entry: Entry<T>, index: nat)
    ensures FactAt(entries + [entry], index) ==
            if FactAt(entries, index).Some? then FactAt(entries, index)
            else if entry.index == index then Some(entry.fact) else None
  {
    if entries != [] {
      assert (entries + [entry])[1..] == entries[1..] + [entry];
      FactAppend(entries[1..], entry, index);
    }
  }

  lemma {:induction false} FactBeyond<T>(entries: seq<Entry<T>>, index: nat)
    requires forall k | 0 <= k < |entries| :: entries[k].index != index
    ensures FactAt(entries, index) == None
  {
    if entries != [] {
      FactBeyond(entries[1..], index);
    }
  }

  lemma {:induction false} LookUpOutside<T>(runs: seq<Run<T>>, index: nat)
    requires forall k | 0 <= k < |runs| :: !(runs[k].first <= index <= runs[k].last)
    ensures LookUp(runs, index) == None
  {
    if runs != [] {
      LookUpOutside(runs[1..], index);
    }
  }

  lemma {:induction false} LookUpInside<T>(runs: seq<Run<T>>, index: nat, k: nat)
    requires Canonical(runs) && k < |runs| && runs[k].first <= index <= runs[k].last
    ensures LookUp(runs, index) == Some(runs[k].fact)
  {
    if k > 0 {
      CanonicalTail(runs);
      assert runs[0].last < runs[k].first;
      LookUpInside(runs[1..], index, k - 1);
    }
  }

  lemma {:induction false} CanonicalTail<T>(runs: seq<Run<T>>)
    requires Canonical(runs) && runs != []
    ensures Canonical(runs[1..])
  {
    forall k | 0 < k < |runs[1..]| ensures !Continues(runs[1..], k) {
      assert !Continues(runs, k + 1);
    }
  }

  // ----- runs of strictly ascending entries

  lemma {:induction false} RunsGrow<T>(entries: seq<Entry<T>>, entry: Entry<T>)
    ensures var before := RunsOf(entries);
            var last := |before| - 1;
            RunsOf(entries + [entry]) ==
            if before != [] && before[last].last + 1 == entry.index && before[last].fact == entry.fact
            then before[..last] + [Run(before[last].first, entry.index, entry.fact)]
            else before + [Run(entry.index, entry.index, entry.fact)]
  {
    assert (entries + [entry])[..|entries|] == entries;
  }

  lemma {:induction false} FewCanonical<T>(entries: seq<Entry<T>>)
    requires |entries| <= 1
    ensures Canonical(RunsOf(entries))
    ensures entries != [] ==> RunsOf(entries) == [Run(entries[0].index, entries[0].index, entries[0].fact)]
  {
    if entries != [] {
      assert entries[..0] == [];
    }
  }

  lemma {:induction false} StrictPrefix<T>(entries: seq<Entry<T>>)
    requires Strict(entries) && |entries| > 1
    ensures Strict(entries[..|entries| - 1])
    ensures entries[|entries| - 2].index < entries[|entries| - 1].index
  {
  }

  /** The runs of strictly ascending entries are canonical, and end with the last one. */
  lemma {:induction false} RunsCanonical<T>(entries: seq<Entry<T>>)
    requires Strict(entries)
    ensures Canonical(RunsOf(entries))
    ensures entries != [] ==>
              RunsOf(entries) != [] && RunsOf(entries)[|RunsOf(entries)| - 1].last == entries[|entries| - 1].index
  {
    hide *;
    if |entries| <= 1 {
      FewCanonical(entries);
    } else {
      var prefix, entry := entries[..|entries| - 1], entries[|entries| - 1];
      StrictPrefix(entries);
      RunsCanonical(prefix);
      assert entries == prefix + [entry];
      RunsGrow(prefix, entry);
      ExtendedCanonical(RunsOf(prefix), entry);
    }
  }

  lemma {:induction false} ExtendedCanonical<T>(before: seq<Run<T>>, entry: Entry<T>)
    requires Canonical(before) && before != [] && before[|before| - 1].last < entry.index
    ensures var last := |before| - 1;
            Canonical(if before[last].last + 1 == entry.index && before[last].fact == entry.fact
                      then before[..last] + [Run(before[last].first, entry.index, entry.fact)]
                      else before + [Run(entry.index, entry.index, entry.fact)])
  {
    var last := |before| - 1;
    if before[last].last + 1 == entry.index && before[last].fact == entry.fact {
      var runs := before[..last] + [Run(before[last].first, entry.index, entry.fact)];
      forall k | 0 < k < |runs| ensures !Continues(runs, k) {
        assert !Continues(before, k);
      }
    } else {
      var runs := before + [Run(entry.index, entry.index, entry.fact)];
      forall k | 0 < k < |runs| ensures !Continues(runs, k) {
        assert k < last + 1 ==> !Continues(before, k);
      }
    }
  }

  lemma {:induction false} LookUpOne<T>(run: Run<T>, index: nat)
    ensures LookUp([run], index) == if run.first <= index <= run.last then Some(run.fact) else None
  {
  }

  /** A run extended by one release, or a new one, gives that release its fact. */
  lemma {:induction false} LookUpGrows<T>(before: seq<Run<T>>, entry: Entry<T>, index: nat)
    ensures LookUp(before + [Run(entry.index, entry.index, entry.fact)], index) ==
            if LookUp(before, index).Some? then LookUp(before, index)
            else if entry.index == index then Some(entry.fact) else None
    ensures var last := |before| - 1;
            before != [] && before[last].first <= before[last].last && before[last].last + 1 == entry.index
            && before[last].fact == entry.fact ==>
              LookUp(before[..last] + [Run(before[last].first, entry.index, entry.fact)], index) ==
              if LookUp(before, index).Some? then LookUp(before, index)
              else if entry.index == index then Some(entry.fact) else None
  {
    hide LookUp;
    var run := Run(entry.index, entry.index, entry.fact);
    LookUpAppend(before, [run], index);
    LookUpOne(run, index);
    if before != [] {
      var last := |before| - 1;
      var extended := Run(before[last].first, entry.index, entry.fact);
      assert before == before[..last] + [before[last]];
      LookUpAppend(before[..last], [before[last]], index);
      LookUpAppend(before[..last], [extended], index);
      LookUpOne(before[last], index);
      LookUpOne(extended, index);
    }
  }

  /** Every release has exactly the fact recorded for it. */
  lemma {:induction false} RunsLookUp<T>(entries: seq<Entry<T>>, index: nat)
    requires Strict(entries)
    ensures LookUp(RunsOf(entries), index) == FactAt(entries, index)
  {
    if entries != [] {
      hide LookUp, FactAt, RunsOf;
      var prefix, entry := entries[..|entries| - 1], entries[|entries| - 1];
      assert entries == prefix + [entry];
      RunsLookUp(prefix, index);
      RunsCanonical(prefix);
      RunsGrow(prefix, entry);
      FactAppend(prefix, entry, index);
      LookUpGrows(RunsOf(prefix), entry, index);
    }
  }

  // ----- uniqueness

  lemma {:induction false} FirstCovered<T>(runs: seq<Run<T>>, index: nat)
    requires Canonical(runs) && runs != [] && index < runs[0].first
    ensures LookUp(runs, index) == None
  {
    forall k | 0 <= k < |runs| ensures runs[0].first <= runs[k].first {
    }
    LookUpOutside(runs, index);
  }

  /** A run ends where the table stops or changes: the release after it has another fact. */
  lemma {:induction false} AfterFirst<T>(runs: seq<Run<T>>)
    requires Canonical(runs) && runs != []
    ensures LookUp(runs, runs[0].last + 1) != Some(runs[0].fact)
  {
    var index := runs[0].last + 1;
    if |runs| > 1 && runs[1].first == index {
      assert !Continues(runs, 1);
      LookUpInside(runs, index, 1);
    } else {
      forall k | 0 <= k < |runs| ensures !(runs[k].first <= index <= runs[k].last) {
        assert k >= 1 ==> runs[1].first <= runs[k].first;
      }
      LookUpOutside(runs, index);
    }
  }

  lemma {:induction false} SameFirst<T>(a: seq<Run<T>>, b: seq<Run<T>>)
    requires Canonical(a) && Canonical(b) && a != [] && b != []
    requires forall index: nat :: LookUp(a, index) == LookUp(b, index)
    ensures a[0] == b[0]
  {
    LookUpInside(a, a[0].first, 0);
    LookUpInside(b, b[0].first, 0);
    if a[0].first < b[0].first {
      FirstCovered(b, a[0].first);
    } else if b[0].first < a[0].first {
      FirstCovered(a, b[0].first);
    }
    AfterFirst(a);
    AfterFirst(b);
  }

  lemma {:induction false} TailLookUp<T>(runs: seq<Run<T>>, index: nat)
    requires Canonical(runs) && runs != []
    ensures LookUp(runs[1..], index) == if index <= runs[0].last then None else LookUp(runs, index)
  {
    if index <= runs[0].last {
      LookUpOutside(runs[1..], index);
    }
  }

  /** The runs of a table are unique: disjoint ascending maximal runs giving every release
      the same fact are the same runs. */
  lemma {:induction false} RunsUnique<T>(a: seq<Run<T>>, b: seq<Run<T>>)
    requires Canonical(a) && Canonical(b)
    requires forall index: nat :: LookUp(a, index) == LookUp(b, index)
    ensures a == b
  {
    if a == [] || b == [] {
      if a != [] {
        LookUpInside(a, a[0].first, 0);
      } else if b != [] {
        LookUpInside(b, b[0].first, 0);
      }
    } else {
      SameFirst(a, b);
      CanonicalTail(a);
      CanonicalTail(b);
      forall index: nat ensures LookUp(a[1..], index) == LookUp(b[1..], index) {
        TailLookUp(a, index);
        TailLookUp(b, index);
      }
      RunsUnique(a[1..], b[1..]);
      assert a == [a[0]] + a[1..] && b == [b[0]] + b[1..];
    }
  }
}
