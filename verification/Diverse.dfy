/**
  The event selector of the dashboard: at most `limit` events, chosen so that as many relationships as
  possible stay visible and, subject to that, the events are as new as possible.
 */
module Diverse {
  import opened Basics

  // ----- selections -----

  function KeySet<K(==)>(keys: seq<K>): set<K> {
    set k | k in keys
  }

  function KeysOf<E, K(==)>(events: seq<E>, keyOf: E -> K): (keys: seq<K>)
    ensures |keys| == |events|
  {
    seq(|events|, i requires 0 <= i < |events| => keyOf(events[i]))
  }

  /** How many places a selection keeps. */
  function Kept(keep: seq<bool>): nat {
    if keep == [] then 0 else (if keep[0] then 1 else 0) + Kept(keep[1..])
  }

  /** The keys a selection keeps at least one event of. */
  function Covered<K(==)>(keys: seq<K>, keep: seq<bool>): set<K>
    requires |keys| == |keep|
  {
    if keys == [] then {} else (if keep[0] then {keys[0]} else {}) + Covered(keys[1..], keep[1..])
  }

  /** The selected events, in their original order. */
  function Pick<E>(events: seq<E>, keep: seq<bool>): seq<E>
    requires |events| == |keep|
  {
    if events == [] then [] else (if keep[0] then [events[0]] else []) + Pick(events[1..], keep[1..])
  }

  // ----- the selection, in closed form -----

  /** Events of a suffix that have a newer event with the same key. */
  function Redundant<K(==)>(suffix: seq<K>): (n: nat)
  {
    KeySetBound(suffix);
    |suffix| - |KeySet(suffix)|
  }

  lemma {:induction false} KeySetBound<K>(keys: seq<K>)
    ensures |KeySet(keys)| <= |keys|
  {
    if keys != [] {
      KeySetBound(keys[1..]);
      assert KeySet(keys) == KeySet(keys[1..]) + {keys[0]};
    }
  }

  /**
    Whether the first event of a suffix stays, when d distinct keys occur in all. The newest event of its
    key stays if no more than limit keys are at least as new; an older one stays if the redundant events
    from it on still fit beside one event of every key.
   */
  predicate KeepsFirst<K(==)>(suffix: seq<K>, limit: nat, d: nat)
    requires suffix != []
  {
    if suffix[0] !in suffix[1..] then |KeySet(suffix)| <= limit else d + Redundant(suffix) <= limit
  }

  function Chosen<K(==)>(suffix: seq<K>, limit: nat, d: nat): (keep: seq<bool>)
    ensures |keep| == |suffix|
  {
    if suffix == [] then [] else [KeepsFirst(suffix, limit, d)] + Chosen(suffix[1..], limit, d)
  }

  function Selected<K(==)>(keys: seq<K>, limit: nat): (keep: seq<bool>)
    ensures |keep| == |keys|
  {
    Chosen(keys, limit, |KeySet(keys)|)
  }

  /** The events shown for a window of `limit`. */
  function Narrow<E, K(==)>(events: seq<E>, keyOf: E -> K, limit: nat): seq<E> {
    Pick(events, Selected(KeysOf(events, keyOf), limit))
  }

  lemma KeySetCons<K>(keys: seq<K>)
    requires keys != []
    ensures KeySet(keys) == KeySet(keys[1..]) + {keys[0]}
    ensures |KeySet(keys)| == |KeySet(keys[1..])| + if keys[0] in keys[1..] then 0 else 1
    ensures Redundant(keys) == Redundant(keys[1..]) + if keys[0] in keys[1..] then 1 else 0
  {
    assert KeySet(keys) == KeySet(keys[1..]) + {keys[0]};
    if keys[0] in keys[1..] {
      assert KeySet(keys) == KeySet(keys[1..]);
    }
  }

  lemma {:induction false} ChosenAt<K>(keys: seq<K>, limit: nat, d: nat, i: nat)
    requires i < |keys|
    ensures Chosen(keys, limit, d)[i] == KeepsFirst(keys[i..], limit, d)
    ensures Chosen(keys, limit, d)[i..] == Chosen(keys[i..], limit, d)
  {
    if i > 0 {
      ChosenAt(keys[1..], limit, d, i - 1);
      assert keys[1..][i - 1..] == keys[i..];
      assert Chosen(keys, limit, d)[i..] == Chosen(keys[1..], limit, d)[i - 1..];
    } else {
      assert keys[0..] == keys;
    }
  }

  // ----- size and coverage -----

  /** How many events of a suffix stay. */
  lemma {:induction false} ChosenCount<K>(suffix: seq<K>, limit: nat, d: nat)
    requires |KeySet(suffix)| <= d
    ensures Kept(Chosen(suffix, limit, d)) ==
            if d <= limit then |KeySet(suffix)| + Min(Redundant(suffix), limit - d) else Min(|KeySet(suffix)|, limit)
  {
    if suffix != [] {
      KeySetCons(suffix);
      ChosenCount(suffix[1..], limit, d);
    }
  }

  lemma {:induction false} ChosenCoverage<K>(suffix: seq<K>, limit: nat, d: nat)
    requires |KeySet(suffix)| <= d
    ensures var covered := Covered(suffix, Chosen(suffix, limit, d));
            && covered <= KeySet(suffix)
            && if d <= limit then covered == KeySet(suffix) else |covered| == Min(|KeySet(suffix)|, limit)
  {
    if suffix != [] {
      KeySetCons(suffix);
      ChosenCoverage(suffix[1..], limit, d);
      var keep := Chosen(suffix, limit, d);
      assert keep[1..] == Chosen(suffix[1..], limit, d);
      if keep[0] && suffix[0] !in suffix[1..] {
        assert suffix[0] !in Covered(suffix[1..], keep[1..]);
      }
    }
  }

  /** Exactly min(n, limit) events stay, and they cover min(limit, distinct) keys. */
  lemma SelectedSizeAndCoverage<K>(keys: seq<K>, limit: nat)
    ensures Kept(Selected(keys, limit)) == Min(|keys|, limit)
    ensures |Covered(keys, Selected(keys, limit))| == Min(limit, |KeySet(keys)|)
  {
    KeySetBound(keys);
    ChosenCount(keys, limit, |KeySet(keys)|);
    ChosenCoverage(keys, limit, |KeySet(keys)|);
  }

  /** When the distinct keys fit, the newest event of every key stays. */
  lemma NewestOfEveryKeyStays<K>(keys: seq<K>, limit: nat, i: nat)
    requires |KeySet(keys)| <= limit && i < |keys| && keys[i] !in keys[i + 1..]
    ensures Selected(keys, limit)[i]
  {
    ChosenAt(keys, limit, |KeySet(keys)|, i);
    assert keys[i..][1..] == keys[i + 1..];
    SubsetCount(KeySet(keys[i..]), KeySet(keys));
  }

  // ----- any other selection -----

  lemma {:induction false} CoverageBound<K>(keys: seq<K>, keep: seq<bool>)
    requires |keys| == |keep|
    ensures Covered(keys, keep) <= KeySet(keys) && |Covered(keys, keep)| <= Kept(keep)
  {
    if keys != [] {
      CoverageBound(keys[1..], keep[1..]);
      if keep[0] {
        SubsetCount(Covered(keys, keep) - {keys[0]}, Covered(keys[1..], keep[1..]));
      }
    }
  }

  lemma {:induction false} SplitAt<K>(keys: seq<K>, keep: seq<bool>, p: nat)
    requires |keys| == |keep| && p <= |keys|
    ensures Kept(keep) == Kept(keep[..p]) + Kept(keep[p..])
    ensures Covered(keys, keep) == Covered(keys[..p], keep[..p]) + Covered(keys[p..], keep[p..])
  {
    if p == 0 {
      assert keep[0..] == keep && keys[0..] == keys;
    } else {
      SplitAt(keys[1..], keep[1..], p - 1);
      assert keep[..p][1..] == keep[1..][..p - 1] && keep[1..][p - 1..] == keep[p..];
      assert keys[..p][1..] == keys[1..][..p - 1] && keys[1..][p - 1..] == keys[p..];
    }
  }

  /** keep is a selection of the size and coverage the selector reaches. */
  predicate Rival<K(==)>(keys: seq<K>, limit: nat, keep: seq<bool>) {
    && |keep| == |keys| && Kept(keep) == Min(|keys|, limit)
    && |Covered(keys, keep)| == Min(limit, |KeySet(keys)|)
  }

  /** The selector's coverage is the best any selection of that size can have. */
  lemma CoverageIsMaximal<K>(keys: seq<K>, limit: nat, keep: seq<bool>)
    requires |keep| == |keys| && Kept(keep) <= limit
    ensures |Covered(keys, keep)| <= |Covered(keys, Selected(keys, limit))|
  {
    CoverageBound(keys, keep);
    SubsetCount(Covered(keys, keep), KeySet(keys));
    SelectedSizeAndCoverage(keys, limit);
  }

  lemma KeptBound(keep: seq<bool>)
    ensures Kept(keep) <= |keep|
  {
  }

  /** Keys with no event at or after p can only be covered before p. */
  lemma OldKeysAreCoveredEarly<K>(keys: seq<K>, keep: seq<bool>, p: nat)
    requires |keys| == |keep| && p <= |keys| && Covered(keys, keep) == KeySet(keys)
    ensures Kept(keep[..p]) >= |KeySet(keys)| - |KeySet(keys[p..])|
  {
    SplitAt(keys, keep, p);
    CoverageBound(keys[p..], keep[p..]);
    CoverageBound(keys[..p], keep[..p]);
    SubsetCount(KeySet(keys) - KeySet(keys[p..]), Covered(keys[..p], keep[..p]));
    assert KeySet(keys[p..]) <= KeySet(keys);
  }

  /**
    Pointwise newest: among all selections of the same size and coverage, none keeps more events of any
    suffix of the input.
   */
  lemma SelectedIsPointwiseNewest<K>(keys: seq<K>, limit: nat, rival: seq<bool>, p: nat)
    requires Rival(keys, limit, rival) && p <= |keys|
    ensures Kept(rival[p..]) <= Kept(Selected(keys, limit)[p..])
  {
    var d, suffix := |KeySet(keys)|, keys[p..];
    KeySetBound(keys);
    SubsetCount(KeySet(suffix), KeySet(keys));
    SubsetCount(Covered(keys, rival), KeySet(keys)) by {
      CoverageBound(keys, rival);
    }
    assert Selected(keys, limit)[p..] == Chosen(suffix, limit, d) by {
      if p < |keys| {
        ChosenAt(keys, limit, d, p);
      }
    }
    ChosenCount(suffix, limit, d);
    SplitAt(keys, rival, p);
    KeptBound(rival[p..]);
    CoverageBound(suffix, rival[p..]);
    if d <= limit {
      OldKeysAreCoveredEarly(keys, rival, p);
      RedundantShrinks(keys, p);
    } else {
      CoverageBound(keys[..p], rival[..p]);
      UnionBound(Covered(keys[..p], rival[..p]), Covered(suffix, rival[p..]));
      SubsetCount(Covered(suffix, rival[p..]), KeySet(suffix));
    }
  }

  lemma UnionBound<T>(a: set<T>, b: set<T>)
    ensures |a + b| <= |a| + |b|
  {
    assert a + b == a + (b - a);
    SubsetCount(b - a, b);
  }

  lemma {:induction false} RedundantShrinks<K>(keys: seq<K>, p: nat)
    requires p <= |keys|
    ensures Redundant(keys[p..]) <= Redundant(keys)
    ensures |KeySet(keys[p..])| <= |KeySet(keys)|
  {
    if p == 0 {
      assert keys[0..] == keys;
    } else {
      KeySetCons(keys);
      RedundantShrinks(keys[1..], p - 1);
      assert keys[1..][p - 1..] == keys[p..];
    }
  }

  /** Being pointwise newest pins the selection down completely. */
  lemma {:induction false} PointwiseNewestIsUnique(a: seq<bool>, b: seq<bool>)
    requires |a| == |b|
    requires forall p :: 0 <= p <= |a| ==> Kept(a[p..]) == Kept(b[p..])
    ensures a == b
  {
    if a != [] {
      assert a[0..] == a && b[0..] == b;
      assert Kept(a[1..]) == Kept(b[1..]);
      forall p | 0 <= p <= |a| - 1 ensures Kept(a[1..][p..]) == Kept(b[1..][p..]) {
        assert a[1..][p..] == a[p + 1..] && b[1..][p..] == b[p + 1..];
      }
      PointwiseNewestIsUnique(a[1..], b[1..]);
      assert a == [a[0]] + a[1..] && b == [b[0]] + b[1..];
    }
  }

  // ----- narrowing in stages -----

  lemma {:induction false} PickCount<E>(events: seq<E>, keep: seq<bool>)
    requires |events| == |keep|
    ensures |Pick(events, keep)| == Kept(keep)
  {
    if events != [] {
      PickCount(events[1..], keep[1..]);
    }
  }

  lemma {:induction false} PickKeys<E, K>(events: seq<E>, keyOf: E -> K, keep: seq<bool>)
    requires |events| == |keep|
    ensures KeySet(KeysOf(Pick(events, keep), keyOf)) == Covered(KeysOf(events, keyOf), keep)
  {
    if events != [] {
      PickKeys(events[1..], keyOf, keep[1..]);
      KeysOfCons(events, keyOf);
      if keep[0] {
        var picked := Pick(events, keep);
        KeysOfCons(picked, keyOf);
        assert picked[1..] == Pick(events[1..], keep[1..]);
        KeySetCons(KeysOf(picked, keyOf));
      } else {
        assert Pick(events, keep) == Pick(events[1..], keep[1..]);
      }
    }
  }

  lemma KeysOfCons<E, K>(events: seq<E>, keyOf: E -> K)
    requires events != []
    ensures KeysOf(events, keyOf)[0] == keyOf(events[0]) && KeysOf(events, keyOf)[1..] == KeysOf(events[1..], keyOf)
  {
  }

  /** One stage of narrowing, suffix by suffix: the second selection sees the same last and redundant events. */
  lemma PickCons<E>(events: seq<E>, keep: seq<bool>)
    requires |events| == |keep| > 0
    ensures Pick(events, keep) == if keep[0] then [events[0]] + Pick(events[1..], keep[1..]) else Pick(events[1..], keep[1..])
  {
  }

  lemma ChosenCons<K>(keys: seq<K>, limit: nat, d: nat)
    requires keys != []
    ensures Chosen(keys, limit, d)[0] == KeepsFirst(keys, limit, d)
    ensures Chosen(keys, limit, d)[1..] == Chosen(keys[1..], limit, d)
  {
  }

  lemma {:induction false} NarrowSuffixInStages<E, K>(events: seq<E>, keyOf: E -> K, m: nat, l: nat, d: nat)
    requires l <= m && |KeySet(KeysOf(events, keyOf))| <= d
    ensures var stage := Pick(events, Chosen(KeysOf(events, keyOf), m, d));
            Pick(stage, Chosen(KeysOf(stage, keyOf), l, Min(d, m))) == Pick(events, Chosen(KeysOf(events, keyOf), l, d))
  {
    if events != [] {
      var keys, rest := KeysOf(events, keyOf), events[1..];
      KeysOfCons(events, keyOf);
      KeySetCons(keys);
      NarrowSuffixInStages(rest, keyOf, m, l, d);
      var keep := Chosen(keys, m, d);
      ChosenCons(keys, m, d);
      ChosenCons(keys, l, d);
      PickCons(events, keep);
      PickCons(events, Chosen(keys, l, d));
      if keep[0] {
        var stage := Pick(events, keep);
        StageSeesTheSame(events, keyOf, m, d);
        KeysOfCons(stage, keyOf);
        hide KeySet, Redundant, Pick, Chosen, KeysOf;
        ChosenCons(KeysOf(stage, keyOf), l, Min(d, m));
        PickCons(stage, Chosen(KeysOf(stage, keyOf), l, Min(d, m)));
      }
    }
  }

  /** If the first event of a suffix survives a stage, it is as new, and as redundant, as it was before. */
  lemma StageSeesTheSame<E, K>(events: seq<E>, keyOf: E -> K, m: nat, d: nat)
    requires events != [] && |KeySet(KeysOf(events, keyOf))| <= d
    requires KeepsFirst(KeysOf(events, keyOf), m, d)
    ensures var keys := KeysOf(events, keyOf);
            var stage := KeysOf(Pick(events, Chosen(keys, m, d)), keyOf);
            && stage != [] && stage[0] == keys[0] && |KeySet(stage)| == |KeySet(keys)|
            && (stage[0] in stage[1..] <==> keys[0] in keys[1..])
            && (keys[0] in keys[1..] ==> Redundant(stage) == Redundant(keys) && d <= m)
  {
    var keys := KeysOf(events, keyOf);
    var keep := Chosen(keys, m, d);
    var picked := Pick(events, keep);
    KeysOfCons(events, keyOf);
    KeySetCons(keys);
    ChosenCount(keys, m, d);
    ChosenCoverage(keys, m, d);
    PickCount(events, keep);
    PickKeys(events, keyOf, keep);
    assert keep[1..] == Chosen(keys[1..], m, d);
    ChosenCoverage(keys[1..], m, d);
    assert picked[1..] == Pick(events[1..], keep[1..]);
    KeysOfCons(picked, keyOf);
    PickKeys(events[1..], keyOf, keep[1..]);
    assert keys[0] in keys[1..] <==> keys[0] in KeySet(keys[1..]);
    var stage := KeysOf(picked, keyOf);
    assert stage[0] in stage[1..] <==> stage[0] in KeySet(stage[1..]);
  }

  /** Narrowing to m and then to l <= m shows what narrowing to l at once shows. */
  lemma NarrowInStages<E, K>(events: seq<E>, keyOf: E -> K, m: nat, l: nat)
    requires l <= m
    ensures Narrow(Narrow(events, keyOf, m), keyOf, l) == Narrow(events, keyOf, l)
  {
    var keys := KeysOf(events, keyOf);
    var d := |KeySet(keys)|;
    NarrowSuffixInStages(events, keyOf, m, l, d);
    ChosenCoverage(keys, m, d);
    PickKeys(events, keyOf, Chosen(keys, m, d));
  }

  // ----- the two passes of the source -----

  function Occurrences<K(==)>(keys: seq<K>, k: K): nat {
    if keys == [] then 0 else (if keys[0] == k then 1 else 0) + Occurrences(keys[1..], k)
  }

  lemma {:induction false} OccursIffIn<K>(keys: seq<K>, k: K)
    ensures Occurrences(keys, k) > 0 <==> k in keys
  {
    if keys != [] {
      OccursIffIn(keys[1..], k);
      assert keys == [keys[0]] + keys[1..];
    }
  }

  lemma {:induction false} OccurrencesSnoc<K>(keys: seq<K>, x: K, k: K)
    ensures Occurrences(keys + [x], k) == Occurrences(keys, k) + if x == k then 1 else 0
  {
    if keys != [] {
      OccurrencesSnoc(keys[1..], x, k);
      assert (keys + [x])[1..] == keys[1..] + [x];
    }
  }

  method CountKeys<K(==)>(keys: seq<K>) returns (counts: map<K, nat>)
    ensures counts.Keys == KeySet(keys)
    ensures forall k :: k in counts ==> counts[k] == Occurrences(keys, k)
  {
    counts := map[];
    for i := 0 to |keys|
      invariant counts.Keys == KeySet(keys[..i])
      invariant forall k :: k in counts ==> counts[k] == Occurrences(keys[..i], k)
    {
      assert keys[..i + 1] == keys[..i] + [keys[i]];
      forall k ensures Occurrences(keys[..i + 1], k) == Occurrences(keys[..i], k) + if keys[i] == k then 1 else 0 {
        OccurrencesSnoc(keys[..i], keys[i], k);
      }
      OccursIffIn(keys[..i], keys[i]);
      counts := counts[keys[i] := (if keys[i] in counts then counts[keys[i]] else 0) + 1];
    }
    assert keys[..|keys|] == keys;
  }

  /** One step along the suffixes, for both passes. */
  lemma SuffixStep<K>(keys: seq<K>, i: nat, limit: nat, d: nat)
    requires i < |keys|
    ensures var again := if keys[i] in keys[i + 1..] then 1 else 0;
            && |KeySet(keys[i..])| == |KeySet(keys[i + 1..])| + 1 - again
            && Redundant(keys[i..]) == Redundant(keys[i + 1..]) + again
    ensures PassOneKeeps(keys[i..], limit, d) <==> (keys[i] in keys[i + 1..] ==> d + Redundant(keys[i..]) <= limit)
    ensures KeepsFirst(keys[i..], limit, d)
            <==> (if keys[i] !in keys[i + 1..] then |KeySet(keys[i..])| <= limit else d + Redundant(keys[i..]) <= limit)
  {
    assert keys[i..][1..] == keys[i + 1..];
    KeySetCons(keys[i..]);
  }

  /** counts has the number of occurrences of every key that is still to come. */
  ghost predicate Counted<K>(counts: map<K, nat>, suffix: seq<K>) {
    forall k :: k in suffix ==> k in counts && counts[k] == Occurrences(suffix, k)
  }

  lemma CountedStep<K>(counts: map<K, nat>, keys: seq<K>, i: nat)
    requires i < |keys| && Counted(counts, keys[i..])
    ensures keys[i] in counts && counts[keys[i]] >= 1 && (counts[keys[i]] > 1 <==> keys[i] in keys[i + 1..])
    ensures Counted(if counts[keys[i]] > 1 then counts[keys[i] := counts[keys[i]] - 1] else counts, keys[i + 1..])
  {
    var rest := keys[i + 1..];
    assert keys[i..] == [keys[i]] + rest && keys[i..][1..] == rest;
    OccursIffIn(rest, keys[i]);
  }

  lemma StartCounted<K>(counts: map<K, nat>, keys: seq<K>)
    requires counts.Keys == KeySet(keys) && forall k :: k in counts ==> counts[k] == Occurrences(keys, k)
    ensures Counted(counts, keys[0..]) && Redundant(keys[0..]) == |keys| - |KeySet(keys)|
  {
    assert keys[0..] == keys;
    KeySetBound(keys);
  }

  /** While there is something to remove, the first pass removes an event iff its key comes again. */
  lemma FirstPassStep<K>(counts: map<K, nat>, keys: seq<K>, i: nat, limit: nat, d: nat, removals: nat)
    requires i < |keys| && Counted(counts, keys[i..])
    requires removals > 0 && removals == Max(0, d - limit + Redundant(keys[i..]))
    ensures keys[i] in counts && counts[keys[i]] >= 1
    ensures PassOneKeeps(keys[i..], limit, d) <==> counts[keys[i]] <= 1
    ensures removals - (if counts[keys[i]] > 1 then 1 else 0) == Max(0, d - limit + Redundant(keys[i + 1..]))
    ensures Counted(if counts[keys[i]] > 1 then counts[keys[i] := counts[keys[i]] - 1] else counts, keys[i + 1..])
  {
    hide KeySet, Redundant, Occurrences, PassOneKeeps, KeepsFirst, Counted;
    SuffixStep(keys, i, limit, d);
    CountedStep(counts, keys, i);
  }

  /** What the first pass keeps of a suffix's first event: anything newest, and redundant events that fit. */
  predicate PassOneKeeps<K(==)>(suffix: seq<K>, limit: nat, d: nat)
    requires suffix != []
  {
    suffix[0] in suffix[1..] ==> d + Redundant(suffix) <= limit
  }

  /** The first pass has decided the places before n. */
  ghost predicate FirstPass<K>(keys: seq<K>, limit: nat, keep: seq<bool>, n: nat)
    requires |keep| == |keys| && n <= |keys|
  {
    && (forall j :: 0 <= j < n ==> keep[j] == PassOneKeeps(keys[j..], limit, |KeySet(keys)|))
    && (forall j :: n <= j < |keys| ==> keep[j])
  }

  lemma FirstPassMark<K>(keys: seq<K>, limit: nat, keep: seq<bool>, n: nat)
    requires |keep| == |keys| && n < |keys| && FirstPass(keys, limit, keep, n)
    ensures FirstPass(keys, limit, keep[n := PassOneKeeps(keys[n..], limit, |KeySet(keys)|)], n + 1)
    ensures keep[n := true] == keep
  {
    hide KeySet, PassOneKeeps;
  }

  method RemoveRedundant<K(==)>(keys: seq<K>, limit: nat, keep: array<bool>) returns (removals: nat)
    requires keep.Length == |keys| > limit && FirstPass(keys, limit, keep[..], 0)
    modifies keep
    ensures FirstPass(keys, limit, keep[..], |keys|)
    ensures removals == Max(0, |KeySet(keys)| - limit)
  {
    ghost var d := |KeySet(keys)|;
    KeySetBound(keys);
    var counts := CountKeys(keys);
    removals := |keys| - limit;
    var index := 0;
    StartCounted(counts, keys);
    hide KeySet, Redundant, Occurrences, PassOneKeeps, Counted, FirstPass;
    while index < |keys| && removals > 0
      invariant 0 <= index <= |keys|
      invariant removals == Max(0, d - limit + Redundant(keys[index..]))
      invariant Counted(counts, keys[index..])
      invariant FirstPass(keys, limit, keep[..], index)
    {
      var key := keys[index];
      ghost var before := keep[..];
      FirstPassStep(counts, keys, index, limit, d, removals);
      FirstPassMark(keys, limit, before, index);
      if counts[key] > 1 {
        keep[index] := false;
        counts := counts[key := counts[key] - 1];
        removals := removals - 1;
        assert keep[..] == before[index := false];
      }
      index := index + 1;
    }
    FirstPassIsDone(keys, index, limit, keep[..]);
  }

  /** Once the redundant events from index on fit, or none is left, the first pass has nothing more to remove. */
  lemma FirstPassIsDone<K>(keys: seq<K>, index: nat, limit: nat, keep: seq<bool>)
    requires index <= |keys| == |keep| && FirstPass(keys, limit, keep, index)
    requires index < |keys| ==> |KeySet(keys)| - limit + Redundant(keys[index..]) <= 0
    ensures Max(0, |KeySet(keys)| - limit + Redundant(keys[index..])) == Max(0, |KeySet(keys)| - limit)
    ensures FirstPass(keys, limit, keep, |keys|)
  {
    assert index == |keys| ==> keys[index..] == [];
    forall j | index <= j < |keys| ensures PassOneKeeps(keys[j..], limit, |KeySet(keys)|) {
      RedundantShrinks(keys[index..], j - index);
      assert keys[index..][j - index..] == keys[j..];
    }
  }

  /** Both passes have decided the places before n, only the first pass the others. */
  ghost predicate BothPasses<K>(keys: seq<K>, limit: nat, keep: seq<bool>, n: nat)
    requires |keep| == |keys| && n <= |keys|
  {
    && (forall j :: 0 <= j < n ==> keep[j] == KeepsFirst(keys[j..], limit, |KeySet(keys)|))
    && (forall j :: n <= j < |keys| ==> keep[j] == PassOneKeeps(keys[j..], limit, |KeySet(keys)|))
  }

  lemma BothPassesMark<K>(keys: seq<K>, limit: nat, keep: seq<bool>, n: nat)
    requires |keep| == |keys| && n < |keys| && BothPasses(keys, limit, keep, n)
    ensures BothPasses(keys, limit, keep[n := KeepsFirst(keys[n..], limit, |KeySet(keys)|)], n + 1)
    ensures keep[n] == PassOneKeeps(keys[n..], limit, |KeySet(keys)|) && keep[n := keep[n]] == keep
  {
    hide KeySet, PassOneKeeps, KeepsFirst;
  }

  /** While too many keys are left, the second pass removes whatever the first one kept. */
  lemma SecondPassStep<K>(keys: seq<K>, i: nat, limit: nat, d: nat, removals: nat)
    requires i < |keys| && d > limit && removals > 0 && removals == Max(0, |KeySet(keys[i..])| - limit)
    ensures !KeepsFirst(keys[i..], limit, d)
    ensures removals - (if PassOneKeeps(keys[i..], limit, d) then 1 else 0) == Max(0, |KeySet(keys[i + 1..])| - limit)
  {
    hide KeySet, PassOneKeeps, KeepsFirst;
    SuffixStep(keys, i, limit, d);
  }

  method RemoveOldest<K(==)>(keys: seq<K>, limit: nat, keep: array<bool>, surplus: nat)
    requires keep.Length == |keys| && surplus == Max(0, |KeySet(keys)| - limit) && FirstPass(keys, limit, keep[..], |keys|)
    modifies keep
    ensures keep[..] == Selected(keys, limit)
  {
    ghost var d := |KeySet(keys)|;
    var removals := surplus;
    var index := 0;
    assert keys[0..] == keys && BothPasses(keys, limit, keep[..], 0);
    hide KeySet, PassOneKeeps, KeepsFirst, BothPasses;
    while index < |keys| && removals > 0
      invariant 0 <= index <= |keys|
      invariant removals == Max(0, |KeySet(keys[index..])| - limit) && (removals > 0 ==> d > limit)
      invariant BothPasses(keys, limit, keep[..], index)
    {
      ghost var before := keep[..];
      SecondPassStep(keys, index, limit, d, removals);
      BothPassesMark(keys, limit, before, index);
      if keep[index] {
        keep[index] := false;
        removals := removals - 1;
        assert keep[..] == before[index := false];
      }
      index := index + 1;
    }
    BothPassesGiveSelected(keys, limit, index, keep[..]);
  }

  /** Once at most limit keys are left from index on, both passes agree on everything after it. */
  lemma SettledAfter<K>(keys: seq<K>, limit: nat, index: nat, j: nat)
    requires index <= j < |keys| && |KeySet(keys[index..])| <= limit
    ensures PassOneKeeps(keys[j..], limit, |KeySet(keys)|) == KeepsFirst(keys[j..], limit, |KeySet(keys)|)
  {
    RedundantShrinks(keys[index..], j - index);
    assert keys[index..][j - index..] == keys[j..];
  }

  lemma BothPassesGiveSelected<K>(keys: seq<K>, limit: nat, index: nat, keep: seq<bool>)
    requires index <= |keys| == |keep|
    requires index < |keys| ==> |KeySet(keys[index..])| <= limit
    requires BothPasses(keys, limit, keep, index)
    ensures keep == Selected(keys, limit)
  {
    hide KeepsFirst, PassOneKeeps;
    forall j | 0 <= j < |keys| ensures keep[j] == Selected(keys, limit)[j] {
      ChosenAt(keys, limit, |KeySet(keys)|, j);
      if j >= index {
        SettledAfter(keys, limit, index, j);
      }
    }
  }

  /** diverseEvents: one event per relationship key first, then the newest of the rest. */
  method DiverseEvents<E, K(==)>(events: seq<E>, keyOf: E -> K, limit: nat) returns (shown: seq<E>)
    ensures shown == Narrow(events, keyOf, limit)
  {
    if |events| <= limit {
      EverythingFits(events, KeysOf(events, keyOf), limit);
      return events;
    }
    var keys := KeysOf(events, keyOf);
    var keep := new bool[|events|](_ => true);
    assert FirstPass(keys, limit, keep[..], 0);
    var removals := RemoveRedundant(keys, limit, keep);
    RemoveOldest(keys, limit, keep, removals);
    shown := FilterKept(events, keep);
  }

  method FilterKept<E>(events: seq<E>, keep: array<bool>) returns (shown: seq<E>)
    requires keep.Length == |events|
    ensures shown == Pick(events, keep[..])
  {
    shown := [];
    ghost var chosen := keep[..];
    hide Pick;
    PickNone(events, chosen);
    for i := 0 to |events|
      invariant shown + Pick(events[i..], chosen[i..]) == Pick(events, chosen)
    {
      PickAt(events, chosen, i, shown);
      if keep[i] {
        shown := shown + [events[i]];
      }
    }
  }

  lemma PickNone<E>(events: seq<E>, keep: seq<bool>)
    requires |events| == |keep|
    ensures [] + Pick(events[0..], keep[0..]) == Pick(events, keep)
    ensures forall s: seq<E> :: s + Pick(events[|events|..], keep[|events|..]) == s
  {
    assert events[0..] == events && keep[0..] == keep;
  }

  lemma PickAt<E>(events: seq<E>, keep: seq<bool>, i: nat, s: seq<E>)
    requires i < |events| == |keep|
    ensures s + Pick(events[i..], keep[i..])
            == (if keep[i] then s + [events[i]] else s) + Pick(events[i + 1..], keep[i + 1..])
  {
    assert events[i..][1..] == events[i + 1..] && keep[i..][1..] == keep[i + 1..];
    PickCons(events[i..], keep[i..]);
  }

  lemma EverythingFits<E, K>(events: seq<E>, keys: seq<K>, limit: nat)
    requires |keys| == |events| <= limit
    ensures Pick(events, Selected(keys, limit)) == events
  {
    SelectedSizeAndCoverage(keys, limit);
    PickAll(events, Selected(keys, limit));
  }

  lemma {:induction false} PickAll<E>(events: seq<E>, keep: seq<bool>)
    requires |events| == |keep| == Kept(keep)
    ensures Pick(events, keep) == events
  {
    if events != [] {
      KeptBound(keep[1..]);
      PickAll(events[1..], keep[1..]);
    }
  }
}
