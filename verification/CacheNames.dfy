/**
  The names of a key over whole runs: the order they stand in, and what it takes to lose one.
 */
module CacheNames {
  import opened Basics
  import opened CacheSpec

  // ----- insertion -----

  predicate Has(names: seq<Name>, f: string) {
    exists i :: 0 <= i < |names| && Fold(names[i].value) == f
  }

  /** The names a key has after a run. */
  function NamesAfter(capacity: nat, ops: seq<Op>, key: Key): seq<Name> {
    NamesBefore(Apply(capacity, [], ops), key)
  }

  /** The position of the last Put that gave the key a name it did not have. */
  function InsertedAt(capacity: nat, ops: seq<Op>, key: Key, f: string): nat {
    if ops == [] then 0
    else
      var init, op := ops[..|ops| - 1], ops[|ops| - 1];
      if PutsName(op, key, f) && !Has(NamesAfter(capacity, init, key), f) then |init|
      else InsertedAt(capacity, init, key, f)
  }

  lemma NamesConcat(a: seq<Record>, r: Record, key: Key)
    ensures NamesBefore(a + [r], key) == if RecordIndex(a, key) < |a| then NamesBefore(a, key) else if r.key == key then r.names else []
  {
    hide RecordIndex;
    var b, i, j := a + [r], RecordIndex(a, key), RecordIndex(a + [r], key);
    assert forall k :: 0 <= k < |a| ==> b[k] == a[k];
    if i < |a| {
      assert b[i].key == key;
      assert j <= i && a[j].key == key;
    } else if r.key == key {
      assert b[|a|].key == key;
      assert j == |a|;
    }
  }

  lemma KeyStaysAway(rs: seq<Record>, now: uint64, key: Key)
    requires RecordIndex(rs, key) == |rs|
    ensures RecordIndex(PruneRecords(rs, now), key) == |PruneRecords(rs, now)|
  {
    PruneKeepsStamps(rs, now);
    forall r | r in PruneRecords(rs, now) ensures r.key != key {
      var q :| q in rs && q.key == r.key;
    }
  }

  /** The names of a key after pruning are its names pruned. */
  lemma {:induction false} PrunedNames(rs: seq<Record>, now: uint64, key: Key)
    requires DistinctKeys(rs)
    ensures NamesBefore(PruneRecords(rs, now), key) == PruneNames(NamesBefore(rs, key), now)
  {
    if rs != [] {
      var init, last := rs[..|rs| - 1], rs[|rs| - 1];
      var names, rest := PruneNames(last.names, now), PruneRecords(init, now);
      assert rs == init + [last];
      PrunedNames(init, now, key);
      assert last.key == key ==> RecordIndex(init, key) == |init| by {
        if RecordIndex(init, key) < |init| {
          assert rs[RecordIndex(init, key)].key == key;
        }
      }
      if RecordIndex(init, key) == |init| {
        KeyStaysAway(init, now, key);
      }
      hide RecordIndex;
      NamesConcat(init, last, key);
      NamesConcat(rest, last.(names := names), key);
      if names == [] {
        assert PruneRecords(rs, now) == rest;
      } else {
        assert PruneRecords(rs, now) == rest + [last.(names := names)];
      }
    }
  }

  // ----- the order of names -----

  ghost predicate Increasing(names: seq<Name>, at: string -> nat) {
    forall i, j :: 0 <= i < j < |names| ==> at(Fold(names[i].value)) < at(Fold(names[j].value))
  }

  lemma {:induction false} PruneKeepsOrder(names: seq<Name>, now: uint64, at: string -> nat)
    requires Increasing(names, at)
    ensures Increasing(PruneNames(names, now), at)
  {
    if names != [] {
      var init, last := names[..|names| - 1], names[|names| - 1];
      PruneKeepsOrder(init, now, at);
      PruneNamesMembers(init, now);
      var kept := PruneNames(init, now);
      forall i | 0 <= i < |kept| ensures at(Fold(kept[i].value)) < at(Fold(last.value)) {
        assert kept[i] in init;
      }
    }
  }

  /** A refreshed name keeps its place, a new one comes last; the insertion times of the others do not change. */
  lemma PutKeepsOrder(names: seq<Name>, value: string, expires: uint64, at: string -> nat, at': string -> nat, now: nat)
    requires Increasing(names, at)
    requires forall f :: f != Fold(value) || Has(names, f) ==> at'(f) == at(f)
    requires !Has(names, Fold(value)) ==> at'(Fold(value)) == now
    requires forall i :: 0 <= i < |names| ==> at(Fold(names[i].value)) < now
    ensures Increasing(PutName(names, value, expires), at')
  {
    var i := NameIndex(names, value);
    if i < |names| {
      assert Has(names, Fold(value));
    }
  }

  lemma PutNames(capacity: nat, rs: seq<Record>, a: Accepted, key: Key)
    requires capacity > 0 && Wf(capacity, rs)
    ensures var names := NamesBefore(PutRecord(capacity, rs, a), key);
            if key == a.key then names == PutName(NamesBefore(rs, key), a.value, a.expires)
            else names == NamesBefore(rs, key) || names == []
  {
    var rs' := PutRecord(capacity, rs, a);
    var i, j := RecordIndex(rs, key), RecordIndex(rs', key);
    if key == a.key {
      PutHoldsNew(capacity, rs, a);
      assert j < |rs'| && rs'[j] in rs';
      PutRecordMembers(capacity, rs, a, rs'[j]);
    } else if j < |rs'| {
      assert rs'[j] == rs[j];
      assert i == j;
    }
  }

  lemma {:induction false} InsertedBefore(capacity: nat, ops: seq<Op>, key: Key, f: string)
    requires ops != []
    ensures InsertedAt(capacity, ops, key, f) < |ops|
  {
    if |ops| > 1 {
      InsertedBefore(capacity, ops[..|ops| - 1], key, f);
    }
  }

  /** In every run the names of a key stand in the order they were inserted; refreshing one does not move it. */
  lemma {:induction false} NamesInInsertionOrder(capacity: nat, ops: seq<Op>, key: Key)
    ensures Increasing(NamesAfter(capacity, ops, key), f => InsertedAt(capacity, ops, key, f))
  {
    if ops != [] {
      var init, op := ops[..|ops| - 1], ops[|ops| - 1];
      var rs, names := Apply(capacity, [], init), NamesAfter(capacity, init, key);
      var at, at' := f => InsertedAt(capacity, init, key, f), f => InsertedAt(capacity, ops, key, f);
      NamesInInsertionOrder(capacity, init, key);
      RunWf(capacity, init);
      var a := Admit(op);
      if op.Prune? {
        PrunedNames(rs, op.now, key);
        PruneKeepsOrder(names, op.now, at);
      } else if a.Some? && capacity > 0 {
        PutNames(capacity, rs, a.value, key);
        if a.value.key == key {
          forall i | 0 <= i < |names| ensures at(Fold(names[i].value)) < |init| {
            InsertedBefore(capacity, init, key, Fold(names[i].value));
          }
          PutKeepsOrder(names, a.value.value, a.value.expires, at, at', |init|);
        }
      }
    }
  }

  /** What InsertedAt tells of a name the key has: a Put of it when the key had it not. */
  lemma {:induction false} InsertionIsAPut(capacity: nat, ops: seq<Op>, key: Key, f: string)
    requires Has(NamesAfter(capacity, ops, key), f)
    ensures var n := InsertedAt(capacity, ops, key, f);
            n < |ops| && PutsName(ops[n], key, f) && !Has(NamesAfter(capacity, ops[..n], key), f)
  {
    assert ops != [];
    var init := ops[..|ops| - 1];
    hide NamesAfter, Has, PutsName;
    if Has(NamesAfter(capacity, init, key), f) {
      InsertionIsAPut(capacity, init, key, f);
      assert ops[..InsertedAt(capacity, init, key, f)] == init[..InsertedAt(capacity, init, key, f)];
    } else {
      InsertionNeedsAPut(capacity, ops, key, f);
    }
  }

  /** And the key has had it ever since. */
  lemma {:induction false} HadEverSince(capacity: nat, ops: seq<Op>, key: Key, f: string, m: nat)
    requires Has(NamesAfter(capacity, ops, key), f) && InsertedAt(capacity, ops, key, f) < m <= |ops|
    ensures Has(NamesAfter(capacity, ops[..m], key), f)
  {
    var init := ops[..|ops| - 1];
    hide NamesAfter, Has, PutsName;
    if m == |ops| {
      assert ops[..m] == ops;
    } else {
      if !Has(NamesAfter(capacity, init, key), f) {
        InsertionNeedsAPut(capacity, ops, key, f);
      }
      assert ops[..m] == init[..m];
      HadEverSince(capacity, init, key, f, m);
    }
  }

  /** Only a Put of a name gives it to a key. */
  lemma InsertionNeedsAPut(capacity: nat, ops: seq<Op>, key: Key, f: string)
    requires ops != [] && Has(NamesAfter(capacity, ops, key), f) && !Has(NamesAfter(capacity, ops[..|ops| - 1], key), f)
    ensures PutsName(ops[|ops| - 1], key, f)
  {
    var init, op := ops[..|ops| - 1], ops[|ops| - 1];
    var rs, names, names' := Apply(capacity, [], init), NamesAfter(capacity, init, key), NamesAfter(capacity, ops, key);
    RunWf(capacity, init);
    forall n | n in names ensures Fold(n.value) != f {
      var i :| 0 <= i < |names| && names[i] == n;
    }
    var a := Admit(op);
    if op.Prune? {
      PrunedNames(rs, op.now, key);
      PruneNamesMembers(names, op.now);
    } else if a.Some? && capacity > 0 {
      PutNames(capacity, rs, a.value, key);
      if a.value.key == key {
        PutNameMembers(names, a.value.value, a.value.expires);
      }
    }
  }

  /** A name is spelled as it was inserted: a refresh in another case leaves the spelling alone. */
  lemma {:induction false} SpelledAsInserted(capacity: nat, ops: seq<Op>, key: Key, n: Name)
    requires n in NamesAfter(capacity, ops, key)
    ensures var at := InsertedAt(capacity, ops, key, Fold(n.value));
            at < |ops| && Admit(ops[at]).Some? && Admit(ops[at]).value.key == key && Admit(ops[at]).value.value == n.value
  {
    var f := Fold(n.value);
    var init, op := ops[..|ops| - 1], ops[|ops| - 1];
    var names := NamesAfter(capacity, init, key);
    if before :| before in names && before.value == n.value {
      SpelledAsInserted(capacity, init, key, before);
      assert Has(names, f) by {
        var i :| 0 <= i < |names| && names[i] == before;
      }
    } else {
      NewSpelling(capacity, ops, key, n);
    }
  }

  /** A spelling the key did not have is that of the name just put, and the key had no name like it. */
  lemma NewSpelling(capacity: nat, ops: seq<Op>, key: Key, n: Name)
    requires ops != [] && n in NamesAfter(capacity, ops, key)
    requires forall before :: before in NamesAfter(capacity, ops[..|ops| - 1], key) ==> before.value != n.value
    ensures var a := Admit(ops[|ops| - 1]);
            a.Some? && a.value.key == key && a.value.value == n.value && !Has(NamesAfter(capacity, ops[..|ops| - 1], key), Fold(n.value))
  {
    var init, op := ops[..|ops| - 1], ops[|ops| - 1];
    var rs, names := Apply(capacity, [], init), NamesAfter(capacity, init, key);
    RunWf(capacity, init);
    var a := Admit(op);
    if op.Prune? {
      PrunedNames(rs, op.now, key);
      PruneNamesMembers(names, op.now);
    } else if a.Some? && capacity > 0 {
      PutNames(capacity, rs, a.value, key);
      if a.value.key == key {
        PutSpellings(names, a.value.value, a.value.expires, n);
      }
    }
  }

  lemma PutSpellings(names: seq<Name>, value: string, expires: uint64, n: Name)
    requires n in PutName(names, value, expires) && forall before :: before in names ==> before.value != n.value
    ensures n.value == value && !Has(names, Fold(value))
  {
    hide Fold;
  }

  // ----- what it takes to lose a name -----

  /** The last accepted Put of this key and folded name. */
  function LastNamePut(ops: seq<Op>, key: Key, f: string): Option<Accepted> {
    if ops == [] then None
    else if PutsName(ops[|ops| - 1], key, f) then Admit(ops[|ops| - 1])
    else LastNamePut(ops[..|ops| - 1], key, f)
  }

  /** No Prune since the last Put of the name has reached that Put's expiry. */
  predicate NameUnexpired(ops: seq<Op>, key: Key, f: string) {
    ops != [] &&
    var init, op := ops[..|ops| - 1], ops[|ops| - 1];
    if PutsName(op, key, f) then true
    else NameUnexpired(init, key, f) && (op.Prune? && LastNamePut(init, key, f).Some? ==> op.now < LastNamePut(init, key, f).value.expires)
  }

  lemma {:induction false} LastNamePutIs(ops: seq<Op>, key: Key, f: string)
    ensures LastNamePut(ops, key, f).Some? ==>
              var p := LastNamePut(ops, key, f).value;
              p.key == key && Fold(p.value) == f && LastExpiry(ops, key, f) == Some(p.expires)
  {
    if ops != [] {
      LastNamePutIs(ops[..|ops| - 1], key, f);
    }
  }

  /** In time order, a key is put no earlier than its names. */
  lemma {:induction false} KeyPutAfterName(ops: seq<Op>, key: Key, f: string)
    requires PutsInTimeOrder(ops) && LastNamePut(ops, key, f).Some?
    ensures LastPut(ops, key).Some? && LastNamePut(ops, key, f).value.now <= LastPut(ops, key).value.now
  {
    var init, op := ops[..|ops| - 1], ops[|ops| - 1];
    if !PutsName(op, key, f) {
      KeyPutAfterName(init, key, f);
      if Admit(op).Some? && Admit(op).value.key == key {
        LastPutIsEarlier(init, key, op.now);
      }
    }
  }

  lemma {:induction false} KeysSinceEarlier(ops: seq<Op>, t: uint64, u: uint64)
    requires t <= u
    ensures KeysSince(ops, u) <= KeysSince(ops, t)
  {
    if ops != [] {
      KeysSinceEarlier(ops[..|ops| - 1], t, u);
    }
  }

  /** Other names put on the key since this one was inserted. */
  function Others(capacity: nat, ops: seq<Op>, key: Key, f: string): set<string> {
    var n := InsertedAt(capacity, ops, key, f);
    FoldsPut(if n < |ops| then ops[n..] else [], key) - {f}
  }

  lemma {:induction false} PutIsLogged(ops: seq<Op>, key: Key, f: string, n: nat, i: nat)
    requires n <= i < |ops| && PutsName(ops[i], key, f)
    ensures f in FoldsPut(ops[n..], key)
  {
    FoldsPutMembers(ops[n..], key, f);
    assert ops[n..][i - n] == ops[i];
  }

  /** One more operation that does not put the name: the others only become more, by the name it puts. */
  lemma OthersGrow(capacity: nat, ops: seq<Op>, key: Key, f: string)
    requires |ops| > 1 && !PutsName(ops[|ops| - 1], key, f)
    ensures var init, a := ops[..|ops| - 1], Admit(ops[|ops| - 1]);
            Others(capacity, ops, key, f) == Others(capacity, init, key, f)
                                             + if a.Some? && a.value.key == key then {Fold(a.value.value)} else {}
  {
    var init, n := ops[..|ops| - 1], InsertedAt(capacity, ops, key, f);
    InsertedBefore(capacity, init, key, f);
    FoldsPutSnoc(ops, key, f, n);
  }

  lemma FoldsPutSnoc(ops: seq<Op>, key: Key, f: string, n: nat)
    requires n < |ops| && !PutsName(ops[|ops| - 1], key, f)
    ensures var a := Admit(ops[|ops| - 1]);
            FoldsPut(ops[n..], key) - {f} == FoldsPut(ops[..|ops| - 1][n..], key) - {f}
                                             + if a.Some? && a.value.key == key then {Fold(a.value.value)} else {}
  {
    hide Admit, Fold;
    assert ops[n..][..|ops[n..]| - 1] == ops[..|ops| - 1][n..];
    assert ops[n..][|ops[n..]| - 1] == ops[|ops| - 1];
  }

  /** A name in its key's first place has all its companions among the others. */
  lemma CompanionsAreOthers(capacity: nat, ops: seq<Op>, key: Key)
    requires NamesAfter(capacity, ops, key) != []
    ensures var names := NamesAfter(capacity, ops, key);
            forall i :: 0 < i < |names| ==> Fold(names[i].value) in Others(capacity, ops, key, Fold(names[0].value))
  {
    var names := NamesAfter(capacity, ops, key);
    var f := Fold(names[0].value);
    NamesInInsertionOrder(capacity, ops, key);
    forall i | 0 < i < |names| ensures Fold(names[i].value) in Others(capacity, ops, key, f) {
      var g := Fold(names[i].value);
      InsertionIsAPut(capacity, ops, key, g);
      PutIsLogged(ops, key, g, InsertedAt(capacity, ops, key, f), InsertedAt(capacity, ops, key, g));
    }
  }

  /** Rotation drops the first name only; if that is f, a full set of other names has been put on the key. */
  lemma RotationKeepsOrCrowdsOut(capacity: nat, ops: seq<Op>, a: Accepted, f: string, e: uint64)
    requires capacity > 0 && ops != [] && Admit(ops[|ops| - 1]) == Some(a) && f != Fold(a.value)
    requires Holds(Apply(capacity, [], ops[..|ops| - 1]), a.key, f, e)
    ensures Holds(Apply(capacity, [], ops), a.key, f, e) || |Others(capacity, ops, a.key, f)| >= 8
  {
    var init := ops[..|ops| - 1];
    var rs, names := Apply(capacity, [], init), NamesAfter(capacity, init, a.key);
    RunWf(capacity, init);
    assert init != [];
    HeldName(rs, a.key, f, e);
    hide Apply, Fold, Admit;
    var n :| n in names && Fold(n.value) == f && n.expires == e;
    if NameIndex(names, a.value) < |names| || |names| < MAX_NAMES {
      PutHoldsOther(capacity, rs, a, a.key, f, e);
    } else if n in names[1..] {
      PutNames(capacity, rs, a, a.key);
      assert n in PutName(names, a.value, a.expires);
      NamesAreHeld(PutRecord(capacity, rs, a), a.key, n);
    } else {
      assert names[0] == n && |init| > 0 && WfNames(names);
      OthersGrow(capacity, ops, a.key, f);
      CompanionsAreOthers(capacity, init, a.key);
      NewcomerCounts(names, Others(capacity, init, a.key, f), Fold(a.value));
    }
  }

  lemma HeldName(rs: seq<Record>, key: Key, f: string, e: uint64)
    requires DistinctKeys(rs) && Holds(rs, key, f, e)
    ensures RecordIndex(rs, key) < |rs| && exists n :: n in NamesBefore(rs, key) && Fold(n.value) == f && n.expires == e
  {
    var r, n :| r in rs && r.key == key && n in r.names && Fold(n.value) == f && n.expires == e;
    var j :| 0 <= j < |rs| && rs[j] == r;
    assert RecordIndex(rs, key) == j;
  }

  lemma NamesAreHeld(rs: seq<Record>, key: Key, n: Name)
    requires n in NamesBefore(rs, key)
    ensures Holds(rs, key, Fold(n.value), n.expires)
  {
    assert rs[RecordIndex(rs, key)] in rs;
  }

  lemma NewcomerCounts(names: seq<Name>, others: set<string>, g: string)
    requires DistinctFolds(names) && |names| == MAX_NAMES
    requires forall i :: 0 < i < |names| ==> Fold(names[i].value) in others
    requires forall i :: 0 <= i < |names| ==> Fold(names[i].value) != g
    ensures |others + {g}| >= MAX_NAMES
  {
    var rest := names[1..];
    NameFoldsCount(rest);
    assert g !in NameFolds(rest);
    assert |NameFolds(rest) + {g}| == MAX_NAMES;
    SubsetCount(NameFolds(rest) + {g}, others + {g});
  }

  /** One Put of another key keeps the names of this one or evicts it, and then the cache is crowded. */
  lemma EvictionKeepsOrCrowdsOut(capacity: nat, ops: seq<Op>, a: Accepted, key: Key, f: string, e: uint64)
    requires capacity > 0 && ops != [] && Admit(ops[|ops| - 1]) == Some(a) && a.key != key
    requires LastPut(ops[..|ops| - 1], key).Some? && LastPut(ops[..|ops| - 1], key).value.now <= a.now
    requires Holds(Apply(capacity, [], ops[..|ops| - 1]), key, f, e)
    ensures || Holds(Apply(capacity, [], ops), key, f, e)
            || |KeysSince(ops, LastPut(ops[..|ops| - 1], key).value.now) - {key}| >= capacity
  {
    var init := ops[..|ops| - 1];
    var rs := Apply(capacity, [], init);
    RunWf(capacity, init);
    var i := RecordIndex(rs, a.key);
    if i == |rs| && |rs| >= capacity && rs[Victim(rs)].key == key {
      assert rs[Victim(rs)] in rs;
      TouchedIsLastPut(capacity, init, rs[Victim(rs)]);
      EvictionNeedsCapacityKeys(capacity, ops, a, LastPut(init, key).value.now);
    } else {
      PutHoldsOther(capacity, rs, a, key, f, e);
    }
  }

  /** A name is held, or its key was crowded out by other keys, or it was by other names of its key. */
  ghost predicate Retained(capacity: nat, ops: seq<Op>, key: Key, f: string, p: Accepted) {
    || Holds(Apply(capacity, [], ops), key, f, p.expires)
    || |KeysSince(ops, p.now) - {key}| >= capacity
    || |Others(capacity, ops, key, f)| >= 8
  }

  /**
    Retention of every name: in a run whose Puts are in time order, a name last put on a key at time t is
    still held, unless it expired, or at least `capacity` other keys have been put at or after t, or at
    least eight other names have been put on the key since the name was inserted.
   */
  lemma {:induction false} NameRetainedUnlessCrowdedOut(capacity: nat, ops: seq<Op>, key: Key, f: string)
    requires capacity > 0 && PutsInTimeOrder(ops)
    requires LastNamePut(ops, key, f).Some? && NameUnexpired(ops, key, f)
    ensures Retained(capacity, ops, key, f, LastNamePut(ops, key, f).value)
  {
    var init, op := ops[..|ops| - 1], ops[|ops| - 1];
    var p := LastNamePut(ops, key, f).value;
    LastNamePutIs(ops, key, f);
    if PutsName(op, key, f) {
      PutHoldsNew(capacity, Apply(capacity, [], init), p);
    } else {
      assert init != [];
      NameRetainedUnlessCrowdedOut(capacity, init, key, f);
      StaysRetained(capacity, ops, key, f, p);
    }
  }

  lemma StaysRetained(capacity: nat, ops: seq<Op>, key: Key, f: string, p: Accepted)
    requires capacity > 0 && PutsInTimeOrder(ops) && |ops| > 1 && !PutsName(ops[|ops| - 1], key, f)
    requires LastNamePut(ops, key, f) == Some(p) && NameUnexpired(ops, key, f)
    requires Retained(capacity, ops[..|ops| - 1], key, f, p)
    ensures Retained(capacity, ops, key, f, p)
  {
    var init, op := ops[..|ops| - 1], ops[|ops| - 1];
    var a, rs := Admit(op), Apply(capacity, [], init);
    OthersGrow(capacity, ops, key, f);
    SubsetCount(KeysSince(init, p.now) - {key}, KeysSince(ops, p.now) - {key});
    SubsetCount(Others(capacity, init, key, f), Others(capacity, ops, key, f));
    if Holds(rs, key, f, p.expires) {
      if op.Prune? {
        PruneHolds(rs, op.now, key, f, p.expires);
      } else if a.Some? && a.value.key == key {
        RotationKeepsOrCrowdsOut(capacity, ops, a.value, f, p.expires);
      } else if a.Some? {
        OtherKeyKeepsOrCrowdsOut(capacity, ops, a.value, key, f, p);
      }
    }
  }

  lemma OtherKeyKeepsOrCrowdsOut(capacity: nat, ops: seq<Op>, a: Accepted, key: Key, f: string, p: Accepted)
    requires capacity > 0 && PutsInTimeOrder(ops) && ops != [] && Admit(ops[|ops| - 1]) == Some(a) && a.key != key
    requires LastNamePut(ops[..|ops| - 1], key, f) == Some(p) && Holds(Apply(capacity, [], ops[..|ops| - 1]), key, f, p.expires)
    ensures Holds(Apply(capacity, [], ops), key, f, p.expires) || |KeysSince(ops, p.now) - {key}| >= capacity
  {
    var init, op := ops[..|ops| - 1], ops[|ops| - 1];
    assert op.now == a.now;
    hide Apply, Holds, KeysSince, LastPut, LastNamePut, Admit;
    KeyPutAfterName(init, key, f);
    LastPutIsEarlier(init, key, op.now);
    EvictionKeepsOrCrowdsOut(capacity, ops, a, key, f, p.expires);
    var t := LastPut(init, key).value.now;
    KeysSinceEarlier(ops, p.now, t);
    SubsetCount(KeysSince(ops, t) - {key}, KeysSince(ops, p.now) - {key});
  }
}
