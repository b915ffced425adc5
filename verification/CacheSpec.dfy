/**
  The meaning of the DNS correlation cache, on values: what one operation does to the list of
  records, what a whole run of operations means as a log, and the theorems that connect the two.
  The class in Cache.dfy is proved to implement `Step` on the heap.
 */
module CacheSpec {
  import opened Basics

  const MAX_NAMES: nat := 8
  const MAX_HOSTNAME: nat := 253
  const NS_PER_SECOND: nat := 1_000_000_000
  const ZERO_TTL_GRACE_NS: nat := 5 * 1_000_000_000

  datatype Name = Name(value: string, expires: uint64)

  /** What identifies an entry: container, family and the family-sized prefix of the address. */
  datatype Key = Key(id: uint64, family: int, prefix: seq<uint8>)

  datatype Record = Record(key: Key, names: seq<Name>, touched: uint64)

  datatype Op =
    | Put(id: uint64, family: int, address: seq<uint8>, name: string, ttl: uint32, now: uint64)
    | Prune(now: uint64)

  /** A Put that passed the argument checks, with its key, cleaned name and expiry. */
  datatype Accepted = Accepted(key: Key, value: string, expires: uint64, now: uint64)

  // ----- scalars -----

  function AddrSize(family: int): nat {
    if family == 2 then 4 else if family == 10 then 16 else 0
  }

  function CleanName(name: string): string {
    if |name| > 0 && name[|name| - 1] == '.' then name[..|name| - 1] else name
  }

  function Lower(c: char): char {
    if 'A' <= c <= 'Z' then (c as int + 32) as char else c
  }

  /** ASCII lower case; two names are equal to the cache when their folds are equal. */
  function Fold(s: string): (r: string)
    ensures |r| == |s|
  {
    seq(|s|, i requires 0 <= i < |s| => Lower(s[i]))
  }

  /** How long an answer stays usable: its TTL, or the grace period for a zero TTL. */
  function Lifetime(ttl: uint32): nat {
    if ttl == 0 then ZERO_TTL_GRACE_NS else ttl * NS_PER_SECOND
  }

  /** Expiry in the source's unsigned 64-bit arithmetic. */
  function Expiry(ttl: uint32, now: uint64): uint64 {
    (now + Lifetime(ttl)) % TWO_TO_THE_64
  }

  /** The expiry lies in the future exactly when the 64-bit addition does not wrap. */
  lemma ExpiryIsLaterIffNoWrap(ttl: uint32, now: uint64)
    ensures Expiry(ttl, now) > now <==> now + Lifetime(ttl) < TWO_TO_THE_64
    ensures Expiry(ttl, now) > now ==> Expiry(ttl, now) == now + Lifetime(ttl)
    ensures now <= TWO_TO_THE_64 - 1 - 0xFFFF_FFFF * NS_PER_SECOND ==> Expiry(ttl, now) > now
  {
    var sum := now + Lifetime(ttl);
    if sum < TWO_TO_THE_64 {
      assert sum % TWO_TO_THE_64 == sum;
    } else {
      assert sum < 2 * TWO_TO_THE_64;
      assert sum % TWO_TO_THE_64 == sum - TWO_TO_THE_64;
    }
  }

  function KeyFor(id: uint64, family: int, address: seq<uint8>): Option<Key> {
    if AddrSize(family) == 0 || |address| < AddrSize(family) then None
    else Some(Key(id, family, address[..AddrSize(family)]))
  }

  function Admit(op: Op): Option<Accepted> {
    match op
    case Prune(_) => None
    case Put(id, family, address, name, ttl, now) =>
      var value := CleanName(name);
      var key := KeyFor(id, family, address);
      if value == "" || |value| > MAX_HOSTNAME || key.None? then None
      else Some(Accepted(key.value, value, Expiry(ttl, now), now))
  }

  // ----- what the scalars mean -----

  /** Two letters are the same to the cache: equal, or one the ASCII upper case of the other. */
  predicate SameLetter(a: char, b: char) {
    || a == b
    || ('A' <= a <= 'Z' && b as int == a as int + 32)
    || ('A' <= b <= 'Z' && a as int == b as int + 32)
  }

  lemma FoldsAgreeIff(a: string, b: string)
    ensures Fold(a) == Fold(b) <==> |a| == |b| && forall i :: 0 <= i < |a| ==> SameLetter(a[i], b[i])
  {
    forall x: char, y: char ensures Lower(x) == Lower(y) <==> SameLetter(x, y) {
    }
    if Fold(a) == Fold(b) {
      forall i | 0 <= i < |a| ensures SameLetter(a[i], b[i]) {
        assert Fold(a)[i] == Fold(b)[i];
      }
    }
  }

  /** Two addresses share an entry iff container and family agree and so do all 4 or 16 bytes of the address. */
  lemma KeysAgreeIff(id: uint64, family: int, a: seq<uint8>, id': uint64, family': int, b: seq<uint8>)
    ensures KeyFor(id, family, a).Some? <==> (family == 2 && |a| >= 4) || (family == 10 && |a| >= 16)
    ensures KeyFor(id, family, a).Some? && KeyFor(id', family', b).Some? ==>
              (KeyFor(id, family, a) == KeyFor(id', family', b)
               <==> id == id' && family == family' && if family == 2 then a[..4] == b[..4] else a[..16] == b[..16])
  {
  }

  /** The name a Put stores: its one final dot, if there is one, is not part of it. */
  lemma CleanNameIs(name: string)
    ensures CleanName(name + ".") == name
    ensures name == "" || name[|name| - 1] != '.' ==> CleanName(name) == name
  {
  }

  /** What a Put of a name with this lifetime does: it is ignored, or accepted with its 64-bit expiry. */
  lemma AdmitIff(id: uint64, family: int, address: seq<uint8>, name: string, ttl: uint32, now: uint64)
    ensures var a := Admit(Op.Put(id, family, address, name, ttl, now));
            && (a.Some? <==> 1 <= |CleanName(name)| <= 253 && ((family == 2 && |address| >= 4) || (family == 10 && |address| >= 16)))
            && (a.Some? ==>
                  && Some(a.value.key) == KeyFor(id, family, address) && a.value.value == CleanName(name) && a.value.now == now
                  && a.value.expires == (now + if ttl == 0 then 5_000_000_000 else ttl * 1_000_000_000) % 0x1_0000_0000_0000_0000)
  {
  }

  // ----- one operation -----

  /** Index of the first name equal to value up to case, or |names|. */
  function NameIndex(names: seq<Name>, value: string): (i: nat)
    ensures i <= |names|
    ensures i < |names| ==> Fold(names[i].value) == Fold(value)
    ensures forall j :: 0 <= j < i ==> Fold(names[j].value) != Fold(value)
  {
    if names == [] then 0
    else if Fold(names[0].value) == Fold(value) then 0
    else 1 + NameIndex(names[1..], value)
  }

  /** Refresh in place, append while there is room, otherwise drop the oldest and append. */
  function PutName(names: seq<Name>, value: string, expires: uint64): seq<Name> {
    var i := NameIndex(names, value);
    if i < |names| then names[i := names[i].(expires := expires)]
    else if |names| < MAX_NAMES then names + [Name(value, expires)]
    else names[1..] + [Name(value, expires)]
  }

  /** Index of the first record with this key, or |rs|. */
  function RecordIndex(rs: seq<Record>, key: Key): (i: nat)
    ensures i <= |rs|
    ensures i < |rs| ==> rs[i].key == key
    ensures forall j :: 0 <= j < i ==> rs[j].key != key
  {
    if rs == [] then 0
    else if rs[0].key == key then 0
    else 1 + RecordIndex(rs[1..], key)
  }

  /** i is the lowest-indexed record among those touched longest ago. */
  predicate IsVictim(rs: seq<Record>, i: nat) {
    && i < |rs|
    && (forall j :: 0 <= j < |rs| ==> rs[i].touched <= rs[j].touched)
    && (forall j :: 0 <= j < i ==> rs[i].touched < rs[j].touched)
  }

  function Victim(rs: seq<Record>): (i: nat)
    requires rs != []
    ensures IsVictim(rs, i)
  {
    if |rs| == 1 then 0
    else
      var i := Victim(rs[..|rs| - 1]);
      if rs[|rs| - 1].touched < rs[i].touched then |rs| - 1 else i
  }

  function PutRecord(capacity: nat, rs: seq<Record>, a: Accepted): seq<Record>
    requires capacity > 0
  {
    var i := RecordIndex(rs, a.key);
    if i < |rs| then rs[i := Record(a.key, PutName(rs[i].names, a.value, a.expires), a.now)]
    else
      var newcomer := Record(a.key, [Name(a.value, a.expires)], a.now);
      if |rs| >= capacity then rs[Victim(rs) := newcomer] else rs + [newcomer]
  }

  function PruneNames(names: seq<Name>, now: uint64): (r: seq<Name>)
    ensures |r| <= |names|
  {
    if names == [] then []
    else
      var last := names[|names| - 1];
      PruneNames(names[..|names| - 1], now) + if last.expires > now then [last] else []
  }

  lemma {:induction false} PruneNamesMembers(names: seq<Name>, now: uint64)
    ensures forall n :: n in PruneNames(names, now) <==> n in names && n.expires > now
  {
    if names != [] {
      var init, last := names[..|names| - 1], names[|names| - 1];
      PruneNamesMembers(init, now);
      assert names == init + [last];
    }
  }

  function PruneRecords(rs: seq<Record>, now: uint64): (r: seq<Record>)
    ensures |r| <= |rs|
  {
    if rs == [] then []
    else
      var last := rs[|rs| - 1];
      var names := PruneNames(last.names, now);
      PruneRecords(rs[..|rs| - 1], now) + if names == [] then [] else [last.(names := names)]
  }

  lemma PruneNamesSnoc(names: seq<Name>, i: nat, now: uint64)
    requires i < |names|
    ensures PruneNames(names[..i + 1], now) ==
            PruneNames(names[..i], now) + if names[i].expires > now then [names[i]] else []
  {
    assert names[..i + 1][..i] == names[..i];
  }

  lemma PruneRecordsSnoc(rs: seq<Record>, i: nat, now: uint64)
    requires i < |rs|
    ensures var names := PruneNames(rs[i].names, now);
            PruneRecords(rs[..i + 1], now) ==
            PruneRecords(rs[..i], now) + if names == [] then [] else [rs[i].(names := names)]
  {
    assert rs[..i + 1][..i] == rs[..i];
  }

  function Step(capacity: nat, rs: seq<Record>, op: Op): seq<Record> {
    match op
    case Prune(now) => PruneRecords(rs, now)
    case Put(_, _, _, _, _, _) =>
      var a := Admit(op);
      if a.None? || capacity == 0 then rs else PutRecord(capacity, rs, a.value)
  }

  function Apply(capacity: nat, rs: seq<Record>, ops: seq<Op>): seq<Record> {
    if ops == [] then rs
    else Step(capacity, Apply(capacity, rs, ops[..|ops| - 1]), ops[|ops| - 1])
  }

  lemma ApplySnoc(capacity: nat, rs: seq<Record>, ops: seq<Op>, op: Op)
    ensures Apply(capacity, rs, ops + [op]) == Step(capacity, Apply(capacity, rs, ops), op)
  {
    assert (ops + [op])[..|ops|] == ops;
  }

  lemma {:induction false} ApplyConcat(capacity: nat, rs: seq<Record>, a: seq<Op>, b: seq<Op>)
    ensures Apply(capacity, rs, a + b) == Apply(capacity, Apply(capacity, rs, a), b)
  {
    if b == [] {
      assert a + b == a;
    } else {
      ApplyConcat(capacity, rs, a, b[..|b| - 1]);
      assert (a + b)[..|a + b| - 1] == a + b[..|b| - 1];
    }
  }

  // ----- representation invariant -----

  predicate DistinctFolds(names: seq<Name>) {
    forall i, j :: 0 <= i < j < |names| ==> Fold(names[i].value) != Fold(names[j].value)
  }

  predicate DistinctKeys(rs: seq<Record>) {
    forall i, j :: 0 <= i < j < |rs| ==> rs[i].key != rs[j].key
  }

  predicate WfNames(names: seq<Name>) {
    && 1 <= |names| <= MAX_NAMES
    && (forall i :: 0 <= i < |names| ==> 0 < |names[i].value| <= MAX_HOSTNAME)
    && DistinctFolds(names)
  }

  predicate Wf(capacity: nat, rs: seq<Record>) {
    && |rs| <= capacity
    && (forall i :: 0 <= i < |rs| ==> WfNames(rs[i].names))
    && (forall i :: 0 <= i < |rs| ==> |rs[i].key.prefix| == AddrSize(rs[i].key.family) > 0)
    && DistinctKeys(rs)
  }

  lemma PutNameWf(names: seq<Name>, value: string, expires: uint64)
    requires names == [] || WfNames(names)
    requires 0 < |value| <= MAX_HOSTNAME
    ensures WfNames(PutName(names, value, expires))
  {
    var i := NameIndex(names, value);
    var r := PutName(names, value, expires);
    if i < |names| {
      assert forall j :: 0 <= j < |r| ==> r[j].value == names[j].value;
    } else if |names| == MAX_NAMES {
      assert forall j :: 0 <= j < |r| - 1 ==> r[j] == names[j + 1];
    }
  }

  lemma {:induction false} PruneNamesWf(names: seq<Name>, now: uint64)
    requires DistinctFolds(names)
    ensures DistinctFolds(PruneNames(names, now))
  {
    if names != [] {
      var init, last := names[..|names| - 1], names[|names| - 1];
      PruneNamesWf(init, now);
      PruneNamesMembers(init, now);
      var p := PruneNames(init, now);
      forall i | 0 <= i < |p| ensures Fold(p[i].value) != Fold(last.value) {
        assert p[i] in init;
      }
      if last.expires > now {
        assert PruneNames(names, now) == p + [last];
      } else {
        assert PruneNames(names, now) == p;
      }
    }
  }

  lemma {:induction false} PruneKeepsStamps(rs: seq<Record>, now: uint64)
    ensures forall r :: r in PruneRecords(rs, now) ==>
              exists q :: q in rs && q.key == r.key && q.touched == r.touched && r.names == PruneNames(q.names, now) != []
  {
    if rs != [] {
      var init, last := rs[..|rs| - 1], rs[|rs| - 1];
      PruneKeepsStamps(init, now);
      assert rs == init + [last];
      forall r | r in PruneRecords(rs, now)
        ensures exists q :: q in rs && q.key == r.key && q.touched == r.touched && r.names == PruneNames(q.names, now) != []
      {
        if r in PruneRecords(init, now) {
          var q :| q in init && q.key == r.key && q.touched == r.touched && r.names == PruneNames(q.names, now) != [];
          assert q in rs;
        } else {
          assert last in rs;
        }
      }
    }
  }

  lemma {:induction false} PruneKeysDistinct(rs: seq<Record>, now: uint64)
    requires DistinctKeys(rs)
    ensures DistinctKeys(PruneRecords(rs, now))
  {
    if rs != [] {
      var init, last := rs[..|rs| - 1], rs[|rs| - 1];
      PruneKeysDistinct(init, now);
      PruneKeepsStamps(init, now);
      var p := PruneRecords(init, now);
      forall i | 0 <= i < |p| ensures p[i].key != last.key {
        assert p[i] in p;
      }
      var names := PruneNames(last.names, now);
      if names == [] {
        assert PruneRecords(rs, now) == p;
      } else {
        assert PruneRecords(rs, now) == p + [last.(names := names)];
      }
    }
  }

  lemma PrunedNamesWf(names: seq<Name>, now: uint64)
    requires WfNames(names) && PruneNames(names, now) != []
    ensures WfNames(PruneNames(names, now))
  {
    var r := PruneNames(names, now);
    PruneNamesWf(names, now);
    PruneNamesMembers(names, now);
    forall i | 0 <= i < |r| ensures 0 < |r[i].value| <= MAX_HOSTNAME {
      assert r[i] in names;
    }
  }

  lemma PruneRecordsWf(capacity: nat, rs: seq<Record>, now: uint64)
    requires Wf(capacity, rs)
    ensures Wf(capacity, PruneRecords(rs, now))
  {
    PruneKeysDistinct(rs, now);
    PruneKeepsStamps(rs, now);
    var p := PruneRecords(rs, now);
    forall r | r in p ensures WfNames(r.names) && |r.key.prefix| == AddrSize(r.key.family) > 0 {
      var q :| q in rs && q.key == r.key && r.names == PruneNames(q.names, now) != [];
      var i :| 0 <= i < |rs| && rs[i] == q;
      PrunedNamesWf(q.names, now);
    }
  }

  lemma PutRecordWf(capacity: nat, rs: seq<Record>, a: Accepted)
    requires capacity > 0 && Wf(capacity, rs)
    requires 0 < |a.value| <= MAX_HOSTNAME && |a.key.prefix| == AddrSize(a.key.family) > 0
    ensures Wf(capacity, PutRecord(capacity, rs, a))
  {
    var i := RecordIndex(rs, a.key);
    var names := if i < |rs| then rs[i].names else [];
    PutNameWf(names, a.value, a.expires);
    var rs' := PutRecord(capacity, rs, a);
    assert PutName([], a.value, a.expires) == [Name(a.value, a.expires)];
    assert DistinctKeys(rs');
  }

  lemma StepWf(capacity: nat, rs: seq<Record>, op: Op)
    requires Wf(capacity, rs)
    ensures Wf(capacity, Step(capacity, rs, op))
  {
    if op.Prune? {
      PruneRecordsWf(capacity, rs, op.now);
    } else if Admit(op).Some? && capacity > 0 {
      PutRecordWf(capacity, rs, Admit(op).value);
    }
  }

  /** Every run from the empty cache keeps the representation invariant. */
  lemma {:induction false} RunWf(capacity: nat, ops: seq<Op>)
    ensures Wf(capacity, Apply(capacity, [], ops))
  {
    if ops != [] {
      RunWf(capacity, ops[..|ops| - 1]);
      StepWf(capacity, Apply(capacity, [], ops[..|ops| - 1]), ops[|ops| - 1]);
    }
  }

  /** The invariant in numbers. */
  lemma RunBounds(capacity: nat, ops: seq<Op>)
    ensures var rs := Apply(capacity, [], ops);
            && |rs| <= capacity
            && (forall i, j :: 0 <= i < j < |rs| ==> rs[i].key != rs[j].key)
            && (forall r :: r in rs ==> (r.key.family == 2 && |r.key.prefix| == 4) || (r.key.family == 10 && |r.key.prefix| == 16))
            && (forall r :: r in rs ==> 1 <= |r.names| <= 8 && forall n :: n in r.names ==> 1 <= |n.value| <= 253)
            && (forall r :: r in rs ==> forall i, j :: 0 <= i < j < |r.names| ==> Fold(r.names[i].value) != Fold(r.names[j].value))
  {
    RunWf(capacity, ops);
    var rs := Apply(capacity, [], ops);
    hide Apply, Fold;
    forall r | r in rs ensures WfNames(r.names) && |r.key.prefix| == AddrSize(r.key.family) > 0 {
      var i :| 0 <= i < |rs| && rs[i] == r;
    }
  }

  // ----- pruning twice -----

  lemma {:induction false} PruneNamesTwice(names: seq<Name>, a: uint64, b: uint64)
    ensures PruneNames(PruneNames(names, a), b) == PruneNames(names, Max(a, b))
  {
    if names != [] {
      var init, last := names[..|names| - 1], names[|names| - 1];
      PruneNamesTwice(init, a, b);
      if last.expires > a {
        assert (PruneNames(init, a) + [last])[..|PruneNames(init, a)|] == PruneNames(init, a);
      } else {
        assert PruneNames(names, a) == PruneNames(init, a);
      }
    }
  }

  /** Prune(a) then Prune(b) is Prune(max(a, b)): pruning is idempotent and order-free. */
  lemma {:induction false} PruneTwice(rs: seq<Record>, a: uint64, b: uint64)
    ensures PruneRecords(PruneRecords(rs, a), b) == PruneRecords(rs, Max(a, b))
  {
    if rs != [] {
      var init, last := rs[..|rs| - 1], rs[|rs| - 1];
      PruneTwice(init, a, b);
      PruneNamesTwice(last.names, a, b);
      var names := PruneNames(last.names, a);
      if names == [] {
        assert PruneRecords(rs, a) == PruneRecords(init, a);
      } else {
        assert (PruneRecords(init, a) + [last.(names := names)])[..|PruneRecords(init, a)|] == PruneRecords(init, a);
      }
    }
  }

  // ----- the log a run leaves behind -----

  /** The cache answers key with a name that folds to f and expires at e. */
  ghost predicate Holds(rs: seq<Record>, key: Key, f: string, e: uint64) {
    exists r, n :: r in rs && r.key == key && n in r.names && Fold(n.value) == f && n.expires == e
  }

  /** Expiry given by the last accepted Put of this key and folded name. */
  function LastExpiry(ops: seq<Op>, key: Key, f: string): Option<uint64> {
    if ops == [] then None
    else
      var a := Admit(ops[|ops| - 1]);
      if a.Some? && a.value.key == key && Fold(a.value.value) == f then Some(a.value.expires)
      else LastExpiry(ops[..|ops| - 1], key, f)
  }

  /** The last accepted Put of this key. */
  function LastPut(ops: seq<Op>, key: Key): Option<Accepted> {
    if ops == [] then None
    else
      var a := Admit(ops[|ops| - 1]);
      if a.Some? && a.value.key == key then a else LastPut(ops[..|ops| - 1], key)
  }

  /** Keys of accepted Puts stamped at or after t. */
  function KeysSince(ops: seq<Op>, t: uint64): set<Key> {
    if ops == [] then {}
    else
      var a := Admit(ops[|ops| - 1]);
      KeysSince(ops[..|ops| - 1], t) + if a.Some? && a.value.now >= t then {a.value.key} else {}
  }

  /** Folded names ever accepted for key. */
  function FoldsPut(ops: seq<Op>, key: Key): set<string> {
    if ops == [] then {}
    else
      var a := Admit(ops[|ops| - 1]);
      FoldsPut(ops[..|ops| - 1], key) + if a.Some? && a.value.key == key then {Fold(a.value.value)} else {}
  }

  predicate PrunesBy(ops: seq<Op>, t: uint64) {
    forall i :: 0 <= i < |ops| && ops[i].Prune? ==> ops[i].now <= t
  }

  predicate PutsInTimeOrder(ops: seq<Op>) {
    forall i, j :: 0 <= i < j < |ops| && ops[i].Put? && ops[j].Put? ==> ops[i].now <= ops[j].now
  }

  /** No Prune since the last Put of key has reached that Put's expiry. */
  predicate Unexpired(ops: seq<Op>, key: Key) {
    ops != [] &&
    var init, op := ops[..|ops| - 1], ops[|ops| - 1];
    var a := Admit(op);
    if a.Some? && a.value.key == key then true
    else Unexpired(init, key) && (op.Prune? && LastPut(init, key).Some? ==> op.now < LastPut(init, key).value.expires)
  }

  /** op is an accepted Put of a name folding to f on key. */
  predicate PutsName(op: Op, key: Key, f: string) {
    Admit(op).Some? && Admit(op).value.key == key && Fold(Admit(op).value.value) == f
  }

  lemma {:induction false} KeysSinceMembers(ops: seq<Op>, key: Key)
    ensures key in KeysSince(ops, 0) <==> exists op :: op in ops && Admit(op).Some? && Admit(op).value.key == key
  {
    if ops != [] {
      var init, last := ops[..|ops| - 1], ops[|ops| - 1];
      KeysSinceMembers(init, key);
      assert ops == init + [last];
      assert last in ops && forall op :: op in ops <==> op in init || op == last;
    }
  }

  lemma {:induction false} FoldsPutMembers(ops: seq<Op>, key: Key, f: string)
    ensures f in FoldsPut(ops, key) <==> exists op :: op in ops && PutsName(op, key, f)
    ensures LastExpiry(ops, key, f).Some? <==> f in FoldsPut(ops, key)
  {
    if ops != [] {
      var init, last := ops[..|ops| - 1], ops[|ops| - 1];
      FoldsPutMembers(init, key, f);
      assert ops == init + [last];
      assert last in ops && forall op :: op in ops <==> op in init || op == last;
    }
  }

  lemma {:induction false} LastExpiryMember(ops: seq<Op>, key: Key, f: string) returns (op: Op)
    requires LastExpiry(ops, key, f).Some?
    ensures op in ops && PutsName(op, key, f) && Admit(op).value.expires == LastExpiry(ops, key, f).value
  {
    op := ops[|ops| - 1];
    if !PutsName(op, key, f) {
      op := LastExpiryMember(ops[..|ops| - 1], key, f);
    }
  }

  // ----- how one operation changes what is held -----

  lemma PutNameMembers(names: seq<Name>, value: string, expires: uint64)
    ensures forall n :: n in PutName(names, value, expires) ==>
              (Fold(n.value) == Fold(value) && n.expires == expires) || (n in names)
    ensures exists n :: n in PutName(names, value, expires) && Fold(n.value) == Fold(value) && n.expires == expires
  {
    var i := NameIndex(names, value);
    var r := PutName(names, value, expires);
    if i < |names| {
      assert r[i] in r;
    } else {
      assert r[|r| - 1] in r;
    }
  }

  /** With distinct folds, a refresh replaces the old expiry and rotation only drops names. */
  lemma PutNameExact(names: seq<Name>, value: string, expires: uint64)
    requires names == [] || WfNames(names)
    ensures forall n :: n in PutName(names, value, expires) && Fold(n.value) == Fold(value) ==> n.expires == expires
    ensures NameIndex(names, value) < |names| || |names| < MAX_NAMES ==>
              forall n :: n in names && Fold(n.value) != Fold(value) ==> n in PutName(names, value, expires)
  {
    var i := NameIndex(names, value);
    var r := PutName(names, value, expires);
    if i < |names| {
      forall n | n in r && Fold(n.value) == Fold(value) ensures n.expires == expires {
        var j :| 0 <= j < |r| && r[j] == n;
      }
      forall n | n in names && Fold(n.value) != Fold(value) ensures n in r {
        var j :| 0 <= j < |names| && names[j] == n;
        assert r[j] == n;
      }
    }
  }

  /** The names the key already has, none if it is new. */
  function NamesBefore(rs: seq<Record>, key: Key): seq<Name> {
    var i := RecordIndex(rs, key);
    if i < |rs| then rs[i].names else []
  }

  /** After a Put there is one record for its key, and every other record is an old one. */
  lemma PutRecordMembers(capacity: nat, rs: seq<Record>, a: Accepted, r: Record)
    requires capacity > 0 && Wf(capacity, rs)
    requires r in PutRecord(capacity, rs, a)
    ensures if r.key == a.key then r == Record(a.key, PutName(NamesBefore(rs, a.key), a.value, a.expires), a.now)
            else r in rs
  {
    var rs' := PutRecord(capacity, rs, a);
    var j :| 0 <= j < |rs'| && rs'[j] == r;
    var i := RecordIndex(rs, a.key);
    assert r.key == a.key && i < |rs| ==> j == i;
  }

  /** After a Put, anything held was just put or was held before; the just-put name has its new expiry only. */
  lemma PutHoldsOnlyIf(capacity: nat, rs: seq<Record>, a: Accepted, key: Key, f: string, e: uint64)
    requires capacity > 0 && Wf(capacity, rs)
    requires Holds(PutRecord(capacity, rs, a), key, f, e)
    ensures if key == a.key && f == Fold(a.value) then e == a.expires else Holds(rs, key, f, e)
  {
    var rs' := PutRecord(capacity, rs, a);
    var r, n :| r in rs' && r.key == key && n in r.names && Fold(n.value) == f && n.expires == e;
    PutRecordMembers(capacity, rs, a, r);
    if key == a.key {
      var names := NamesBefore(rs, a.key);
      PutNameExact(names, a.value, a.expires);
      PutNameMembers(names, a.value, a.expires);
      if f != Fold(a.value) {
        assert n in names;
        assert rs[RecordIndex(rs, a.key)] in rs;
      }
    }
  }

  lemma PutHoldsNew(capacity: nat, rs: seq<Record>, a: Accepted)
    requires capacity > 0
    ensures Holds(PutRecord(capacity, rs, a), a.key, Fold(a.value), a.expires)
  {
    var rs' := PutRecord(capacity, rs, a);
    var i := RecordIndex(rs, a.key);
    var names := NamesBefore(rs, a.key);
    PutNameMembers(names, a.value, a.expires);
    var r := Record(a.key, PutName(names, a.value, a.expires), a.now);
    assert r in rs' by {
      if i < |rs| {
        assert rs'[i] == r;
      } else if |rs| >= capacity && rs != [] {
        assert rs'[Victim(rs)] == r;
      } else {
        assert rs'[|rs|] == r;
      }
    }
  }

  /** A Put that neither evicts nor rotates keeps every other held name. */
  lemma PutHoldsOther(capacity: nat, rs: seq<Record>, a: Accepted, key: Key, f: string, e: uint64)
    requires capacity > 0 && Wf(capacity, rs)
    requires Holds(rs, key, f, e)
    requires key != a.key || f != Fold(a.value)
    requires var i := RecordIndex(rs, a.key);
             if i == |rs| then |rs| < capacity || rs[Victim(rs)].key != key
             else key != a.key || NameIndex(rs[i].names, a.value) < |rs[i].names| || |rs[i].names| < MAX_NAMES
    ensures Holds(PutRecord(capacity, rs, a), key, f, e)
  {
    var rs' := PutRecord(capacity, rs, a);
    var r, n :| r in rs && r.key == key && n in r.names && Fold(n.value) == f && n.expires == e;
    var j :| 0 <= j < |rs| && rs[j] == r;
    var i := RecordIndex(rs, a.key);
    if i == |rs| {
      assert rs'[j] == r;
    } else if i == j {
      PutNameExact(rs[i].names, a.value, a.expires);
      assert rs'[i] in rs';
    } else {
      assert rs'[j] == r;
    }
  }

  lemma HoldsConcat(a: seq<Record>, b: seq<Record>, key: Key, f: string, e: uint64)
    ensures Holds(a + b, key, f, e) <==> Holds(a, key, f, e) || Holds(b, key, f, e)
  {
    if Holds(a + b, key, f, e) {
      var r, n :| r in a + b && r.key == key && n in r.names && Fold(n.value) == f && n.expires == e;
      assert r in a || r in b;
    }
  }

  lemma {:induction false} PruneHolds(rs: seq<Record>, now: uint64, key: Key, f: string, e: uint64)
    ensures Holds(PruneRecords(rs, now), key, f, e) <==> Holds(rs, key, f, e) && e > now
  {
    if rs != [] {
      var init, last := rs[..|rs| - 1], rs[|rs| - 1];
      assert rs == init + [last];
      PruneHolds(init, now, key, f, e);
      HoldsConcat(init, [last], key, f, e);
      var names := PruneNames(last.names, now);
      PruneNamesMembers(last.names, now);
      var tail := if names == [] then [] else [last.(names := names)];
      HoldsConcat(PruneRecords(init, now), tail, key, f, e);
      if Holds([last], key, f, e) && e > now {
        var n :| n in last.names && Fold(n.value) == f && n.expires == e;
        assert n in names && tail[0] in tail;
      }
    }
  }

  // ----- soundness: nothing is ever held that was not last put -----

  /**
    Sound attribution, in every run whatever its clock, evictions and rotations: a name the cache
    answers for a key was put for exactly that key, and carries the expiry of its latest Put.
   */
  lemma {:induction false} HeldWasLastPut(capacity: nat, ops: seq<Op>, key: Key, f: string, e: uint64)
    requires Holds(Apply(capacity, [], ops), key, f, e)
    ensures LastExpiry(ops, key, f) == Some(e)
  {
    assert ops != [];
    var init, op := ops[..|ops| - 1], ops[|ops| - 1];
    var rs := Apply(capacity, [], init);
    RunWf(capacity, init);
    match op
    case Prune(now) =>
      PruneHolds(rs, now, key, f, e);
      HeldWasLastPut(capacity, init, key, f, e);
    case Put(_, _, _, _, _, _) =>
      var a := Admit(op);
      if a.None? {
        HeldWasLastPut(capacity, init, key, f, e);
      } else if capacity == 0 {
        assert false;
      } else {
        PutHoldsOnlyIf(capacity, rs, a.value, key, f, e);
        if key != a.value.key || f != Fold(a.value.value) {
          HeldWasLastPut(capacity, init, key, f, e);
        }
      }
  }

  // ----- completeness: without eviction and rotation nothing is lost -----

  function RecordKeys(rs: seq<Record>): set<Key> {
    set r | r in rs :: r.key
  }

  lemma {:induction false} RecordKeysCount(rs: seq<Record>)
    requires DistinctKeys(rs)
    ensures |RecordKeys(rs)| == |rs|
  {
    if rs != [] {
      var init, last := rs[..|rs| - 1], rs[|rs| - 1];
      RecordKeysCount(init);
      assert rs == init + [last];
      assert RecordKeys(rs) == RecordKeys(init) + {last.key};
      assert last.key !in RecordKeys(init);
    }
  }

  function NameFolds(names: seq<Name>): set<string> {
    set n | n in names :: Fold(n.value)
  }

  lemma {:induction false} NameFoldsCount(names: seq<Name>)
    requires DistinctFolds(names)
    ensures |NameFolds(names)| == |names|
  {
    if names != [] {
      var init, last := names[..|names| - 1], names[|names| - 1];
      NameFoldsCount(init);
      assert names == init + [last];
      assert NameFolds(names) == NameFolds(init) + {Fold(last.value)};
      assert Fold(last.value) !in NameFolds(init);
    }
  }

  lemma {:induction false} LastExpiryIsLogged(ops: seq<Op>, key: Key, f: string)
    requires LastExpiry(ops, key, f).Some?
    ensures key in KeysSince(ops, 0) && f in FoldsPut(ops, key)
  {
    var a := Admit(ops[|ops| - 1]);
    if !(a.Some? && a.value.key == key && Fold(a.value.value) == f) {
      LastExpiryIsLogged(ops[..|ops| - 1], key, f);
    }
  }

  /** What a run holds is among what it logged. */
  lemma RunKeysLogged(capacity: nat, ops: seq<Op>)
    ensures RecordKeys(Apply(capacity, [], ops)) <= KeysSince(ops, 0)
    ensures forall r :: r in Apply(capacity, [], ops) ==> NameFolds(r.names) <= FoldsPut(ops, r.key)
  {
    var rs := Apply(capacity, [], ops);
    RunWf(capacity, ops);
    forall r, n | r in rs && n in r.names
      ensures r.key in KeysSince(ops, 0) && Fold(n.value) in FoldsPut(ops, r.key)
    {
      assert Holds(rs, r.key, Fold(n.value), n.expires);
      HeldWasLastPut(capacity, ops, r.key, Fold(n.value), n.expires);
      LastExpiryIsLogged(ops, r.key, Fold(n.value));
    }
    forall r | r in rs ensures r.key in KeysSince(ops, 0) {
      assert r.names[0] in r.names;
    }
  }

  /** The caps never bite: the run names at most `capacity` keys and at most eight names on each. */
  ghost predicate WithinCaps(capacity: nat, ops: seq<Op>) {
    && |KeysSince(ops, 0)| <= capacity
    && forall key :: |FoldsPut(ops, key)| <= 8
  }

  lemma WithinCapsPrefix(capacity: nat, ops: seq<Op>)
    requires ops != [] && WithinCaps(capacity, ops)
    ensures WithinCaps(capacity, ops[..|ops| - 1])
  {
    var init := ops[..|ops| - 1];
    SubsetCount(KeysSince(init, 0), KeysSince(ops, 0));
    forall key ensures |FoldsPut(init, key)| <= 8 {
      SubsetCount(FoldsPut(init, key), FoldsPut(ops, key));
    }
  }

  /** Within the caps, a Put finds a free slot for a new key and a free place for a new name. */
  lemma NoEvictionWithinCaps(capacity: nat, ops: seq<Op>, a: Accepted)
    requires ops != [] && WithinCaps(capacity, ops) && Admit(ops[|ops| - 1]) == Some(a)
    ensures var rs := Apply(capacity, [], ops[..|ops| - 1]);
            var i := RecordIndex(rs, a.key);
            if i == |rs| then |rs| < capacity
            else NameIndex(rs[i].names, a.value) < |rs[i].names| || |rs[i].names| < MAX_NAMES
  {
    var init := ops[..|ops| - 1];
    var rs := Apply(capacity, [], init);
    RunWf(capacity, init);
    RunKeysLogged(capacity, init);
    RecordKeysCount(rs);
    var i := RecordIndex(rs, a.key);
    if i == |rs| {
      assert a.key !in RecordKeys(rs);
      assert |RecordKeys(rs) + {a.key}| == |rs| + 1;
      SubsetCount(RecordKeys(rs) + {a.key}, KeysSince(ops, 0));
    } else if NameIndex(rs[i].names, a.value) == |rs[i].names| {
      assert rs[i] in rs;
      NameFoldsCount(rs[i].names);
      assert Fold(a.value) !in NameFolds(rs[i].names);
      assert |NameFolds(rs[i].names) + {Fold(a.value)}| == |rs[i].names| + 1;
      SubsetCount(NameFolds(rs[i].names) + {Fold(a.value)}, FoldsPut(ops, a.key));
    }
  }

  lemma {:induction false} LastPutIsHeld(capacity: nat, ops: seq<Op>, key: Key, f: string, e: uint64)
    requires WithinCaps(capacity, ops)
    requires forall i :: 0 <= i < |ops| && ops[i].Prune? ==> ops[i].now < e
    requires LastExpiry(ops, key, f) == Some(e)
    ensures Holds(Apply(capacity, [], ops), key, f, e)
  {
    var init, op := ops[..|ops| - 1], ops[|ops| - 1];
    var rs := Apply(capacity, [], init);
    WithinCapsPrefix(capacity, ops);
    RunWf(capacity, init);
    var a := Admit(op);
    if a.Some? {
      assert a.value.key in KeysSince(ops, 0);
      assert capacity > 0;
      if a.value.key == key && Fold(a.value.value) == f {
        PutHoldsNew(capacity, rs, a.value);
      } else {
        LastPutIsHeld(capacity, init, key, f, e);
        NoEvictionWithinCaps(capacity, ops, a.value);
        PutHoldsOther(capacity, rs, a.value, key, f, e);
      }
    } else {
      LastPutIsHeld(capacity, init, key, f, e);
      if op.Prune? {
        PruneHolds(rs, op.now, key, f, e);
      }
    }
  }

  /**
    The cache refines its log: in a run within the caps and with no earlier Prune stamped later,
    Prune(t) leaves on every key exactly the names whose last Put expires after t, with that expiry.
   */
  lemma CacheRefinesLog(capacity: nat, ops: seq<Op>, t: uint64, key: Key, f: string, e: uint64)
    requires WithinCaps(capacity, ops) && PrunesBy(ops, t)
    ensures Holds(Apply(capacity, [], ops + [Prune(t)]), key, f, e) <==> LastExpiry(ops, key, f) == Some(e) && e > t
  {
    var rs := Apply(capacity, [], ops);
    assert (ops + [Prune(t)])[..|ops|] == ops;
    PruneHolds(rs, t, key, f, e);
    if Holds(rs, key, f, e) {
      HeldWasLastPut(capacity, ops, key, f, e);
    }
    if LastExpiry(ops, key, f) == Some(e) && e > t {
      LastPutIsHeld(capacity, ops, key, f, e);
    }
  }

  // ----- retention under eviction -----

  lemma {:induction false} TouchedIsLastPut(capacity: nat, ops: seq<Op>, r: Record)
    requires r in Apply(capacity, [], ops)
    ensures LastPut(ops, r.key).Some? && LastPut(ops, r.key).value.now == r.touched
  {
    var init, op := ops[..|ops| - 1], ops[|ops| - 1];
    var rs := Apply(capacity, [], init);
    RunWf(capacity, init);
    var a := Admit(op);
    if op.Prune? {
      PruneKeepsStamps(rs, op.now);
      var q :| q in rs && q.key == r.key && q.touched == r.touched;
      TouchedIsLastPut(capacity, init, q);
    } else if a.None? || capacity == 0 {
      TouchedIsLastPut(capacity, init, r);
    } else {
      PutRecordMembers(capacity, rs, a.value, r);
      if r.key != a.value.key {
        TouchedIsLastPut(capacity, init, r);
      }
    }
  }

  lemma {:induction false} LastPutIsSince(ops: seq<Op>, key: Key, t: uint64)
    requires LastPut(ops, key).Some? && LastPut(ops, key).value.now >= t
    ensures key in KeysSince(ops, t)
  {
    var a := Admit(ops[|ops| - 1]);
    if !(a.Some? && a.value.key == key) {
      LastPutIsSince(ops[..|ops| - 1], key, t);
    }
  }

  lemma {:induction false} LastPutIsEarlier(ops: seq<Op>, key: Key, now: uint64)
    requires LastPut(ops, key).Some?
    requires forall i :: 0 <= i < |ops| && ops[i].Put? ==> ops[i].now <= now
    ensures LastPut(ops, key).value.now <= now
  {
    var a := Admit(ops[|ops| - 1]);
    if !(a.Some? && a.value.key == key) {
      LastPutIsEarlier(ops[..|ops| - 1], key, now);
    }
  }

  /**
    When a Put evicts a key touched at t, the newcomer and the other residents, all put at or after t, are
    `capacity` keys; the newcomer is one of those put at or after t unless its own clock ran behind.
   */
  lemma EvictionNeedsCapacityKeys(capacity: nat, ops: seq<Op>, a: Accepted, t: uint64)
    requires capacity > 0 && ops != [] && Admit(ops[|ops| - 1]) == Some(a)
    requires var rs := Apply(capacity, [], ops[..|ops| - 1]);
             RecordIndex(rs, a.key) == |rs| && |rs| >= capacity && rs[Victim(rs)].touched == t
    ensures var rs := Apply(capacity, [], ops[..|ops| - 1]);
            var others := KeysSince(ops, t) - {rs[Victim(rs)].key};
            |others + {a.key}| >= capacity && (a.now >= t ==> |others| >= capacity)
  {
    var init := ops[..|ops| - 1];
    var rs := Apply(capacity, [], init);
    var victim := rs[Victim(rs)];
    ResidentKeys(capacity, init, t);
    assert victim in rs && victim.key in RecordKeys(rs) && a.key !in RecordKeys(rs);
    var others := RecordKeys(rs) - {victim.key} + {a.key};
    assert |others| == |rs|;
    SubsetCount(others, KeysSince(ops, t) - {victim.key} + {a.key});
    assert a.now >= t ==> KeysSince(ops, t) - {victim.key} + {a.key} == KeysSince(ops, t) - {victim.key};
  }

  /** If every record was touched at or after t, the residents are that many keys put at or after t. */
  lemma ResidentKeys(capacity: nat, ops: seq<Op>, t: uint64)
    requires forall r :: r in Apply(capacity, [], ops) ==> r.touched >= t
    ensures var rs := Apply(capacity, [], ops);
            |RecordKeys(rs)| == |rs| && RecordKeys(rs) <= KeysSince(ops, t)
  {
    var rs := Apply(capacity, [], ops);
    RunWf(capacity, ops);
    RecordKeysCount(rs);
    forall r | r in rs ensures r.key in KeysSince(ops, t) {
      TouchedIsLastPut(capacity, ops, r);
      LastPutIsSince(ops, r.key, t);
    }
  }

  /** One Put of another key either keeps what key holds or evicts it, and then the cache is crowded. */
  lemma OtherPutKeepsOrCrowdsOut(capacity: nat, ops: seq<Op>, a: Accepted, p: Accepted)
    requires capacity > 0 && ops != [] && Admit(ops[|ops| - 1]) == Some(a)
    requires LastPut(ops[..|ops| - 1], p.key) == Some(p) && a.key != p.key && p.now <= a.now
    requires Holds(Apply(capacity, [], ops[..|ops| - 1]), p.key, Fold(p.value), p.expires)
    ensures || Holds(Apply(capacity, [], ops), p.key, Fold(p.value), p.expires)
            || |KeysSince(ops, p.now) - {p.key}| >= capacity
  {
    var init := ops[..|ops| - 1];
    var rs := Apply(capacity, [], init);
    RunWf(capacity, init);
    var i := RecordIndex(rs, a.key);
    if i == |rs| && |rs| >= capacity && rs[Victim(rs)].key == p.key {
      assert rs[Victim(rs)] in rs;
      TouchedIsLastPut(capacity, init, rs[Victim(rs)]);
      EvictionNeedsCapacityKeys(capacity, ops, a, p.now);
    } else {
      PutHoldsOther(capacity, rs, a, p.key, Fold(p.value), p.expires);
    }
  }

  lemma {:induction false} LastPutKey(ops: seq<Op>, key: Key)
    ensures LastPut(ops, key).Some? ==> LastPut(ops, key).value.key == key
  {
    if ops != [] {
      LastPutKey(ops[..|ops| - 1], key);
    }
  }

  /**
    Retention: in a run whose Puts are in time order, the name last put on a key at time t is still
    held, unless it expired or at least `capacity` other keys have been put at or after t.
   */
  lemma {:induction false} RetainedUnlessCrowdedOut(capacity: nat, ops: seq<Op>, key: Key)
    requires capacity > 0 && PutsInTimeOrder(ops)
    requires LastPut(ops, key).Some? && Unexpired(ops, key)
    ensures var p := LastPut(ops, key).value;
            || Holds(Apply(capacity, [], ops), key, Fold(p.value), p.expires)
            || |KeysSince(ops, p.now) - {key}| >= capacity
  {
    var init, op := ops[..|ops| - 1], ops[|ops| - 1];
    var p := LastPut(ops, key).value;
    LastPutKey(ops, key);
    var a := Admit(op);
    if a.Some? && a.value.key == key {
      PutHoldsNew(capacity, Apply(capacity, [], init), p);
    } else {
      RetainedUnlessCrowdedOut(capacity, init, key);
      if |KeysSince(init, p.now) - {key}| >= capacity {
        SubsetCount(KeysSince(init, p.now) - {key}, KeysSince(ops, p.now) - {key});
      } else if op.Prune? {
        PruneHolds(Apply(capacity, [], init), op.now, key, Fold(p.value), p.expires);
      } else if a.Some? {
        LastPutIsEarlier(init, key, op.now);
        OtherPutKeepsOrCrowdsOut(capacity, ops, a.value, p);
      }
    }
  }
}
