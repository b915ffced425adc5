/**
  From a decoded DNS answer to cache entries: every address record puts its owner, and every alias
  that points straight at the owner, on the address.
 */
module Dns {
  import opened Basics
  import opened CacheSpec
  import opened Cache

  const MAX_CNAMES: nat := 32
  const DNS_HEADER: nat := 12

  /** A decoded answer record; an address is what To4 or To16 gives, empty when the record has none. */
  datatype RR =
    | A(name: string, ttl: uint32, address: seq<uint8>)
    | AAAA(name: string, ttl: uint32, address: seq<uint8>)
    | CNAME(name: string, ttl: uint32, target: string)
    | Other

  datatype Msg = Msg(response: bool, answer: seq<RR>)

  datatype Cname = Cname(alias: string, target: string, ttl: uint32)

  // ----- what a response means -----

  predicate IsAddress(rr: RR) {
    rr.A? || rr.AAAA?
  }

  function FamilyOf(rr: RR): int {
    if rr.A? then 2 else 10
  }

  predicate Admissible(rr: RR) {
    rr.CNAME? && |CleanName(rr.name)| <= MAX_HOSTNAME && |CleanName(rr.target)| <= MAX_HOSTNAME
  }

  function AdmissibleCount(answer: seq<RR>): nat {
    if answer == [] then 0
    else AdmissibleCount(answer[..|answer| - 1]) + if Admissible(answer[|answer| - 1]) then 1 else 0
  }

  function Cleaned(c: RR): Cname
    requires c.CNAME?
  {
    Cname(CleanName(c.name), CleanName(c.target), c.ttl)
  }

  /** The first 32 admissible CNAME records, cleaned. */
  function Cnames(answer: seq<RR>): (r: seq<Cname>)
    ensures |r| <= MAX_CNAMES
  {
    if answer == [] then []
    else
      var init, rr := Cnames(answer[..|answer| - 1]), answer[|answer| - 1];
      if Admissible(rr) && |init| < MAX_CNAMES then
        init + [Cleaned(rr)]
      else init
  }

  function OwnerPut(id: uint64, rr: RR, now: uint64): Op
    requires IsAddress(rr)
  {
    Op.Put(id, FamilyOf(rr), rr.address, CleanName(rr.name), rr.ttl, now)
  }

  /** The Put of an alias: it lives no longer than either the alias or the address record. */
  function AliasPut(id: uint64, rr: RR, cn: Cname, now: uint64): Op
    requires IsAddress(rr)
  {
    Op.Put(id, FamilyOf(rr), rr.address, cn.alias, Min(rr.ttl, cn.ttl), now)
  }

  predicate PointsAt(cn: Cname, rr: RR)
    requires IsAddress(rr)
  {
    Fold(cn.target) == Fold(CleanName(rr.name))
  }

  function AliasPuts(id: uint64, rr: RR, cnames: seq<Cname>, now: uint64): seq<Op>
    requires IsAddress(rr)
  {
    if cnames == [] then []
    else
      var cn := cnames[|cnames| - 1];
      AliasPuts(id, rr, cnames[..|cnames| - 1], now) + if PointsAt(cn, rr) then [AliasPut(id, rr, cn, now)] else []
  }

  function RecordPuts(id: uint64, rr: RR, cnames: seq<Cname>, now: uint64): seq<Op> {
    if IsAddress(rr) then [OwnerPut(id, rr, now)] + AliasPuts(id, rr, cnames, now) else []
  }

  function AnswerPuts(id: uint64, answer: seq<RR>, cnames: seq<Cname>, now: uint64): seq<Op> {
    if answer == [] then []
    else AnswerPuts(id, answer[..|answer| - 1], cnames, now) + RecordPuts(id, answer[|answer| - 1], cnames, now)
  }

  /** The cache operations a response stands for, in order. */
  function ResponsePuts(id: uint64, answer: seq<RR>, now: uint64): seq<Op> {
    AnswerPuts(id, answer, Cnames(answer), now)
  }

  function AddressCount(answer: seq<RR>): nat {
    if answer == [] then 0
    else AddressCount(answer[..|answer| - 1]) + if IsAddress(answer[|answer| - 1]) then 1 else 0
  }

  // ----- the source's loops -----

  method EqualFoldClean(a: string, b: string) returns (equal: bool)
    ensures equal <==> Fold(a) == Fold(b)
  {
    if |a| != |b| {
      assert |Fold(a)| != |Fold(b)|;
      return false;
    }
    for i := 0 to |a|
      invariant forall j :: 0 <= j < i ==> Fold(a)[j] == Fold(b)[j]
    {
      var ca, cb := a[i], b[i];
      if 'A' <= ca && ca <= 'Z' {
        ca := (ca as int + ('a' as int - 'A' as int)) as char;
      }
      if 'A' <= cb && cb <= 'Z' {
        cb := (cb as int + ('a' as int - 'A' as int)) as char;
      }
      assert ca == Fold(a)[i] && cb == Fold(b)[i];
      if ca != cb {
        return false;
      }
    }
    return true;
  }

  lemma AliasPutsSnoc(id: uint64, rr: RR, cnames: seq<Cname>, i: nat, now: uint64)
    requires IsAddress(rr) && i < |cnames|
    ensures AliasPuts(id, rr, cnames[..i + 1], now) ==
            AliasPuts(id, rr, cnames[..i], now) + if PointsAt(cnames[i], rr) then [AliasPut(id, rr, cnames[i], now)] else []
  {
    assert cnames[..i + 1][..i] == cnames[..i];
  }

  method InsertCNAMEs(cache: Cache, id: uint64, rr: RR, cnames: seq<Cname>, now: uint64)
    requires cache.Valid() && IsAddress(rr)
    modifies cache.Repr
    ensures cache.Valid() && fresh(cache.Repr - old(cache.Repr))
    ensures cache.records == Apply(cache.capacity, old(cache.records), AliasPuts(id, rr, cnames, now))
  {
    var name := CleanName(rr.name);
    ghost var rs := cache.records;
    assert Apply(cache.capacity, rs, []) == rs && AliasPuts(id, rr, cnames[..0], now) == [];
    hide Apply, Step, cache.Valid, AliasPuts, Fold, CleanName;
    for i := 0 to |cnames|
      invariant cache.Valid() && fresh(cache.Repr - old(cache.Repr))
      invariant cache.records == Apply(cache.capacity, rs, AliasPuts(id, rr, cnames[..i], now))
    {
      var cn := cnames[i];
      ghost var puts := AliasPuts(id, rr, cnames[..i], now);
      AliasPutsSnoc(id, rr, cnames, i, now);
      var points := EqualFoldClean(cn.target, name);
      if points {
        var aliasTTL := rr.ttl;
        if cn.ttl < aliasTTL {
          aliasTTL := cn.ttl;
        }
        ApplySnoc(cache.capacity, rs, puts, AliasPut(id, rr, cn, now));
        cache.Put(id, FamilyOf(rr), rr.address, cn.alias, aliasTTL, now);
      } else {
        assert puts + [] == puts;
      }
    }
    assert cnames[..|cnames|] == cnames;
  }

  method CollectCNAMEs(answer: seq<RR>) returns (cnames: seq<Cname>)
    ensures cnames == Cnames(answer)
  {
    cnames := [];
    for i := 0 to |answer|
      invariant cnames == Cnames(answer[..i])
    {
      assert answer[..i + 1][..i] == answer[..i];
      var rr := answer[i];
      if rr.CNAME? && |cnames| < MAX_CNAMES {
        var alias, target := CleanName(rr.name), CleanName(rr.target);
        if |alias| <= MAX_HOSTNAME && |target| <= MAX_HOSTNAME {
          cnames := cnames + [Cname(alias, target, rr.ttl)];
        }
      }
    }
    assert answer[..|answer|] == answer;
  }

  /**
    unpacked is what the DNS library makes of the message, None if it cannot be unpacked.
    The result is the number of address records, or -1 for a message that is no response.
   */
  method ParseResponse(cache: Cache, id: uint64, message: seq<uint8>, unpacked: Option<Msg>, now: uint64)
    returns (inserted: int)
    requires cache.Valid()
    modifies cache.Repr
    ensures cache.Valid() && fresh(cache.Repr - old(cache.Repr))
    ensures if |message| < 12 || unpacked.None? || !unpacked.value.response
            then inserted == -1 && cache.records == old(cache.records)
            else && inserted == AddressCount(unpacked.value.answer)
                 && cache.records == Apply(cache.capacity, old(cache.records), ResponsePuts(id, unpacked.value.answer, now))
  {
    if |message| < DNS_HEADER {
      return -1;
    }
    if unpacked.None? || !unpacked.value.response {
      return -1;
    }
    var answer := unpacked.value.answer;
    var cnames := CollectCNAMEs(answer);
    inserted := InsertAnswers(cache, id, answer, cnames, now);
  }

  /** One turn of the second pass: an address record puts its owner, then its aliases. */
  method InsertRecord(cache: Cache, id: uint64, rr: RR, cnames: seq<Cname>, now: uint64) returns (inserted: nat)
    requires cache.Valid()
    modifies cache.Repr
    ensures cache.Valid() && fresh(cache.Repr - old(cache.Repr)) && inserted == if IsAddress(rr) then 1 else 0
    ensures cache.records == Apply(cache.capacity, old(cache.records), RecordPuts(id, rr, cnames, now))
  {
    ghost var rs := cache.records;
    assert Apply(cache.capacity, rs, []) == rs;
    hide Apply, Step, cache.Valid, AliasPuts, Fold, CleanName;
    if rr.A? || rr.AAAA? {
      cache.Put(id, FamilyOf(rr), rr.address, CleanName(rr.name), rr.ttl, now);
      InsertCNAMEs(cache, id, rr, cnames, now);
      ApplyCons(cache.capacity, rs, OwnerPut(id, rr, now), AliasPuts(id, rr, cnames, now));
      return 1;
    }
    return 0;
  }

  /** The second pass of ParseResponse. */
  method InsertAnswers(cache: Cache, id: uint64, answer: seq<RR>, cnames: seq<Cname>, now: uint64)
    returns (inserted: nat)
    requires cache.Valid()
    modifies cache.Repr
    ensures cache.Valid() && fresh(cache.Repr - old(cache.Repr)) && inserted == AddressCount(answer)
    ensures cache.records == Apply(cache.capacity, old(cache.records), AnswerPuts(id, answer, cnames, now))
  {
    inserted := 0;
    ghost var rs, puts := cache.records, AnswerPuts(id, answer[..0], cnames, now);
    assert AddressCount(answer[..0]) == 0 && puts == [] && Apply(cache.capacity, rs, puts) == rs;
    hide Apply, Step, cache.Valid, RecordPuts, AnswerPuts, AddressCount;
    for i := 0 to |answer|
      invariant cache.Valid() && fresh(cache.Repr - old(cache.Repr))
      invariant inserted == AddressCount(answer[..i]) && puts == AnswerPuts(id, answer[..i], cnames, now)
      invariant cache.records == Apply(cache.capacity, rs, puts)
    {
      AnswerPutsSnoc(id, answer, cnames, i, now);
      ApplyConcat(cache.capacity, rs, puts, RecordPuts(id, answer[i], cnames, now));
      var one := InsertRecord(cache, id, answer[i], cnames, now);
      inserted := inserted + one;
      puts := puts + RecordPuts(id, answer[i], cnames, now);
    }
    assert answer[..|answer|] == answer;
  }

  lemma AnswerPutsSnoc(id: uint64, answer: seq<RR>, cnames: seq<Cname>, i: nat, now: uint64)
    requires i < |answer|
    ensures AnswerPuts(id, answer[..i + 1], cnames, now) ==
            AnswerPuts(id, answer[..i], cnames, now) + RecordPuts(id, answer[i], cnames, now)
    ensures AddressCount(answer[..i + 1]) == AddressCount(answer[..i]) + if IsAddress(answer[i]) then 1 else 0
  {
    assert answer[..i + 1][..i] == answer[..i];
  }

  lemma ApplyCons(capacity: nat, rs: seq<Record>, op: Op, ops: seq<Op>)
    ensures Apply(capacity, Step(capacity, rs, op), ops) == Apply(capacity, rs, [op] + ops)
  {
    ApplyConcat(capacity, rs, [op], ops);
    assert Apply(capacity, rs, [op]) == Step(capacity, rs, op);
  }

  // ----- which Puts a response makes -----

  lemma {:induction false} AliasPutsMembers(id: uint64, rr: RR, cnames: seq<Cname>, now: uint64, op: Op)
    requires IsAddress(rr)
    ensures op in AliasPuts(id, rr, cnames, now) <==>
            exists cn :: cn in cnames && PointsAt(cn, rr) && op == AliasPut(id, rr, cn, now)
  {
    if cnames != [] {
      var init, last := cnames[..|cnames| - 1], cnames[|cnames| - 1];
      AliasPutsMembers(id, rr, init, now, op);
      assert cnames == init + [last];
      assert forall cn :: cn in cnames <==> cn in init || cn == last;
    }
  }

  lemma {:induction false} AnswerPutsMembers(id: uint64, answer: seq<RR>, cnames: seq<Cname>, now: uint64, op: Op)
    ensures op in AnswerPuts(id, answer, cnames, now) <==>
            exists rr :: rr in answer && op in RecordPuts(id, rr, cnames, now)
  {
    hide RecordPuts;
    if answer != [] {
      var init, last := answer[..|answer| - 1], answer[|answer| - 1];
      AnswerPutsMembers(id, init, cnames, now, op);
      assert answer == init + [last];
      assert forall rr :: rr in answer <==> rr in init || rr == last;
    }
  }

  lemma {:induction false} CnamesCount(answer: seq<RR>)
    requires AdmissibleCount(answer) <= MAX_CNAMES
    ensures |Cnames(answer)| == AdmissibleCount(answer)
  {
    if answer != [] {
      CnamesCount(answer[..|answer| - 1]);
    }
  }

  ghost predicate CleanedIn(answer: seq<RR>, cn: Cname) {
    exists c :: c in answer && Admissible(c) && cn == Cleaned(c)
  }

  lemma CleanedInConcat(a: seq<RR>, last: RR, cn: Cname)
    ensures CleanedIn(a + [last], cn) <==> CleanedIn(a, cn) || (Admissible(last) && cn == Cleaned(last))
  {
    assert last in a + [last];
    if c :| c in a && Admissible(c) && cn == Cleaned(c) {
      assert c in a + [last];
    }
  }

  lemma {:induction false} CnamesMembers(answer: seq<RR>, cn: Cname)
    requires AdmissibleCount(answer) <= MAX_CNAMES
    ensures cn in Cnames(answer) <==> CleanedIn(answer, cn)
  {
    if answer != [] {
      var init, last := answer[..|answer| - 1], answer[|answer| - 1];
      assert answer == init + [last];
      hide CleanedIn, Cnames, Admissible, Cleaned;
      CnamesMembers(init, cn);
      CnamesCount(init);
      CnamesSnoc(answer);
      CleanedInConcat(init, last, cn);
    }
  }

  /** Whatever the number of CNAMEs, the ones kept come from the answer section. */
  lemma {:induction false} CnamesAreCleaned(answer: seq<RR>, cn: Cname)
    requires cn in Cnames(answer)
    ensures CleanedIn(answer, cn)
  {
    var init, last := answer[..|answer| - 1], answer[|answer| - 1];
    assert answer == init + [last];
    CleanedInConcat(init, last, cn);
    if cn in Cnames(init) {
      CnamesAreCleaned(init, cn);
    }
  }

  lemma CnamesSnoc(answer: seq<RR>)
    requires answer != [] && |Cnames(answer[..|answer| - 1])| + (if Admissible(answer[|answer| - 1]) then 1 else 0) <= MAX_CNAMES
    ensures Cnames(answer) == Cnames(answer[..|answer| - 1]) +
            if Admissible(answer[|answer| - 1]) then [Cleaned(answer[|answer| - 1])] else []
  {
  }

  // ----- attribution -----

  /** The name the cache stores for a wire name: the trailing dot is trimmed here and again by Put. */
  function Stored(name: string): string {
    CleanName(CleanName(name))
  }

  predicate Storable(name: string) {
    0 < |Stored(name)| <= MAX_HOSTNAME
  }

  /** c is a CNAME record of the answer pointing straight at rr's owner. */
  predicate AliasOf(answer: seq<RR>, rr: RR, c: RR) {
    IsAddress(rr) && c in answer && Admissible(c) && Fold(CleanName(c.target)) == Fold(CleanName(rr.name))
  }

  /** rr puts its own name f on key until e. */
  predicate OwnsName(id: uint64, now: uint64, rr: RR, key: Key, f: string, e: uint64) {
    && IsAddress(rr) && KeyFor(id, FamilyOf(rr), rr.address) == Some(key)
    && Storable(rr.name) && f == Fold(Stored(rr.name)) && e == Expiry(rr.ttl, now)
  }

  /** rr puts the name f of its alias c on key, until e by the smaller of the two TTLs. */
  predicate LendsName(id: uint64, now: uint64, rr: RR, c: RR, key: Key, f: string, e: uint64)
    requires c.CNAME?
  {
    && IsAddress(rr) && KeyFor(id, FamilyOf(rr), rr.address) == Some(key)
    && Storable(c.name) && f == Fold(Stored(c.name)) && e == Expiry(Min(rr.ttl, c.ttl), now)
  }

  /** The answer section attributes f to the address of key until e. */
  ghost predicate Attributed(id: uint64, answer: seq<RR>, now: uint64, key: Key, f: string, e: uint64) {
    || (exists rr :: rr in answer && OwnsName(id, now, rr, key, f, e))
    || (exists rr, c :: rr in answer && AliasOf(answer, rr, c) && LendsName(id, now, rr, c, key, f, e))
  }

  /** A name is attributed to an address only by an address record of its family with exactly its bytes. */
  lemma AttributedByRecord(id: uint64, answer: seq<RR>, now: uint64, key: Key, f: string, e: uint64) returns (rr: RR)
    requires Attributed(id, answer, now, key, f, e)
    ensures rr in answer && key.id == id
    ensures || (rr.A? && key.family == 2 && |rr.address| >= 4 && key.prefix == rr.address[..4])
            || (rr.AAAA? && key.family == 10 && |rr.address| >= 16 && key.prefix == rr.address[..16])
  {
    if r :| r in answer && OwnsName(id, now, r, key, f, e) {
      rr := r;
    } else {
      var r, c :| r in answer && AliasOf(answer, r, c) && LendsName(id, now, r, c, key, f, e);
      rr := r;
    }
  }

  /** An IPv4 or IPv6 record gives its own name: without final dots, if that leaves 1 to 253 characters. */
  lemma OwnerIsAttributed(id: uint64, answer: seq<RR>, now: uint64, rr: RR, name: string, key: Key)
    requires rr in answer && (rr.A? || rr.AAAA?) && (rr.name == name || rr.name == name + ".")
    requires 1 <= |name| <= 253 && name[|name| - 1] != '.'
    requires KeyFor(id, if rr.A? then 2 else 10, rr.address) == Some(key)
    ensures Attributed(id, answer, now, key, Fold(name), Expiry(rr.ttl, now))
  {
    assert OwnsName(id, now, rr, key, Fold(name), Expiry(rr.ttl, now));
  }

  /** And it lends it every alias one hop away, for no longer than the alias itself lives. */
  lemma AliasIsAttributed(id: uint64, answer: seq<RR>, now: uint64, rr: RR, c: RR, alias: string, key: Key)
    requires rr in answer && (rr.A? || rr.AAAA?) && c in answer && c.CNAME? && |c.target| <= 253
    requires Fold(CleanName(c.target)) == Fold(CleanName(rr.name)) && (c.name == alias || c.name == alias + ".")
    requires 1 <= |alias| <= 253 && alias[|alias| - 1] != '.'
    requires KeyFor(id, if rr.A? then 2 else 10, rr.address) == Some(key)
    ensures Attributed(id, answer, now, key, Fold(alias), Expiry(if c.ttl < rr.ttl then c.ttl else rr.ttl, now))
  {
    assert AliasOf(answer, rr, c) && LendsName(id, now, rr, c, key, Fold(alias), Expiry(Min(rr.ttl, c.ttl), now));
  }

  /** All CNAME records whose alias and target, without a final dot, have at most 253 characters. */
  function AllCnames(answer: seq<RR>): seq<Cname> {
    if answer == [] then []
    else
      var rr := answer[|answer| - 1];
      AllCnames(answer[..|answer| - 1])
      + if rr.CNAME? && |CleanName(rr.name)| <= 253 && |CleanName(rr.target)| <= 253
        then [Cname(CleanName(rr.name), CleanName(rr.target), rr.ttl)] else []
  }

  /** The ones considered are the first 32 of them. */
  lemma {:induction false} CnamesAreTheFirst(answer: seq<RR>)
    ensures Cnames(answer) == if |AllCnames(answer)| <= 32 then AllCnames(answer) else AllCnames(answer)[..32]
    ensures |AllCnames(answer)| == AdmissibleCount(answer)
  {
    if answer != [] {
      CnamesAreTheFirst(answer[..|answer| - 1]);
    }
  }

  lemma RecordPutIsResponsePut(id: uint64, answer: seq<RR>, now: uint64, rr: RR, op: Op)
    requires rr in answer && op in RecordPuts(id, rr, Cnames(answer), now)
    ensures op in ResponsePuts(id, answer, now)
  {
    AnswerPutsMembers(id, answer, Cnames(answer), now, op);
  }

  lemma LentNameIsPut(id: uint64, answer: seq<RR>, now: uint64, rr: RR, c: RR, key: Key, f: string, e: uint64)
    requires AdmissibleCount(answer) <= MAX_CNAMES
    requires rr in answer && AliasOf(answer, rr, c) && LendsName(id, now, rr, c, key, f, e)
    ensures var op := AliasPut(id, rr, Cleaned(c), now);
            op in ResponsePuts(id, answer, now) && PutsName(op, key, f) && Admit(op).value.expires == e
  {
    var cn := Cleaned(c);
    CnamesMembers(answer, cn);
    assert PointsAt(cn, rr);
    AliasPutsMembers(id, rr, Cnames(answer), now, AliasPut(id, rr, cn, now));
    RecordPutIsResponsePut(id, answer, now, rr, AliasPut(id, rr, cn, now));
  }

  lemma AttributionIsPut(id: uint64, answer: seq<RR>, now: uint64, key: Key, f: string, e: uint64) returns (op: Op)
    requires AdmissibleCount(answer) <= MAX_CNAMES && Attributed(id, answer, now, key, f, e)
    ensures op in ResponsePuts(id, answer, now) && PutsName(op, key, f) && Admit(op).value.expires == e
  {
    if rr :| rr in answer && OwnsName(id, now, rr, key, f, e) {
      op := OwnerPut(id, rr, now);
      RecordPutIsResponsePut(id, answer, now, rr, op);
    } else {
      var rr, c :| rr in answer && AliasOf(answer, rr, c) && LendsName(id, now, rr, c, key, f, e);
      op := AliasPut(id, rr, Cleaned(c), now);
      LentNameIsPut(id, answer, now, rr, c, key, f, e);
    }
  }

  lemma PutIsAttribution(id: uint64, answer: seq<RR>, now: uint64, op: Op, key: Key, f: string)
    requires op in ResponsePuts(id, answer, now) && PutsName(op, key, f)
    ensures Attributed(id, answer, now, key, f, Admit(op).value.expires)
  {
    hide RecordPuts, PutsName, Admit, Attributed, Cnames;
    AnswerPutsMembers(id, answer, Cnames(answer), now, op);
    var rr :| rr in answer && op in RecordPuts(id, rr, Cnames(answer), now);
    RecordAttributes(id, answer, now, rr, op, key, f);
  }

  lemma RecordAttributes(id: uint64, answer: seq<RR>, now: uint64, rr: RR, op: Op, key: Key, f: string)
    requires rr in answer && op in RecordPuts(id, rr, Cnames(answer), now) && PutsName(op, key, f)
    ensures Attributed(id, answer, now, key, f, Admit(op).value.expires)
  {
    hide OwnerPut, AliasPut, PointsAt, Admit, OwnsName, AliasOf, LendsName, Cnames, Cleaned;
    if op == OwnerPut(id, rr, now) {
      OwnerPutOwns(id, rr, now, key, f);
    } else {
      var cnames := Cnames(answer);
      AliasPutsMembers(id, rr, cnames, now, op);
      var cn :| cn in cnames && PointsAt(cn, rr) && op == AliasPut(id, rr, cn, now);
      CnamesAreCleaned(answer, cn);
      var c :| c in answer && Admissible(c) && cn == Cleaned(c);
      AliasPutLends(id, answer, rr, c, now, key, f);
    }
  }

  lemma OwnerPutOwns(id: uint64, rr: RR, now: uint64, key: Key, f: string)
    requires IsAddress(rr) && PutsName(OwnerPut(id, rr, now), key, f)
    ensures OwnsName(id, now, rr, key, f, Admit(OwnerPut(id, rr, now)).value.expires)
  {
    hide Fold, CleanName, KeyFor, Expiry;
  }

  lemma AliasPutLends(id: uint64, answer: seq<RR>, rr: RR, c: RR, now: uint64, key: Key, f: string)
    requires IsAddress(rr) && c in answer && Admissible(c) && PointsAt(Cleaned(c), rr)
    requires PutsName(AliasPut(id, rr, Cleaned(c), now), key, f)
    ensures AliasOf(answer, rr, c) && LendsName(id, now, rr, c, key, f, Admit(AliasPut(id, rr, Cleaned(c), now)).value.expires)
  {
    hide Fold, CleanName, KeyFor, Expiry;
  }

  /** From an empty cache, whatever an address answers after a response was attributed to it, with that expiry. */
  lemma HeldIsAttributed(capacity: nat, id: uint64, answer: seq<RR>, now: uint64, key: Key, f: string, e: uint64)
    requires Holds(Apply(capacity, [], ResponsePuts(id, answer, now)), key, f, e)
    ensures Attributed(id, answer, now, key, f, e)
  {
    var ops := ResponsePuts(id, answer, now);
    HeldWasLastPut(capacity, ops, key, f, e);
    var op := LastExpiryMember(ops, key, f);
    PutIsAttribution(id, answer, now, op, key, f);
  }

  /** The cache answers f for key, until whenever. */
  ghost predicate Answers(rs: seq<Record>, key: Key, f: string) {
    exists e :: Holds(rs, key, f, e)
  }

  lemma PutIsAnswered(capacity: nat, ops: seq<Op>, op: Op, key: Key, f: string)
    requires WithinCaps(capacity, ops) && (forall op :: op in ops ==> op.Put?)
    requires op in ops && PutsName(op, key, f)
    ensures Answers(Apply(capacity, [], ops), key, f)
  {
    hide Apply;
    assert forall i :: 0 <= i < |ops| ==> ops[i] in ops;
    FoldsPutMembers(ops, key, f);
    LastPutIsHeld(capacity, ops, key, f, LastExpiry(ops, key, f).value);
  }

  ghost predicate Names(id: uint64, answer: seq<RR>, now: uint64, key: Key, f: string) {
    exists e :: Attributed(id, answer, now, key, f, e)
  }

  /**
    From an empty cache and with the caps not reached, the names an address answers after a response
    are exactly the owners of its address records plus their one-hop aliases.
   */
  lemma AttributionIsExact(capacity: nat, id: uint64, answer: seq<RR>, now: uint64, key: Key, f: string)
    requires AdmissibleCount(answer) <= MAX_CNAMES
    requires WithinCaps(capacity, ResponsePuts(id, answer, now))
    ensures Answers(Apply(capacity, [], ResponsePuts(id, answer, now)), key, f) <==> Names(id, answer, now, key, f)
  {
    var ops := ResponsePuts(id, answer, now);
    if e :| Holds(Apply(capacity, [], ops), key, f, e) {
      HeldIsAttributed(capacity, id, answer, now, key, f, e);
    }
    if e :| Attributed(id, answer, now, key, f, e) {
      var op := AttributionIsPut(id, answer, now, key, f, e);
      NoPrunes(id, answer, now);
      PutIsAnswered(capacity, ops, op, key, f);
    }
  }

  lemma NoPrunes(id: uint64, answer: seq<RR>, now: uint64)
    ensures forall op :: op in ResponsePuts(id, answer, now) ==> op.Put?
  {
    forall op | op in ResponsePuts(id, answer, now) ensures op.Put? {
      AnswerPutsMembers(id, answer, Cnames(answer), now, op);
      var rr :| rr in answer && op in RecordPuts(id, rr, Cnames(answer), now);
      AliasPutsMembers(id, rr, Cnames(answer), now, op);
    }
  }

  // ----- the order of the answer section does not matter -----

  lemma {:induction false} AdmissibleCountPermutes(a: seq<RR>, b: seq<RR>)
    requires multiset(a) == multiset(b)
    ensures AdmissibleCount(a) == AdmissibleCount(b)
  {
    if a == [] {
      assert |multiset(b)| == 0;
    } else {
      var init, last := a[..|a| - 1], a[|a| - 1];
      hide Admissible;
      var i := WithoutLast(a, b);
      AdmissibleCountPermutes(init, b[..i] + b[i + 1..]);
      AdmissibleCountConcat(b[..i], [last]);
      AdmissibleCountConcat(b[..i] + [last], b[i + 1..]);
      AdmissibleCountConcat(b[..i], b[i + 1..]);
    }
  }

  /** Where a permutation has the last record, and what is left of both without it. */
  lemma WithoutLast(a: seq<RR>, b: seq<RR>) returns (i: nat)
    requires a != [] && multiset(a) == multiset(b)
    ensures i < |b| && b == b[..i] + [a[|a| - 1]] + b[i + 1..]
    ensures multiset(a[..|a| - 1]) == multiset(b[..i] + b[i + 1..])
  {
    var init, last := a[..|a| - 1], a[|a| - 1];
    assert a == init + [last] + [] && init + [] == init;
    assert last in multiset(b);
    i :| 0 <= i < |b| && b[i] == last;
    assert b == b[..i] + [last] + b[i + 1..];
    CountApart(init, last, []);
    CountApart(b[..i], last, b[i + 1..]);
  }

  lemma CountApart<T>(before: seq<T>, x: T, after: seq<T>)
    ensures multiset(before + [x] + after) - multiset{x} == multiset(before + after)
  {
  }

  lemma {:induction false} AdmissibleCountConcat(a: seq<RR>, b: seq<RR>)
    ensures AdmissibleCount(a + b) == AdmissibleCount(a) + AdmissibleCount(b)
  {
    if b == [] {
      assert a + b == a;
    } else {
      AdmissibleCountConcat(a, b[..|b| - 1]);
      assert (a + b)[..|a + b| - 1] == a + b[..|b| - 1];
    }
  }

  lemma PutsPermute(id: uint64, a: seq<RR>, b: seq<RR>, now: uint64, op: Op)
    requires multiset(a) == multiset(b) && AdmissibleCount(a) <= MAX_CNAMES
    requires op in ResponsePuts(id, a, now)
    ensures op in ResponsePuts(id, b, now)
  {
    AdmissibleCountPermutes(a, b);
    SameMembers(a, b);
    AnswerPutsMembers(id, a, Cnames(a), now, op);
    AnswerPutsMembers(id, b, Cnames(b), now, op);
    var rr :| rr in a && op in RecordPuts(id, rr, Cnames(a), now);
    AliasPutsMembers(id, rr, Cnames(a), now, op);
    AliasPutsMembers(id, rr, Cnames(b), now, op);
    if op != OwnerPut(id, rr, now) {
      var cn :| cn in Cnames(a) && PointsAt(cn, rr) && op == AliasPut(id, rr, cn, now);
      CnamesMembers(a, cn);
      CnamesMembers(b, cn);
    }
    assert op in RecordPuts(id, rr, Cnames(b), now);
  }

  lemma SameMembers(a: seq<RR>, b: seq<RR>)
    requires multiset(a) == multiset(b)
    ensures forall rr :: rr in a <==> rr in b
  {
    assert forall rr :: rr in a <==> rr in multiset(a);
    assert forall rr :: rr in b <==> rr in multiset(b);
  }

  lemma WithinCapsPermutes(capacity: nat, id: uint64, a: seq<RR>, b: seq<RR>, now: uint64)
    requires multiset(a) == multiset(b) && AdmissibleCount(a) <= MAX_CNAMES
    requires WithinCaps(capacity, ResponsePuts(id, a, now))
    ensures WithinCaps(capacity, ResponsePuts(id, b, now))
  {
    AdmissibleCountPermutes(a, b);
    var p, q := ResponsePuts(id, a, now), ResponsePuts(id, b, now);
    forall op | op in q ensures op in p {
      PutsPermute(id, b, a, now, op);
    }
    forall key | key in KeysSince(q, 0) ensures key in KeysSince(p, 0) {
      KeysSinceMembers(q, key);
      KeysSinceMembers(p, key);
    }
    SubsetCount(KeysSince(q, 0), KeysSince(p, 0));
    forall key ensures |FoldsPut(q, key)| <= MAX_NAMES {
      forall f | f in FoldsPut(q, key) ensures f in FoldsPut(p, key) {
        FoldsPutMembers(q, key, f);
        FoldsPutMembers(p, key, f);
      }
      SubsetCount(FoldsPut(q, key), FoldsPut(p, key));
    }
  }

  /** Shuffling the answer section changes no address's set of names. */
  lemma NamesIndependentOfOrder(capacity: nat, id: uint64, a: seq<RR>, b: seq<RR>, now: uint64, key: Key, f: string)
    requires multiset(a) == multiset(b) && AdmissibleCount(a) <= MAX_CNAMES
    requires WithinCaps(capacity, ResponsePuts(id, a, now))
    ensures Answers(Apply(capacity, [], ResponsePuts(id, a, now)), key, f)
            <==> Answers(Apply(capacity, [], ResponsePuts(id, b, now)), key, f)
  {
    AdmissibleCountPermutes(a, b);
    WithinCapsPermutes(capacity, id, a, b, now);
    AttributionIsExact(capacity, id, a, now, key, f);
    AttributionIsExact(capacity, id, b, now, key, f);
    NamesPermute(id, a, b, now, key, f);
    NamesPermute(id, b, a, now, key, f);
  }

  lemma NamesPermute(id: uint64, a: seq<RR>, b: seq<RR>, now: uint64, key: Key, f: string)
    requires multiset(a) == multiset(b)
    ensures Names(id, a, now, key, f) ==> Names(id, b, now, key, f)
  {
    SameMembers(a, b);
    if e :| Attributed(id, a, now, key, f, e) {
      if rr :| rr in a && OwnsName(id, now, rr, key, f, e) {
        assert rr in b;
      } else {
        var rr, c :| rr in a && AliasOf(a, rr, c) && LendsName(id, now, rr, c, key, f, e);
        assert rr in b && AliasOf(b, rr, c);
      }
      assert Attributed(id, b, now, key, f, e);
    }
  }

  /** Trimming twice stores the name the matching compared, exactly when that name has no dot left at its end. */
  lemma StoredIsCleanedIff(name: string)
    ensures Stored(name) == CleanName(name) <==> !(|name| >= 2 && name[|name| - 2..] == "..")
  {
    if |name| >= 2 && name[|name| - 1] == '.' {
      assert name[|name| - 2..] == [name[|name| - 2], '.'];
      assert CleanName(name) == name[..|name| - 1];
    }
  }

  /** Every A and every AAAA record counts, and nothing else does. */
  lemma {:induction false} AddressCountIs(answer: seq<RR>)
    ensures AddressCount(answer) == |set i | 0 <= i < |answer| && (answer[i].A? || answer[i].AAAA?)|
  {
    var places := set i | 0 <= i < |answer| && (answer[i].A? || answer[i].AAAA?);
    if answer != [] {
      var init, n := answer[..|answer| - 1], |answer| - 1;
      AddressCountIs(init);
      var earlier := set i | 0 <= i < |init| && (init[i].A? || init[i].AAAA?);
      assert places == earlier + if answer[n].A? || answer[n].AAAA? then {n} else {};
    }
  }
}
