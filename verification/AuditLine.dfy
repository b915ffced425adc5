/**
  Audit lines: the printer writes `TYPE key=value key=value ...` and the ingest server reads it back with
  a left-to-right field scanner.
 */
module AuditLine {
  import opened Basics

  // ----- characters -----

  /** \s, and what trim() removes. */
  predicate IsSpace(c: char) {
    || '\t' <= c <= '\r' || c == ' ' || c == '\U{a0}' || c == '\U{1680}' || '\U{2000}' <= c <= '\U{200a}'
    || c == '\U{2028}' || c == '\U{2029}' || c == '\U{202f}' || c == '\U{205f}' || c == '\U{3000}' || c == '\U{feff}'
  }

  predicate IsKeyStart(c: char) {
    'A' <= c <= 'Z' || 'a' <= c <= 'z' || c == '_'
  }

  /** \w */
  predicate IsWord(c: char) {
    IsKeyStart(c) || '0' <= c <= '9'
  }

  function TrimEnd(s: string): (r: string)
    ensures r <= s
  {
    if s != "" && IsSpace(s[|s| - 1]) then TrimEnd(s[..|s| - 1]) else s
  }

  function TrimStart(s: string): (r: string)
    ensures |r| <= |s| && r == s[|s| - |r|..]
  {
    if s != "" && IsSpace(s[0]) then TrimStart(s[1..]) else s
  }

  function Trim(s: string): string {
    TrimEnd(TrimStart(s))
  }

  predicate Trimmed(s: string) {
    s != "" ==> !IsSpace(s[0]) && !IsSpace(s[|s| - 1])
  }

  lemma {:induction false} TrimEndEnds(s: string)
    ensures TrimEnd(s) != "" ==> !IsSpace(TrimEnd(s)[|TrimEnd(s)| - 1])
  {
    if s != "" && IsSpace(s[|s| - 1]) {
      TrimEndEnds(s[..|s| - 1]);
    }
  }

  lemma {:induction false} TrimStartStarts(s: string)
    ensures TrimStart(s) != "" ==> !IsSpace(TrimStart(s)[0])
  {
    if s != "" && IsSpace(s[0]) {
      TrimStartStarts(s[1..]);
    }
  }

  lemma {:induction false} TrimEndKeeps(s: string)
    requires s != "" ==> !IsSpace(s[0])
    ensures TrimEnd(s) != "" ==> !IsSpace(TrimEnd(s)[0])
  {
    if s != "" && IsSpace(s[|s| - 1]) {
      TrimEndKeeps(s[..|s| - 1]);
    }
  }

  /** trim() gives a trimmed stretch of the string. */
  lemma TrimTrims(s: string) returns (a: nat)
    ensures Trimmed(Trim(s)) && a + |Trim(s)| <= |s| && Trim(s) == s[a..a + |Trim(s)|]
  {
    hide IsSpace, TrimStart, TrimEnd;
    var t := TrimStart(s);
    TrimStartStarts(s);
    TrimEndEnds(t);
    TrimEndKeeps(t);
    a := |s| - |t|;
    assert TrimEnd(t) == t[..|TrimEnd(t)|] == s[a..][..|TrimEnd(t)|];
  }

  /** ... and leaves a trimmed string alone. */
  lemma TrimmedStays(s: string)
    requires Trimmed(s)
    ensures Trim(s) == s
  {
  }

  // ----- the field pattern -----

  /** End of the run of word characters from p. */
  function WordEnd(s: string, p: nat): (e: nat)
    requires p <= |s|
    ensures p <= e <= |s| && (e < |s| ==> !IsWord(s[e]))
    ensures forall i :: p <= i < e ==> IsWord(s[i])
    decreases |s| - p
  {
    if p < |s| && IsWord(s[p]) then WordEnd(s, p + 1) else p
  }

  /** An identifier starts at p and is followed directly by '='. */
  predicate KeyAt(s: string, p: nat) {
    p < |s| && IsKeyStart(s[p]) && WordEnd(s, p) < |s| && s[WordEnd(s, p)] == '='
  }

  /** A match of the pattern: where it starts, where its key starts, and where its '=' stands. */
  datatype Match = Match(index: nat, key: nat, eq: nat)

  /** The match of /(?:^|\s)([A-Za-z_][\w]*)=/ that starts at q, if there is one. */
  function MatchAt(s: string, q: nat): Option<Match> {
    if q == 0 && KeyAt(s, 0) then Some(Match(0, 0, WordEnd(s, 0)))
    else if q < |s| && IsSpace(s[q]) && KeyAt(s, q + 1) then Some(Match(q, q + 1, WordEnd(s, q + 1)))
    else None
  }

  /** All matches that start before n, in order. */
  function MatchesUpTo(s: string, n: nat): seq<Match> {
    if n == 0 then []
    else MatchesUpTo(s, n - 1) + if MatchAt(s, n - 1).Some? then [MatchAt(s, n - 1).value] else []
  }

  /** No match starts inside another: scanning may jump to the end of each. */
  lemma {:induction false} NothingInside(s: string, q: nat, n: nat)
    requires MatchAt(s, q).Some? && q < n <= MatchAt(s, q).value.eq + 1
    ensures MatchesUpTo(s, n) == MatchesUpTo(s, q) + [MatchAt(s, q).value]
  {
    if n > q + 1 {
      NothingInside(s, q, n - 1);
      var m := MatchAt(s, q).value;
      assert n - 1 == m.eq || IsWord(s[n - 1]);
      assert MatchAt(s, n - 1).None?;
    }
  }

  /** matchAll: the scan from left to right finds exactly the declared matches. */
  method ScanMatches(text: string) returns (matches: seq<Match>)
    ensures matches == MatchesUpTo(text, |text|)
  {
    matches := [];
    var p := 0;
    while p < |text|
      invariant 0 <= p <= |text| && matches == MatchesUpTo(text, p)
    {
      var m := MatchAt(text, p);
      if m.Some? {
        NothingInside(text, p, m.value.eq + 1);
        matches := matches + [m.value];
        p := m.value.eq + 1;
      } else {
        p := p + 1;
      }
    }
  }

  // ----- parseFields -----

  /** The fields read from matches that all lie before stop: each value runs up to the next match. */
  function FieldsOf(s: string, matches: seq<Match>, stop: nat): map<string, string>
    requires stop <= |s|
    requires forall m :: m in matches ==> m.index <= m.key <= m.eq < |s|
    decreases |matches|
  {
    if matches == [] then map[]
    else
      var m := matches[|matches| - 1];
      FieldsOf(s, matches[..|matches| - 1], m.index)[KeyOf(s, m) := ValueOf(s, m, stop)]
  }

  function KeyOf(s: string, m: Match): string
    requires m.key <= m.eq < |s|
  {
    s[m.key..m.eq]
  }

  function ValueOf(s: string, m: Match, stop: nat): string
    requires m.eq < |s| && stop <= |s|
  {
    if m.eq + 1 <= stop then Trim(s[m.eq + 1..stop]) else ""
  }

  lemma {:induction false} MatchesInside(s: string, n: nat)
    ensures forall m :: m in MatchesUpTo(s, n) ==> m.index < n && m.index <= m.key <= m.eq < |s| && MatchAt(s, m.index) == Some(m)
  {
    if n > 0 {
      MatchesInside(s, n - 1);
    }
  }

  function Fields(s: string): map<string, string> {
    MatchesInside(s, |s|);
    FieldsOf(s, MatchesUpTo(s, |s|), |s|)
  }

  lemma NoFields(s: string, stop: nat)
    requires stop <= |s|
    ensures FieldsOf(s, [], stop) == map[]
  {
  }

  lemma FieldsSnoc(s: string, matches: seq<Match>, i: nat, stop: nat)
    requires i < |matches| && stop <= |s|
    requires forall m :: m in matches ==> m.index <= m.key <= m.eq < |s|
    ensures FieldsOf(s, matches[..i + 1], stop)
            == FieldsOf(s, matches[..i], matches[i].index)[KeyOf(s, matches[i]) := ValueOf(s, matches[i], stop)]
  {
    assert matches[..i + 1][..i] == matches[..i];
  }

  method ParseFields(text: string) returns (fields: map<string, string>)
    ensures fields == Fields(text)
  {
    hide MatchesUpTo, Trim, FieldsOf;
    var matches := ScanMatches(text);
    MatchesInside(text, |text|);
    fields := map[];
    NoFields(text, if 0 < |matches| then matches[0].index else |text|);
    for i := 0 to |matches|
      invariant fields == FieldsOf(text, matches[..i], if i < |matches| then matches[i].index else |text|)
    {
      MatchesApart(text, |text|, i);
      var key := text[matches[i].key..matches[i].eq];
      var start := matches[i].eq + 1;
      var end := if i + 1 < |matches| then matches[i + 1].index else |text|;
      FieldsSnoc(text, matches, i, end);
      fields := fields[key := Trim(text[start..end])];
    }
    assert matches[..|matches|] == matches;
  }

  /** A match ends before the next one starts. */
  lemma {:induction false} MatchesApart(s: string, n: nat, i: nat)
    requires n <= |s| && i < |MatchesUpTo(s, n)|
    ensures var ms := MatchesUpTo(s, n);
            && ms[i].index <= ms[i].key <= ms[i].eq < |s| && ms[i].index < n
            && (i + 1 < |ms| ==> ms[i].eq < ms[i + 1].index < |s|)
  {
    MatchesInside(s, n);
    var ms := MatchesUpTo(s, n);
    assert ms[i] in ms;
    if i + 1 < |ms| {
      assert ms[i + 1] in ms;
      MatchesOrdered(s, n, i);
      var m := ms[i];
      if ms[i + 1].index <= m.eq {
        NothingInside(s, m.index, m.eq + 1);
        InsideWord(s, m, ms[i + 1].index);
      }
    }
  }

  lemma InsideWord(s: string, m: Match, q: nat)
    requires MatchAt(s, m.index) == Some(m) && m.index < q <= m.eq
    ensures MatchAt(s, q).None?
  {
    assert q == m.eq || IsWord(s[q]);
  }

  lemma {:induction false} MatchesOrdered(s: string, n: nat, i: nat)
    requires i + 1 < |MatchesUpTo(s, n)|
    ensures MatchesUpTo(s, n)[i].index < MatchesUpTo(s, n)[i + 1].index
  {
    MatchesInside(s, n - 1);
    var before := MatchesUpTo(s, n - 1);
    if i + 1 < |before| {
      MatchesOrdered(s, n - 1, i);
    } else {
      assert before[i] in before;
    }
  }

  // ----- the printer -----

  datatype Field = Field(key: string, value: string)

  predicate IsKey(s: string) {
    s != "" && IsKeyStart(s[0]) && forall i :: 0 <= i < |s| ==> IsWord(s[i])
  }

  /** k1=v1 k2=v2 ... */
  function Render(fields: seq<Field>): string {
    if fields == [] then ""
    else
      var init, f := fields[..|fields| - 1], fields[|fields| - 1];
      Render(init) + (if init == [] then "" else " ") + f.key + "=" + f.value
  }

  predicate GoodKeys(fields: seq<Field>) {
    && (forall i :: 0 <= i < |fields| ==> IsKey(fields[i].key))
    && (forall i, j :: 0 <= i < j < |fields| ==> fields[i].key != fields[j].key)
  }

  /** The value survives the scanner: it is trimmed, and nothing in it looks like the next field. */
  predicate Clean(value: string) {
    Trimmed(value) && forall q :: 0 <= q < |value| && IsSpace(value[q]) ==> !KeyAt(value, q + 1)
  }

  function MapOf(fields: seq<Field>): map<string, string> {
    if fields == [] then map[] else MapOf(fields[..|fields| - 1])[fields[|fields| - 1].key := fields[|fields| - 1].value]
  }

  // ----- round trip -----

  /** WordEnd and KeyAt look only at what follows. */
  lemma {:induction false} WordEndOfSuffix(a: string, b: string, p: nat)
    requires p <= |b|
    ensures WordEnd(a + b, |a| + p) == |a| + WordEnd(b, p)
    decreases |b| - p
  {
    if p < |b| && IsWord(b[p]) {
      assert (a + b)[|a| + p] == b[p];
      WordEndOfSuffix(a, b, p + 1);
    }
  }

  lemma KeyAtOfSuffix(a: string, b: string, p: nat)
    ensures KeyAt(a + b, |a| + p) <==> KeyAt(b, p)
  {
    if p < |b| {
      WordEndOfSuffix(a, b, p);
    }
  }

  /** A run of word characters that stops inside a stops there in a + b as well. */
  lemma {:induction false} WordEndOfPrefix(a: string, b: string, p: nat)
    requires p <= |a| && (b != "" ==> !IsWord(b[0]))
    ensures WordEnd(a + b, p) == WordEnd(a, p)
    decreases |a| - p
  {
    if p < |a| && IsWord(a[p]) {
      WordEndOfPrefix(a, b, p + 1);
    }
  }

  lemma MatchAtOfPrefix(a: string, b: string, q: nat)
    requires q < |a| && b != "" && b[0] == ' '
    ensures MatchAt(a + b, q) == MatchAt(a, q)
  {
    WordEndOfPrefix(a, b, 0);
    WordEndOfPrefix(a, b, q + 1);
  }

  lemma {:induction false} MatchesOfPrefix(a: string, b: string, n: nat)
    requires n <= |a| && b != "" && b[0] == ' '
    ensures MatchesUpTo(a + b, n) == MatchesUpTo(a, n)
  {
    if n > 0 {
      MatchesOfPrefix(a, b, n - 1);
      MatchAtOfPrefix(a, b, n - 1);
    }
  }

  lemma {:induction false} FieldsOfPrefix(a: string, b: string, matches: seq<Match>, stop: nat)
    requires stop <= |a| && forall m :: m in matches ==> m.index <= m.key <= m.eq < |a|
    ensures FieldsOf(a + b, matches, stop) == FieldsOf(a, matches, stop)
    decreases |matches|
  {
    hide Trim;
    if matches != [] {
      var m := matches[|matches| - 1];
      assert m in matches;
      FieldsOfPrefix(a, b, matches[..|matches| - 1], m.index);
      assert KeyOf(a + b, m) == KeyOf(a, m);
      if m.eq + 1 <= stop {
        assert (a + b)[m.eq + 1..stop] == a[m.eq + 1..stop];
      }
    }
  }

  lemma {:induction false} NoMatchIn(s: string, from: nat, to: nat)
    requires from <= to && forall q :: from <= q < to ==> MatchAt(s, q).None?
    ensures MatchesUpTo(s, to) == MatchesUpTo(s, from)
  {
    if from < to {
      NoMatchIn(s, from, to - 1);
      assert MatchAt(s, to - 1).None?;
    }
  }

  /** The text of one field starts with its key, ended by its '='. */
  lemma FieldStart(f: Field)
    requires IsKey(f.key)
    ensures KeyAt(f.key + "=" + f.value, 0) && WordEnd(f.key + "=" + f.value, 0) == |f.key|
  {
    WordRun(f.key, "=" + f.value, 0);
    assert f.key + ("=" + f.value) == f.key + "=" + f.value;
  }

  lemma {:induction false} WordRun(word: string, rest: string, p: nat)
    requires p <= |word| && (forall i :: 0 <= i < |word| ==> IsWord(word[i])) && rest != "" && !IsWord(rest[0])
    ensures WordEnd(word + rest, p) == |word|
    decreases |word| - p
  {
    if p < |word| {
      WordRun(word, rest, p + 1);
    }
  }

  /** In lead + gap + "key=value" a match starts right after lead, where gap is the blank before the key. */
  lemma FieldMatchesHere(lead: string, gap: string, f: Field)
    requires IsKey(f.key) && if lead == "" then gap == "" else gap == " "
    ensures MatchAt(lead + gap + (f.key + "=" + f.value), |lead|)
            == Some(Match(|lead|, |lead| + |gap|, |lead| + |gap| + |f.key|))
  {
    var field := f.key + "=" + f.value;
    FieldStart(f);
    KeyAtOfSuffix(lead + gap, field, 0);
    WordEndOfSuffix(lead + gap, field, 0);
    hide WordEnd, KeyAt, IsKey;
    if lead != "" {
      assert (lead + gap + field)[|lead|] == ' ';
    }
  }

  /** No match starts inside a clean value, wherever it stands in a line. */
  lemma ValueIsQuiet(before: string, value: string, q: nat)
    requires Clean(value) && 0 < |before| <= q < |before| + |value|
    ensures MatchAt(before + value, q).None?
  {
    hide WordEnd, KeyAt, IsSpace;
    var i := q - |before|;
    assert (before + value)[q] == value[i];
    KeyAtOfSuffix(before, value, i + 1);
  }

  /** ... and it is the only match from there on. */
  lemma FieldMatches(lead: string, gap: string, f: Field)
    requires IsKey(f.key) && Clean(f.value)
    requires if lead == "" then gap == "" else gap == " "
    ensures var s := lead + gap + (f.key + "=" + f.value);
            MatchesUpTo(s, |s|) == MatchesUpTo(s, |lead|) + [Match(|lead|, |lead| + |gap|, |lead| + |gap| + |f.key|)]
  {
    var s, before := lead + gap + (f.key + "=" + f.value), lead + gap + f.key + "=";
    assert s == before + f.value && |before| == |lead| + |gap| + |f.key| + 1;
    FieldMatchesHere(lead, gap, f);
    hide MatchAt, MatchesUpTo, IsKey, Clean;
    NothingInside(s, |lead|, |before|);
    forall q | |before| <= q < |s| ensures MatchAt(s, q).None? {
      ValueIsQuiet(before, f.value, q);
    }
    NoMatchIn(s, |before|, |s|);
  }

  lemma RenderNotEmpty(fields: seq<Field>)
    requires fields != []
    ensures Render(fields) != ""
  {
  }

  lemma {:induction false} RoundTrip(fields: seq<Field>)
    requires GoodKeys(fields) && forall i :: 0 <= i < |fields| ==> Clean(fields[i].value)
    ensures Fields(Render(fields)) == MapOf(fields)
  {
    if fields != [] {
      var init, f := fields[..|fields| - 1], fields[|fields| - 1];
      RoundTrip(init);
      var lead, gap, field := Render(init), if init == [] then "" else " ", f.key + "=" + f.value;
      if init != [] {
        RenderNotEmpty(init);
      }
      assert Render(fields) == lead + gap + field by {
        assert lead + gap + (f.key + "=" + f.value) == lead + gap + f.key + "=" + f.value;
      }
      FieldIsRead(lead, gap, f);
    }
  }

  /** Adding a clean field to a line adds exactly its entry to what is parsed. */
  lemma FieldIsRead(lead: string, gap: string, f: Field)
    requires IsKey(f.key) && Clean(f.value)
    requires if lead == "" then gap == "" else gap == " "
    ensures Fields(lead + gap + (f.key + "=" + f.value)) == Fields(lead)[f.key := f.value]
  {
    var field := f.key + "=" + f.value;
    var s := lead + gap + field;
    var m := Match(|lead|, |lead| + |gap|, |lead| + |gap| + |f.key|);
    var ms := MatchesUpTo(lead, |lead|);
    assert s == lead + (gap + field);
    FieldMatches(lead, gap, f);
    if lead != "" {
      MatchesOfPrefix(lead, gap + field, |lead|);
    } else {
      assert MatchesUpTo(s, 0) == [] == ms;
    }
    MatchesInside(lead, |lead|);
    MatchesInside(s, |s|);
    FieldsOfPrefix(lead, gap + field, ms, |lead|);
    TrimmedStays(f.value);
    hide MatchesUpTo, Trim, IsKey, Clean;
    FieldText(lead, gap, f);
    LastFieldRead(s, ms, m);
  }

  lemma FieldText(lead: string, gap: string, f: Field)
    ensures var s := lead + gap + (f.key + "=" + f.value);
            var m := Match(|lead|, |lead| + |gap|, |lead| + |gap| + |f.key|);
            m.eq < |s| && KeyOf(s, m) == f.key && s[m.eq + 1..|s|] == f.value
  {
  }

  lemma LastFieldRead(s: string, ms: seq<Match>, m: Match)
    requires forall n :: n in ms + [m] ==> n.index <= n.key <= n.eq < |s|
    ensures m.index <= m.key <= m.eq < |s| && forall n :: n in ms ==> n.index <= n.key <= n.eq < |s|
    ensures FieldsOf(s, ms + [m], |s|) == FieldsOf(s, ms, m.index)[KeyOf(s, m) := ValueOf(s, m, |s|)]
  {
    hide KeyOf, ValueOf;
    assert m in ms + [m] && forall n :: n in ms ==> n in ms + [m];
    assert (ms + [m])[..|ms|] == ms && (ms + [m])[|ms|] == m;
  }

  // ----- and only then -----

  /** Between the last match before stop and stop, no match starts. */
  lemma {:induction false} LastMatch(s: string, stop: nat) returns (m: Match)
    requires MatchesUpTo(s, stop) != []
    ensures m == MatchesUpTo(s, stop)[|MatchesUpTo(s, stop)| - 1] && m.index < stop
    ensures MatchesUpTo(s, m.index) == MatchesUpTo(s, stop)[..|MatchesUpTo(s, stop)| - 1]
    ensures forall q :: m.index < q < stop ==> MatchAt(s, q).None?
  {
    if MatchAt(s, stop - 1).Some? {
      m := MatchAt(s, stop - 1).value;
    } else {
      m := LastMatch(s, stop - 1);
    }
  }

  /** A stretch of text in which no match starts gives a clean value. */
  lemma QuietStretchIsClean(s: string, start: nat, stop: nat)
    requires 0 < start <= stop <= |s| && forall q :: start <= q < stop ==> MatchAt(s, q).None?
    ensures Clean(Trim(s[start..stop]))
  {
    hide Trim, Trimmed;
    var from, to := TrimIsSlice(s, start, stop);
    QuietSliceHasNoKey(s, from, to);
  }

  lemma TrimIsSlice(s: string, start: nat, stop: nat) returns (from: nat, to: nat)
    requires start <= stop <= |s|
    ensures start <= from <= to <= stop && Trim(s[start..stop]) == s[from..to] && Trimmed(s[from..to])
  {
    hide Trim, Trimmed;
    var a := TrimTrims(s[start..stop]);
    from, to := start + a, start + a + |Trim(s[start..stop])|;
    SliceOfSlice(s, start, stop, a, to - start);
  }

  lemma QuietSliceHasNoKey(s: string, from: nat, to: nat)
    requires 0 < from <= to <= |s| && forall q :: from <= q < to ==> MatchAt(s, q).None?
    ensures forall q :: 0 <= q < |s[from..to]| && IsSpace(s[from..to][q]) ==> !KeyAt(s[from..to], q + 1)
  {
    hide KeyAt, IsSpace, MatchAt;
    forall q | 0 <= q < to - from && IsSpace(s[from..to][q]) ensures !KeyAt(s[from..to], q + 1) {
      assert MatchAt(s, from + q).None?;
      KeyIsMatch(s, from, to, q);
    }
  }

  lemma KeyIsMatch(s: string, from: nat, to: nat, q: nat)
    requires 0 < from <= to <= |s| && q < to - from && IsSpace(s[from..to][q]) && MatchAt(s, from + q).None?
    ensures !KeyAt(s[from..to], q + 1)
  {
    hide KeyAt, IsSpace;
    if KeyAt(s[from..to], q + 1) {
      KeyOfStretch(s, from, to, q + 1);
      assert false;
    }
  }

  lemma SliceOfSlice(s: string, start: nat, stop: nat, a: nat, b: nat)
    requires start <= stop <= |s| && a <= b <= stop - start
    ensures s[start..stop][a..b] == s[start + a..start + b]
  {
    var x, y := s[start..stop][a..b], s[start + a..start + b];
    assert |x| == |y| && forall i :: 0 <= i < |x| ==> x[i] == y[i];
  }

  lemma KeyOfStretch(s: string, from: nat, to: nat, p: nat)
    requires from <= to <= |s| && KeyAt(s[from..to], p)
    ensures KeyAt(s, from + p)
  {
    var before, value, after := s[..from], s[from..to], s[to..];
    hide KeyAt;
    assert s == before + (value + after);
    KeyInside(value, after, p);
    KeyAtOfSuffix(before, value + after, p);
  }

  lemma KeyInside(a: string, b: string, p: nat)
    requires KeyAt(a, p)
    ensures KeyAt(a + b, p)
  {
    var e := WordEnd(a, p);
    assert a + b == a[..e] + (a[e..] + b);
    assert a == a[..e] + a[e..];
    WordRunFrom(a + b, p, e);
  }

  lemma {:induction false} WordRunFrom(s: string, p: nat, e: nat)
    requires p <= e < |s| && (forall i :: p <= i < e ==> IsWord(s[i])) && !IsWord(s[e])
    ensures WordEnd(s, p) == e
    decreases e - p
  {
    if p < e {
      WordRunFrom(s, p + 1, e);
    }
  }

  lemma EmptyIsClean()
    ensures Clean("")
  {
  }

  lemma {:induction false} ParsedIsClean(s: string, stop: nat)
    requires stop <= |s|
    ensures MatchesInside'(s, stop)
    ensures forall k :: k in FieldsOf(s, MatchesUpTo(s, stop), stop) ==> Clean(FieldsOf(s, MatchesUpTo(s, stop), stop)[k])
    decreases stop
  {
    hide MatchesUpTo, MatchAt, Clean, Trim, KeyAt;
    MatchesInside(s, stop);
    if MatchesUpTo(s, stop) != [] {
      var m := LastMatch(s, stop);
      ParsedIsClean(s, m.index);
      EmptyIsClean();
      if m.eq + 1 <= stop {
        QuietStretchIsClean(s, m.eq + 1, stop);
      }
    }
  }

  ghost predicate MatchesInside'(s: string, n: nat) {
    forall m :: m in MatchesUpTo(s, n) ==> m.index <= m.key <= m.eq < |s|
  }

  lemma {:induction false} MapOfHolds(fields: seq<Field>, i: nat)
    requires GoodKeys(fields) && i < |fields|
    ensures fields[i].key in MapOf(fields) && MapOf(fields)[fields[i].key] == fields[i].value
  {
    if i < |fields| - 1 {
      MapOfHolds(fields[..|fields| - 1], i);
    }
  }

  /** A printed line parses back to its fields exactly when every value is clean. */
  lemma RoundTripIff(fields: seq<Field>)
    requires GoodKeys(fields)
    ensures Fields(Render(fields)) == MapOf(fields) <==> forall i :: 0 <= i < |fields| ==> Clean(fields[i].value)
  {
    if Fields(Render(fields)) == MapOf(fields) {
      ParsedIsClean(Render(fields), |Render(fields)|);
      forall i | 0 <= i < |fields| ensures Clean(fields[i].value) {
        MapOfHolds(fields, i);
      }
    } else if forall i :: 0 <= i < |fields| ==> Clean(fields[i].value) {
      RoundTrip(fields);
    }
  }

  // ----- whole lines -----

  /** What parseLine reads out of a line, before timestamps and numbers are converted. */
  datatype Parsed = Parsed(eventType: string, fields: map<string, string>, raw: string)

  function IndexOf(s: string, c: char): (i: nat)
    ensures i <= |s| && (i < |s| ==> s[i] == c) && forall j :: 0 <= j < i ==> s[j] != c
  {
    if s == "" || s[0] == c then 0 else 1 + IndexOf(s[1..], c)
  }

  /** /^[A-Z]+$/ */
  predicate IsTypeName(s: string) {
    s != "" && forall i :: 0 <= i < |s| ==> 'A' <= s[i] <= 'Z'
  }

  function ParseLine(line: string): Option<Parsed> {
    var firstSpace := IndexOf(line, ' ');
    if firstSpace == |line| then None
    else
      var eventType := Trim(line[..firstSpace]);
      if IsTypeName(eventType) then Some(Parsed(eventType, Fields(line[firstSpace + 1..]), line)) else None
  }

  /** The type an event ends up with: a field named `type` overwrites the one at the head of the line. */
  function TypeShown(p: Parsed): string {
    if "type" in p.fields then p.fields["type"] else p.eventType
  }

  function PrintLine(eventType: string, fields: seq<Field>): string {
    eventType + " " + Render(fields)
  }

  lemma LineIsSplit(eventType: string, rest: string)
    requires IsTypeName(eventType)
    ensures ParseLine(eventType + " " + rest) == Some(Parsed(eventType, Fields(rest), eventType + " " + rest))
  {
    var line := eventType + " " + rest;
    assert line[|eventType|] == ' ' && forall j :: 0 <= j < |eventType| ==> line[j] == eventType[j];
    assert IndexOf(line, ' ') == |eventType|;
    assert line[..|eventType|] == eventType && line[|eventType| + 1..] == rest;
    TrimmedStays(eventType);
  }

  /** A printed line parses back to its type and fields exactly when every value is clean. */
  lemma LineRoundTripIff(eventType: string, fields: seq<Field>)
    requires IsTypeName(eventType) && GoodKeys(fields)
    ensures ParseLine(PrintLine(eventType, fields)) == Some(Parsed(eventType, MapOf(fields), PrintLine(eventType, fields)))
            <==> forall i :: 0 <= i < |fields| ==> Clean(fields[i].value)
  {
    hide ParseLine, Fields, Render, MapOf, Clean, GoodKeys, IsTypeName;
    LineIsSplit(eventType, Render(fields));
    RoundTripIff(fields);
  }

  lemma {:induction false} MapOfComesFrom(fields: seq<Field>, key: string) returns (i: nat)
    requires key in MapOf(fields)
    ensures i < |fields| && fields[i].key == key
  {
    i := |fields| - 1;
    if fields[i].key != key {
      i := MapOfComesFrom(fields[..i], key);
    }
  }

  /** A printed line is shown under its own type iff no field named `type` says otherwise. */
  lemma TypeShownIff(eventType: string, fields: seq<Field>)
    requires IsTypeName(eventType) && GoodKeys(fields) && forall i :: 0 <= i < |fields| ==> Clean(fields[i].value)
    ensures ParseLine(PrintLine(eventType, fields)).Some?
    ensures TypeShown(ParseLine(PrintLine(eventType, fields)).value) == eventType
            <==> forall i :: 0 <= i < |fields| && fields[i].key == "type" ==> fields[i].value == eventType
  {
    hide ParseLine, Clean, IsTypeName;
    LineRoundTripIff(eventType, fields);
    if "type" in MapOf(fields) {
      var i := MapOfComesFrom(fields, "type");
      MapOfHolds(fields, i);
    }
    forall i | 0 <= i < |fields| && fields[i].key == "type" ensures "type" in MapOf(fields) && MapOf(fields)["type"] == fields[i].value {
      MapOfHolds(fields, i);
    }
  }

  // ----- the CONNECT line -----

  function ConnectFields(time: string, timestampNS: string, pid: string, tid: string, uid: string, comm: string,
                         protocol: string, destination: string, hostnames: string): seq<Field> {
    [Field("time", time), Field("timestamp_ns", timestampNS), Field("host_pid", pid), Field("tid", tid), Field("uid", uid),
     Field("comm", comm), Field("protocol", protocol), Field("dst", destination), Field("hostnames", hostnames)]
  }

  lemma ConnectKeysAreGood(time: string, timestampNS: string, pid: string, tid: string, uid: string, comm: string,
                           protocol: string, destination: string, hostnames: string)
    ensures GoodKeys(ConnectFields(time, timestampNS, pid, tid, uid, comm, protocol, destination, hostnames))
  {
    assert IsKey("time") && IsKey("timestamp_ns") && IsKey("host_pid") && IsKey("tid") && IsKey("uid");
    assert IsKey("comm") && IsKey("protocol") && IsKey("dst") && IsKey("hostnames");
    hide IsKey;
    assert "host_pid"[0] == 'h' && "protocol"[0] == 'p' && "time"[0] == 't' && "comm"[0] == 'c' && "tid"[0] == 't' && "uid"[0] == 'u';
  }

  // ----- a posted body -----

  /** body.split(/\r?\n/); current is the line being read. */
  function Lines(body: string, current: string): seq<string>
    decreases |body|
  {
    if body == "" then [current]
    else if body[0] == '\n' then [WithoutReturn(current)] + Lines(body[1..], "")
    else Lines(body[1..], current + [body[0]])
  }

  function WithoutReturn(line: string): string {
    if line != "" && line[|line| - 1] == '\r' then line[..|line| - 1] else line
  }

  /** Trim every line, drop the empty ones, and keep what parses. */
  function ParseLines(lines: seq<string>): seq<Parsed> {
    if lines == [] then []
    else
      var line := Trim(lines[0]);
      (if line != "" && ParseLine(line).Some? then [ParseLine(line).value] else []) + ParseLines(lines[1..])
  }

  function ParseBody(body: string): seq<Parsed> {
    ParseLines(Lines(body, ""))
  }

  datatype Printed = Printed(eventType: string, fields: seq<Field>)

  predicate Printable(p: Printed) {
    && IsTypeName(p.eventType) && GoodKeys(p.fields) && p.fields != []
    && forall i :: 0 <= i < |p.fields| ==> Clean(p.fields[i].value) && OneLine(p.fields[i].value)
  }

  predicate OneLine(s: string) {
    forall i :: 0 <= i < |s| ==> s[i] != '\n'
  }

  function Body(printed: seq<Printed>): string {
    if printed == [] then "" else PrintLine(printed[0].eventType, printed[0].fields) + "\n" + Body(printed[1..])
  }

  function Meaning(p: Printed): Parsed {
    Parsed(p.eventType, MapOf(p.fields), PrintLine(p.eventType, p.fields))
  }

  function Meanings(printed: seq<Printed>): seq<Parsed> {
    seq(|printed|, i requires 0 <= i < |printed| => Meaning(printed[i]))
  }

  lemma {:induction false} LineIsRead(line: string, current: string, rest: string)
    requires OneLine(line)
    ensures Lines(line + "\n" + rest, current) == [WithoutReturn(current + line)] + Lines(rest, "")
    decreases |line|
  {
    var body := line + "\n" + rest;
    if line == "" {
      assert body[1..] == rest && current + line == current;
    } else {
      LineIsRead(line[1..], current + [line[0]], rest);
      assert body[1..] == line[1..] + "\n" + rest;
      assert current + [line[0]] + line[1..] == current + line;
    }
  }

  lemma {:induction false} RenderIsOneLine(fields: seq<Field>)
    requires GoodKeys(fields) && forall i :: 0 <= i < |fields| ==> Clean(fields[i].value) && OneLine(fields[i].value)
    ensures OneLine(Render(fields))
    ensures fields != [] ==> Render(fields) != "" && !IsSpace(Render(fields)[|Render(fields)| - 1])
  {
    if fields != [] {
      var init, f := fields[..|fields| - 1], fields[|fields| - 1];
      RenderIsOneLine(init);
      FieldIsOneLine(f);
      hide IsSpace, Clean, GoodKeys, Render;
      RenderSnoc(fields);
      var lead := Render(init) + if init == [] then "" else " ";
      assert OneLine(lead) && OneLine(lead + (f.key + "=" + f.value));
    }
  }

  lemma RenderSnoc(fields: seq<Field>)
    requires fields != []
    ensures var init, f := fields[..|fields| - 1], fields[|fields| - 1];
            Render(fields) == Render(init) + (if init == [] then "" else " ") + (f.key + "=" + f.value)
  {
  }

  lemma FieldIsOneLine(f: Field)
    requires IsKey(f.key) && Clean(f.value) && OneLine(f.value)
    ensures var text := f.key + "=" + f.value;
            OneLine(text) && !IsSpace(text[|text| - 1])
  {
    hide KeyAt;
  }

  lemma PrintedLineIsWhole(p: Printed)
    requires Printable(p)
    ensures var line := PrintLine(p.eventType, p.fields);
            OneLine(line) && line != "" && Trimmed(line) && WithoutReturn(line) == line
  {
    RenderIsOneLine(p.fields);
  }

  /** Posting printed lines stores exactly their events, in order. */
  lemma {:induction false} BodyRoundTrip(printed: seq<Printed>)
    requires forall i :: 0 <= i < |printed| ==> Printable(printed[i])
    ensures ParseBody(Body(printed)) == Meanings(printed)
    decreases |printed|
  {
    hide Printable, Lines, Body, ParseBody, Meanings, PrintLine, ParseLine, Trim;
    if printed == [] {
      EmptyBody();
    } else {
      HeadLineIsRead(printed);
      HeadLineMeans(printed[0]);
      BodyRoundTrip(printed[1..]);
      BodyStep(printed, PrintLine(printed[0].eventType, printed[0].fields));
    }
  }

  lemma EmptyBody()
    ensures ParseBody(Body([])) == Meanings([])
  {
    hide ParseLine;
    TrimmedStays("");
  }

  lemma HeadLineIsRead(printed: seq<Printed>)
    requires printed != [] && Printable(printed[0])
    ensures Lines(Body(printed), "") == [PrintLine(printed[0].eventType, printed[0].fields)] + Lines(Body(printed[1..]), "")
  {
    hide Lines, PrintLine, Printable, OneLine, WithoutReturn, Trimmed;
    var line := PrintLine(printed[0].eventType, printed[0].fields);
    PrintedLineIsWhole(printed[0]);
    LineIsRead(line, "", Body(printed[1..]));
    assert "" + line == line;
  }

  lemma HeadLineMeans(p: Printed)
    requires Printable(p)
    ensures var line := PrintLine(p.eventType, p.fields);
            line != "" && Trim(line) == line && ParseLine(line) == Some(Meaning(p))
  {
    hide ParseLine, PrintLine, Trim, Trimmed, Clean, OneLine, GoodKeys, IsTypeName, WithoutReturn;
    PrintedLineIsWhole(p);
    TrimmedStays(PrintLine(p.eventType, p.fields));
    LineRoundTripIff(p.eventType, p.fields);
  }

  lemma BodyStep(printed: seq<Printed>, line: string)
    requires printed != [] && line != "" && Trim(line) == line && ParseLine(line) == Some(Meaning(printed[0]))
    requires Lines(Body(printed), "") == [line] + Lines(Body(printed[1..]), "")
    requires ParseBody(Body(printed[1..])) == Meanings(printed[1..])
    ensures ParseBody(Body(printed)) == Meanings(printed)
  {
    hide Lines, Trim, ParseLine, Body, Meaning;
    assert ([line] + Lines(Body(printed[1..]), ""))[1..] == Lines(Body(printed[1..]), "");
    assert Meanings(printed) == [Meaning(printed[0])] + Meanings(printed[1..]);
  }

  // ----- a body with other lines in it -----

  /** A line of a body: a printed one with white space around it, or one that is no event. It ends in \n or in \r\n. */
  datatype Posted =
    | Good(lead: string, printed: Printed, trail: string, crlf: bool)
    | Noise(line: string, crlf: bool)

  predicate IsPad(s: string) {
    forall i :: 0 <= i < |s| ==> IsSpace(s[i]) && s[i] != '\n' && s[i] != '\r'
  }

  /** Nothing but white space, no space character, or before the first one something else than a capital letter. */
  predicate IsNoise(line: string) {
    var t := Trim(line);
    || (forall i :: 0 <= i < |t| ==> t[i] != ' ')
    || (exists j :: 0 <= j < |t| && !IsSpace(t[j]) && !('A' <= t[j] <= 'Z') && forall i :: 0 <= i <= j ==> t[i] != ' ')
  }

  predicate ValidPosted(p: Posted) {
    match p
    case Good(lead, printed, trail, _) => IsPad(lead) && IsPad(trail) && Printable(printed)
    case Noise(line, _) => OneLine(line) && (line != "" ==> line[|line| - 1] != '\r') && IsNoise(line)
  }

  function TextOf(p: Posted): string {
    match p
    case Good(lead, printed, trail, _) => lead + PrintLine(printed.eventType, printed.fields) + trail
    case Noise(line, _) => line
  }

  function PostedBody(posted: seq<Posted>): string {
    if posted == [] then "" else TextOf(posted[0]) + (if posted[0].crlf then "\r\n" else "\n") + PostedBody(posted[1..])
  }

  /** The events of the good lines. */
  function PostedMeanings(posted: seq<Posted>): seq<Parsed> {
    if posted == [] then []
    else (if posted[0].Good? then [Meaning(posted[0].printed)] else []) + PostedMeanings(posted[1..])
  }

  lemma {:induction false} TrimStartPad(lead: string, rest: string)
    requires IsPad(lead) && rest != "" && !IsSpace(rest[0])
    ensures TrimStart(lead + rest) == rest
  {
    hide IsSpace;
    if lead == "" {
      assert lead + rest == rest;
    } else {
      assert (lead + rest)[1..] == lead[1..] + rest && (lead + rest)[0] == lead[0];
      TrimStartPad(lead[1..], rest);
      hide IsPad;
    }
  }

  lemma {:induction false} TrimEndPad(rest: string, trail: string)
    requires IsPad(trail) && rest != "" && !IsSpace(rest[|rest| - 1])
    ensures TrimEnd(rest + trail) == rest
  {
    hide IsSpace;
    if trail == "" {
      assert rest + trail == rest;
    } else {
      TrimEndPad(rest, trail[..|trail| - 1]);
      assert (rest + trail)[..|rest + trail| - 1] == rest + trail[..|trail| - 1];
    }
  }

  lemma NoiseIsNoLine(line: string)
    requires IsNoise(line) && Trim(line) != ""
    ensures ParseLine(Trim(line)).None?
  {
    var t := Trim(line);
    hide Trim, Fields;
    var space := IndexOf(t, ' ');
    if space < |t| {
      var j :| 0 <= j < |t| && !IsSpace(t[j]) && !('A' <= t[j] <= 'Z') && forall i :: 0 <= i <= j ==> t[i] != ' ';
      TrimKeepsLetters(t[..space], j);
      assert t[..space][j] == t[j];
    }
  }

  lemma {:induction false} TrimStartKeeps(s: string, j: nat)
    requires j < |s| && !IsSpace(s[j])
    ensures s[j] in TrimStart(s)
  {
    if IsSpace(s[0]) {
      TrimStartKeeps(s[1..], j - 1);
    }
  }

  lemma {:induction false} TrimEndKeepsLetter(s: string, j: nat)
    requires j < |s| && !IsSpace(s[j])
    ensures s[j] in TrimEnd(s)
  {
    if IsSpace(s[|s| - 1]) {
      TrimEndKeepsLetter(s[..|s| - 1], j);
    }
  }

  lemma TrimKeepsLetters(s: string, j: nat)
    requires j < |s| && !IsSpace(s[j])
    ensures s[j] in Trim(s)
  {
    TrimStartKeeps(s, j);
    var k :| 0 <= k < |TrimStart(s)| && TrimStart(s)[k] == s[j];
    TrimEndKeepsLetter(TrimStart(s), k);
  }

  lemma PostedLineIsRead(p: Posted, rest: string)
    requires ValidPosted(p)
    ensures Lines(TextOf(p) + (if p.crlf then "\r\n" else "\n") + rest, "") == [TextOf(p)] + Lines(rest, "")
  {
    PostedTextIsOneLine(p);
    hide TextOf, ValidPosted;
    LineEndIsRead(TextOf(p), p.crlf, rest);
  }

  lemma PostedTextIsOneLine(p: Posted)
    requires ValidPosted(p)
    ensures var text := TextOf(p); OneLine(text) && (text != "" ==> text[|text| - 1] != '\r')
  {
    if p.Good? {
      PrintedLineIsWhole(p.printed);
      hide PrintLine, Printable, IsSpace;
    }
  }

  lemma LineEndIsRead(text: string, crlf: bool, rest: string)
    requires OneLine(text) && (text != "" ==> text[|text| - 1] != '\r')
    ensures Lines(text + (if crlf then "\r\n" else "\n") + rest, "") == [text] + Lines(rest, "")
  {
    var line := text + if crlf then "\r" else "";
    assert WithoutReturn(line) == text && OneLine(line) && "" + line == line;
    hide OneLine, Lines, WithoutReturn;
    LineIsRead(line, "", rest);
    assert line + "\n" + rest == text + (if crlf then "\r\n" else "\n") + rest;
  }

  /** Posting any such lines stores exactly the events of the good ones, in order. */
  lemma {:induction false} PostedBodyIsRead(posted: seq<Posted>)
    requires forall i :: 0 <= i < |posted| ==> ValidPosted(posted[i])
    ensures ParseBody(PostedBody(posted)) == PostedMeanings(posted)
    decreases |posted|
  {
    hide ValidPosted, TextOf, Lines, ParseLine, Trim, Meaning;
    if posted == [] {
      EmptyBody();
    } else {
      var text, rest := TextOf(posted[0]), PostedBody(posted[1..]);
      PostedLineIsRead(posted[0], rest);
      PostedLineMeans(posted[0]);
      PostedBodyIsRead(posted[1..]);
      assert ([text] + Lines(rest, ""))[1..] == Lines(rest, "");
    }
  }

  lemma TrimPadded(lead: string, line: string, trail: string)
    requires IsPad(lead) && IsPad(trail) && line != "" && !IsSpace(line[0]) && !IsSpace(line[|line| - 1])
    ensures Trim(lead + line + trail) == line
  {
    hide IsPad, IsSpace, TrimStart, TrimEnd;
    assert lead + line + trail == lead + (line + trail) && (line + trail)[0] == line[0];
    TrimStartPad(lead, line + trail);
    TrimEndPad(line, trail);
  }

  lemma GoodLineMeans(lead: string, printed: Printed, trail: string)
    requires IsPad(lead) && IsPad(trail) && Printable(printed)
    ensures var line := Trim(lead + PrintLine(printed.eventType, printed.fields) + trail);
            line != "" && ParseLine(line) == Some(Meaning(printed))
  {
    hide PrintLine, Printable, ParseLine, Meaning, Trim, IsPad, OneLine, IsSpace, WithoutReturn;
    PrintedLineIsWhole(printed);
    HeadLineMeans(printed);
    TrimPadded(lead, PrintLine(printed.eventType, printed.fields), trail);
  }

  lemma PostedLineMeans(p: Posted)
    requires ValidPosted(p)
    ensures var line := Trim(TextOf(p));
            (if line != "" && ParseLine(line).Some? then [ParseLine(line).value] else [])
            == if p.Good? then [Meaning(p.printed)] else []
  {
    hide PrintLine, Printable, ParseLine, Meaning, Trim, IsPad, OneLine, IsNoise;
    match p
    case Good(lead, printed, trail, _) => GoodLineMeans(lead, printed, trail);
    case Noise(line, _) =>
      if Trim(line) != "" {
        NoiseIsNoLine(line);
      }
  }

  // ----- the characters, in words -----

  const CAPITALS: string := "ABCDEFGHIJKLMNOPQRSTUVWXYZ"
  const SMALLS: string := "abcdefghijklmnopqrstuvwxyz"
  const DIGITS: string := "0123456789"

  lemma WordCharacters(c: char)
    ensures IsKeyStart(c) <==> c in CAPITALS || c in SMALLS || c == '_'
    ensures IsWord(c) <==> c in CAPITALS || c in SMALLS || c == '_' || c in DIGITS
  {
    CapitalLetters(c);
    SmallLetters(c);
    assert '0' <= c <= '9' <==> c in DIGITS;
    hide CAPITALS, SMALLS, DIGITS;
  }

  lemma CapitalLetters(c: char)
    ensures 'A' <= c <= 'Z' <==> c in CAPITALS
  {
  }

  lemma SmallLetters(c: char)
    ensures 'a' <= c <= 'z' <==> c in SMALLS
  {
  }

  lemma SpaceCharacters(c: char)
    ensures IsSpace(c) <==>
            c as int in {0x09, 0x0a, 0x0b, 0x0c, 0x0d, 0x20, 0xa0, 0x1680, 0x2000, 0x2001, 0x2002, 0x2003, 0x2004, 0x2005, 0x2006,
                         0x2007, 0x2008, 0x2009, 0x200a, 0x2028, 0x2029, 0x202f, 0x205f, 0x3000, 0xfeff}
  {
  }

  lemma TypeNames(s: string)
    ensures IsTypeName(s) <==> s != "" && forall i :: 0 <= i < |s| ==> s[i] in CAPITALS
  {
    forall c: char ensures c in CAPITALS <==> 'A' <= c <= 'Z' {
      CapitalLetters(c);
    }
  }

  /** White space at q, and from there to an '=' at e an identifier. */
  predicate HidesKey(value: string, q: nat, e: nat) {
    q < e < |value| && IsSpace(value[q]) && value[e] == '=' && IsKey(value[q + 1..e])
  }

  /** A clean value is trimmed and hides no key. */
  lemma CleanIff(value: string)
    ensures Clean(value) <==> Trimmed(value) && forall q: nat, e: nat :: !HidesKey(value, q, e)
  {
    hide IsSpace, Trimmed, KeyAt, IsKey;
    if q: nat, e: nat :| HidesKey(value, q, e) {
      KeyAtIff(value, q);
    }
    if q :| 0 <= q < |value| && IsSpace(value[q]) && KeyAt(value, q + 1) {
      KeyAtIff(value, q);
      var e :| q < e < |value| && value[e] == '=' && IsKey(value[q + 1..e]);
      assert HidesKey(value, q, e);
    }
  }

  lemma KeyAtIff(s: string, q: nat)
    ensures KeyAt(s, q + 1) <==> exists e :: q < e < |s| && s[e] == '=' && IsKey(s[q + 1..e])
  {
    if KeyAt(s, q + 1) {
      assert IsKey(s[q + 1..WordEnd(s, q + 1)]);
    }
    if e :| q < e < |s| && s[e] == '=' && IsKey(s[q + 1..e]) {
      assert forall i :: q + 1 <= i < e ==> s[i] == s[q + 1..e][i - q - 1];
      WordRunFrom(s, q + 1, e);
    }
  }
}
