/** Shortening of graph labels: a path keeps its last directory and file name, each cut to size. */
module CompactPath {
  import opened Basics
  import opened JsStrings

  /** s.split('/').filter(Boolean): the non-empty segments; current is the segment being read. */
  function Segments(s: string, current: string): (parts: seq<string>)
    ensures forall p :: p in parts ==> p != []
    decreases |s|
  {
    var done := if current == "" then [] else [current];
    if s == "" then done
    else if s[0] == '/' then done + Segments(s[1..], "")
    else Segments(s[1..], current + [s[0]])
  }

  // ----- compactPath -----

  const MIN_CUT: nat := 3
  const MAX_EXTENSION: nat := 10

  /** The extension with its dot, if there is one of at most ten characters after a non-empty stem. */
  function Extension(filename: string): (extension: string)
    ensures |extension| <= MAX_EXTENSION && |extension| <= |filename|
  {
    var dot := LastIndexOf(filename, '.');
    if dot > 0 && |filename| - dot <= MAX_EXTENSION then filename[dot..] else ""
  }

  function CompactFilename(filename: string, stemLength: nat): string {
    var extension := Extension(filename);
    var stem := filename[..|filename| - |extension|];
    if |stem| > stemLength then stem[..stemLength] + "*" + extension else filename
  }

  function StemLength(parent: string, filename: string, maxLength: nat): nat {
    Max(MIN_CUT, maxLength - (|parent| + 5) - |Extension(filename)| - 1)
  }

  function CompactPair(parent: string, filename: string, maxLength: nat): string {
    var prefix := ".../" + parent + "/";
    var compactFilename := CompactFilename(filename, StemLength(parent, filename, maxLength));
    var compact := prefix + compactFilename;
    if |compact| <= maxLength then compact
    else
      var parentLength := Max(MIN_CUT, maxLength - |compactFilename| - 6);
      ".../" + Slice(parent, parentLength) + "*/" + compactFilename
  }

  function CompactPath(value: string, maxLength: nat): string {
    if |value| <= maxLength then value
    else
      var parts := Segments(value, "");
      if |parts| > 1 then CompactPair(parts[|parts| - 2], parts[|parts| - 1], maxLength)
      else Slice(value, maxLength - 3) + "..."
  }

  /** With room for the stem the first form fits; it overflows only when the stem was cut to three. */
  lemma OverflowMeansShortFilename(parent: string, filename: string, maxLength: nat)
    requires |parent| + 5 + |CompactFilename(filename, StemLength(parent, filename, maxLength))| > maxLength
    ensures |CompactFilename(filename, StemLength(parent, filename, maxLength))| <= MIN_CUT + 1 + MAX_EXTENSION
  {
  }

  lemma CompactPathFits(value: string, maxLength: nat)
    requires maxLength >= 23
    ensures |CompactPath(value, maxLength)| <= maxLength
  {
    var parts := Segments(value, "");
    if |value| > maxLength && |parts| > 1 {
      var parent, filename := parts[|parts| - 2], parts[|parts| - 1];
      if |parent| + 5 + |CompactFilename(filename, StemLength(parent, filename, maxLength))| > maxLength {
        OverflowMeansShortFilename(parent, filename, maxLength);
      }
    }
  }

  /** r shows p letters of the directory and k of the stem, starred where cut, and the whole extension. */
  predicate KeepsAs(r: string, parent: string, filename: string, p: nat, k: nat, separator: string) {
    var extension := Extension(filename);
    var stem := filename[..|filename| - |extension|];
    && Min(MIN_CUT, |parent|) <= p <= |parent| && Min(MIN_CUT, |stem|) <= k <= |stem|
    && (separator == "*/" || (separator == "/" && p == |parent|))
    && r == ".../" + parent[..p] + separator + (stem[..k] + (if k < |stem| then "*" else "") + extension)
  }

  ghost predicate Keeps(r: string, parent: string, filename: string) {
    exists p, k, separator :: KeepsAs(r, parent, filename, p, k, separator)
  }

  /**
    What is kept: a short value as it is; of a longer path the file name with at least three letters of
    its stem and its whole extension, under at least three letters of its directory.
   */
  lemma CompactPathKeeps(value: string, maxLength: nat)
    ensures |value| <= maxLength ==> CompactPath(value, maxLength) == value
    ensures var parts := Segments(value, "");
            |value| > maxLength && |parts| > 1 ==>
              Keeps(CompactPath(value, maxLength), parts[|parts| - 2], parts[|parts| - 1])
  {
    hide Keeps, CompactPair, Segments;
    var parts := Segments(value, "");
    if |value| > maxLength && |parts| > 1 {
      PairKeeps(parts[|parts| - 2], parts[|parts| - 1], maxLength);
    }
  }

  lemma PairKeeps(parent: string, filename: string, maxLength: nat)
    ensures Keeps(CompactPair(parent, filename, maxLength), parent, filename)
  {
    var k := FilenameKeeps(filename, StemLength(parent, filename, maxLength));
    var compactFilename := CompactFilename(filename, StemLength(parent, filename, maxLength));
    hide CompactFilename, StemLength, Extension;
    if |parent| + 5 + |compactFilename| <= maxLength {
      assert parent[..|parent|] == parent;
      assert KeepsAs(CompactPair(parent, filename, maxLength), parent, filename, |parent|, k, "/");
    } else {
      var p := Min(Max(MIN_CUT, maxLength - |compactFilename| - 6), |parent|);
      assert KeepsAs(CompactPair(parent, filename, maxLength), parent, filename, p, k, "*/");
    }
  }

  lemma FilenameKeeps(filename: string, stemLength: nat) returns (k: nat)
    requires stemLength >= MIN_CUT
    ensures var extension := Extension(filename);
            var stem := filename[..|filename| - |extension|];
            && Min(MIN_CUT, |stem|) <= k <= |stem|
            && CompactFilename(filename, stemLength) == stem[..k] + (if k < |stem| then "*" else "") + extension
  {
    var stem := filename[..|filename| - |Extension(filename)|];
    k := Min(stemLength, |stem|);
    ExtensionIsSuffix(filename);
  }

  lemma ExtensionIsSuffix(filename: string)
    ensures filename == filename[..|filename| - |Extension(filename)|] + Extension(filename)
  {
  }

  // ----- the threshold is exact -----

  predicate IsSegment(s: string) {
    s != "" && forall i :: 0 <= i < |s| ==> s[i] != '/'
  }

  lemma {:induction false} SegmentRead(word: string, current: string, rest: string)
    requires forall i :: 0 <= i < |word| ==> word[i] != '/'
    ensures Segments(word + rest, current) == Segments(rest, current + word)
  {
    if word == "" {
      assert word + rest == rest && current + word == current;
    } else {
      SegmentRead(word[1..], current + [word[0]], rest);
      assert (word + rest)[1..] == word[1..] + rest;
      assert current + [word[0]] + word[1..] == current + word;
    }
  }

  lemma SegmentThen(word: string, rest: string)
    requires IsSegment(word)
    ensures Segments(word + ("/" + rest), "") == [word] + Segments(rest, "")
  {
    SegmentRead(word, "", "/" + rest);
    assert "" + word == word;
    assert ("/" + rest)[1..] == rest;
  }

  lemma ThreeSegments(directory: string, parent: string, filename: string)
    requires IsSegment(directory) && IsSegment(parent) && IsSegment(filename)
    ensures Segments(directory + ("/" + (parent + ("/" + filename))), "") == [directory, parent, filename]
  {
    SegmentThen(directory, parent + ("/" + filename));
    SegmentThen(parent, filename);
    SegmentRead(filename, "", "");
    assert filename + "" == filename && "" + filename == filename;
  }

  /** With a parent of four and a file name of four plus a ten-character extension, nothing shorter than 23 fits. */
  lemma StubbornOverflows(directory: string, parent: string, filename: string, maxLength: nat)
    requires IsSegment(directory) && IsSegment(parent) && IsSegment(filename)
    requires |directory| == 8 && |parent| == 4 && |filename| == 14 && |Extension(filename)| == 10 && maxLength < 23
    ensures |CompactPath(directory + ("/" + (parent + ("/" + filename))), maxLength)| > maxLength
  {
    hide Segments, Extension, IsSegment;
    ThreeSegments(directory, parent, filename);
  }

  lemma StubbornExists() returns (directory: string, parent: string, filename: string)
    ensures IsSegment(directory) && IsSegment(parent) && IsSegment(filename)
    ensures |directory| == 8 && |parent| == 4 && |filename| == 14 && |Extension(filename)| == 10
  {
    directory := seq(8, _ => 'd');
    parent := seq(4, _ => 'p');
    filename := seq(14, i => if i == 4 then '.' else 'f');
    assert LastIndexOf(filename, '.') == 4 by {
      assert filename[4] == '.';
    }
  }

  /** compactPath keeps its promise for every string exactly from a limit of 23 characters on. */
  lemma CompactPathFitsIff(maxLength: nat)
    ensures (forall value :: |CompactPath(value, maxLength)| <= maxLength) <==> maxLength >= 23
  {
    if maxLength >= 23 {
      forall value ensures |CompactPath(value, maxLength)| <= maxLength {
        CompactPathFits(value, maxLength);
      }
    } else {
      var directory, parent, filename := StubbornExists();
      StubbornOverflows(directory, parent, filename, maxLength);
    }
  }

  // ----- no letter is wasted -----

  /** Slashes only separate: leading, trailing and repeated ones make no segment. */
  lemma SlashesSeparate(word: string, rest: string)
    requires IsSegment(word)
    ensures Segments("", "") == [] && Segments("/" + rest, "") == Segments(rest, "")
    ensures Segments(word, "") == [word] && Segments(word + ("/" + rest), "") == [word] + Segments(rest, "")
  {
    assert ("/" + rest)[1..] == rest;
    SegmentThen(word, rest);
    SegmentRead(word, "", "");
    assert word + "" == word && "" + word == word;
  }

  /**
    The shortened pair is all of it if there is room to spare, and exactly as long as allowed if not all of it
    fits. A pair that would just fit is starred in place of the last letter of a stem of more than three.
   */
  lemma PairIsTight(parent: string, filename: string, maxLength: nat)
    requires maxLength >= 23
    ensures var prefix, extension := ".../" + parent + "/", Extension(filename);
            var r, stem := CompactPair(parent, filename, maxLength), filename[..|filename| - |extension|];
            && (|prefix + filename| < maxLength ==> r == prefix + filename)
            && (|prefix + filename| > maxLength ==> |r| == maxLength)
            && (|prefix + filename| == maxLength ==>
                  r == if |stem| <= 3 then prefix + filename else prefix + (stem[..|stem| - 1] + "*" + extension))
  {
    var prefix, extension := ".../" + parent + "/", Extension(filename);
    var stem, k := filename[..|filename| - |extension|], StemLength(parent, filename, maxLength);
    assert |prefix| == |parent| + 5 && |prefix + filename| == |parent| + 5 + |filename|;
    assert k == Max(3, maxLength - (|parent| + 5) - |extension| - 1);
    assert |prefix + CompactFilename(filename, k)| == |parent| + 5 + |CompactFilename(filename, k)|;
    FilenameIs(filename, k);
    if |stem| > k {
      CutOverflows(parent, filename, maxLength);
    } else if |prefix + filename| > maxLength {
      CutOverflows(parent, filename, maxLength);
    }
    hide CompactFilename, StemLength, Extension;
  }

  lemma FilenameIs(filename: string, k: nat)
    ensures var extension := Extension(filename);
            var stem := filename[..|filename| - |extension|];
            CompactFilename(filename, k) == if |stem| > k then stem[..k] + "*" + extension else filename
  {
  }

  /** When the first form is too long, the directory makes up for it exactly. */
  lemma CutOverflows(parent: string, filename: string, maxLength: nat)
    requires maxLength >= 23
    ensures var name := CompactFilename(filename, StemLength(parent, filename, maxLength));
            |parent| + 5 + |name| > maxLength ==> |CompactPair(parent, filename, maxLength)| == maxLength
  {
    var name := CompactFilename(filename, StemLength(parent, filename, maxLength));
    if |parent| + 5 + |name| > maxLength {
      OverflowMeansShortFilename(parent, filename, maxLength);
      hide CompactFilename, StemLength, Extension;
      assert |".../" + parent + "/" + name| == |parent| + 5 + |name|;
    }
  }

  /** So is every label: of several segments the last two, as above; of one segment, the beginning and an ellipsis. */
  lemma CompactPathIsTight(value: string, maxLength: nat, parts: seq<string>, parent: string, filename: string)
    requires maxLength >= 23 && |value| > maxLength
    ensures Segments(value, "") == parts + [parent, filename] ==>
              var whole := ".../" + parent + "/" + filename;
              if |whole| < maxLength then CompactPath(value, maxLength) == whole else |CompactPath(value, maxLength)| == maxLength
    ensures |Segments(value, "")| <= 1 ==> CompactPath(value, maxLength) == value[..maxLength - 3] + "..."
  {
    hide CompactPair, Segments, Extension;
    PairIsTight(parent, filename, maxLength);
    if |".../" + parent + "/" + filename| >= maxLength {
      PairLength(parent, filename, maxLength);
    }
  }

  lemma PairLength(parent: string, filename: string, maxLength: nat)
    requires maxLength >= 23 && |".../" + parent + "/" + filename| >= maxLength
    ensures |CompactPair(parent, filename, maxLength)| == maxLength
  {
    hide CompactPair;
    PairIsTight(parent, filename, maxLength);
  }

  /** An extension is at most nine characters behind the last dot, with the dot, of a name that does not begin with it. */
  lemma ExtensionIs(stem: string, letters: string)
    requires forall i :: 0 <= i < |letters| ==> letters[i] != '.'
    ensures Extension(stem + ("." + letters)) == if stem != "" && |letters| <= 9 then "." + letters else ""
    ensures Extension(letters) == ""
  {
    var name := stem + ("." + letters);
    assert name[|stem|] == '.' && forall i :: |stem| < i < |name| ==> name[i] == letters[i - |stem| - 1];
    assert LastIndexOf(name, '.') == |stem| && name[|stem|..] == "." + letters;
  }
}
