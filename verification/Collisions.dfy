/**
  Where promotion is not maximal: files named like the directory of others. Groups of at most eight files
  are never affected; for every larger size some group is.
 */
module Collisions {
  import opened JsStrings
  import opened Paths
  import opened Rollup

  // ----- the file named like the directory comes last -----

  /** Some files are shown as themselves, the file named like the directory as `last`, the others under the directory. */
  function Colliding(files: seq<string>, alone: set<string>, directory: string, last: string): map<string, string> {
    map f | f in files :: if f in alone then f else if f == directory then last else directory
  }

  lemma CollidingValues(files: seq<string>, alone: set<string>, directory: string, last: string, other: string)
    requires (forall f :: f in alone ==> f in files) && directory in files && directory !in alone
    requires other in files && other !in alone && other != directory
    ensures Values(Colliding(files, alone, directory, last)) == alone + {last, directory}
  {
    var targets := Colliding(files, alone, directory, last);
    forall y | y in alone + {last, directory} ensures y in Values(targets) {
      if y in alone {
        assert targets[y] == y;
      } else if y == last {
        assert targets[directory] == y;
      } else {
        assert targets[other] == y;
      }
    }
  }

  function Front(files: seq<string>, i: nat): set<string>
    requires i <= |files|
  {
    if i == 0 then {} else Front(files, i - 1) + {files[i - 1]}
  }

  lemma {:induction false} NotInFront(files: seq<string>, i: nat, j: nat)
    requires i <= j < |files| && Distinct(files)
    ensures files[j] !in Front(files, i)
  {
    if i > 0 {
      NotInFront(files, i - 1, j);
    }
  }

  lemma {:induction false} FrontSize(files: seq<string>, i: nat)
    requires i <= |files| && Distinct(files)
    ensures |Front(files, i)| == i && forall f :: f in Front(files, i) ==> f in files
  {
    hide Distinct;
    if i > 0 {
      FrontSize(files, i - 1);
      NotInFront(files, i - 1, i - 1);
    }
  }

  /** At least eight files of one directory, and last a file named like it, which itself is shown under `above`. */
  predicate CollisionCase(files: seq<string>, directory: string, above: string) {
    |files| >= 9 && Distinct(files) && files[|files| - 1] == directory && above != directory && above !in files
  }

  lemma CollidingMore(files: seq<string>, alone: set<string>, directory: string, last: string, x: string)
    requires x in files
    ensures x != directory ==>
              Colliding(files, alone, directory, last)[x := x] == Colliding(files, alone + {x}, directory, last)
    ensures x == directory && x !in alone ==>
              Colliding(files, alone, directory, last)[x := x] == Colliding(files, alone, directory, x)
  {
  }

  lemma ThreeMore<T>(s: set<T>, x: T, y: T, z: T)
    requires x !in s && y !in s + {x} && z !in s + {x, y}
    ensures |s + {x} + {y, z}| == |s| + 3
  {
    assert |s + {x}| == |s| + 1 && |s + {x} + {y}| == |s| + 2 && s + {x} + {y, z} == s + {x} + {y} + {z};
  }

  lemma PromoteOne(files: seq<string>, alone: set<string>, directory: string, above: string, i: nat, other: nat)
    requires CollisionCase(files, directory, above) && i < |files| - 1 && other < |files| - 1 && other != i && files[other] !in alone
    requires files[i] !in alone && directory !in alone && forall f :: f in alone ==> f in files
    ensures var trial := Colliding(files, alone, directory, above)[files[i] := files[i]];
            trial == Colliding(files, alone + {files[i]}, directory, above) && |Values(trial)| == |alone| + 3
  {
    var more := alone + {files[i]};
    hide Values, Colliding;
    assert files[i] != files[other] && files[i] != directory && files[other] != directory;
    hide Distinct;
    assert files[i] in files && files[other] in files && directory in files && above !in more;
    hide CollisionCase;
    CollidingMore(files, alone, directory, above, files[i]);
    CollidingValues(files, more, directory, above, files[other]);
    ThreeMore(alone, files[i], above, directory);
  }

  lemma {:induction false} SixPromoted(files: seq<string>, directory: string, above: string, i: nat)
    requires CollisionCase(files, directory, above) && i <= 6
    ensures Promotion(files[..i], Colliding(files, {}, directory, above)) == Colliding(files, Front(files, i), directory, above)
  {
    hide Values, Colliding;
    if i > 0 {
      SixPromoted(files, directory, above, i - 1);
      FrontSize(files, i - 1);
      NotInFront(files, i - 1, i - 1);
      NotInFront(files, i - 1, 7);
      NotInFront(files, i - 1, |files| - 1);
      PromotionSnoc(files, Colliding(files, {}, directory, above), i - 1);
      PromoteOne(files, Front(files, i - 1), directory, above, i - 1, 7);
    }
  }

  lemma {:induction false} OthersRefused(files: seq<string>, directory: string, above: string, i: nat)
    requires CollisionCase(files, directory, above) && 6 <= i < |files|
    ensures Promotion(files[..i], Colliding(files, {}, directory, above)) == Colliding(files, Front(files, 6), directory, above)
  {
    hide Promotion, Values, Front, Colliding;
    if i == 6 {
      SixPromoted(files, directory, above, 6);
    } else {
      OthersRefused(files, directory, above, i - 1);
      FrontSize(files, 6);
      var other := if i == 7 then 7 else 6;
      NotInFront(files, 6, i - 1);
      NotInFront(files, 6, other);
      NotInFront(files, 6, |files| - 1);
      PromoteOne(files, Front(files, 6), directory, above, i - 1, other);
      PromotionSnoc(files, Colliding(files, {}, directory, above), i - 1);
    }
  }

  /**
    Where a file is named like a directory that other files are grouped under, promotion need not be
    maximal: promoting that file adds no target and frees one, after all but six others were refused.
   */
  lemma CollisionWastesATarget(files: seq<string>, directory: string, above: string)
    requires CollisionCase(files, directory, above)
    ensures var shown := Promotion(files, Colliding(files, {}, directory, above));
            |Values(shown)| == 7 && forall i :: 6 <= i < |files| - 1 ==> files[i] in shown && shown[files[i]] == directory
  {
    LastPromoted(files, directory, above);
    hide Promotion, Values, Front, Colliding;
    LastValues(files, directory, above);
    assert files[..|files|] == files;
    forall i | 6 <= i < |files| - 1
      ensures files[i] in Colliding(files, Front(files, 6), directory, directory)
              && Colliding(files, Front(files, 6), directory, directory)[files[i]] == directory
    {
      NotInFront(files, 6, i);
      StillColliding(files, Front(files, 6), directory, directory, i);
    }
  }

  /** Such files: eight of the directory /z/d, spelled with a double slash, and /z/d itself. */
  function CollidingFile(i: nat): string
    requires i < 9
  {
    if i == 8 then "/z/" + "d" else "/z/" + ("/d/" + ['1' + i as char])
  }

  lemma CollidingFileParent(i: nat)
    requires i < 9
    ensures ParentDirectory(CollidingFile(i)) == if i == 8 then "/z" else "/z/d"
  {
    if i == 8 {
      CollapseNormal("/z/d");
      assert CollidingFile(8) == "/z/d" && "/z/d"[..2] == "/z" && LastIndexOf("/z/d", '/') == 2;
    } else {
      var end: string := ['/', 'd', '/', '1' + i as char];
      var flat: string := ['/', 'z'] + end;
      hide Collapse, TrimSlashes, LastIndexOf;
      FlattenedName('1' + i as char);
      assert CollidingFile(i) == ['/', 'z', '/'] + end && flat[..4] == "/z/d";
    }
  }

  lemma FlattenedName(c: char)
    requires c != '/'
    ensures var end := ['/', 'd', '/', c];
            var flat := ['/', 'z'] + end;
            && Collapse(['/', 'z', '/'] + end) == flat
            && TrimSlashes(flat) == flat && LastIndexOf(flat, '/') == 4
  {
    var end: string := ['/', 'd', '/', c];
    CollapseNormal(end);
    hide Collapse, TrimSlashes, LastIndexOf;
    CollapseAfterZ(end);
    LastSlash(['/', 'z', '/', 'd'], c);
    assert ['/', 'z'] + end == ['/', 'z', '/', 'd'] + ['/', c];
  }

  lemma CollapseAfterZ(end: string)
    requires end != "" && end[0] == '/' && Collapse(end) == end
    ensures Collapse(['/', 'z', '/'] + end) == ['/', 'z'] + end
  {
    var a, b := ['/'] + end, ['z', '/'] + end;
    hide Collapse;
    CollapseCons('/', end);
    assert b == ['z'] + a && ['z'] + end != "" && (['z'] + end)[0] == 'z';
    CollapseCons('z', a);
    assert ['/', 'z', '/'] + end == ['/'] + b;
    CollapseCons('/', b);
    assert ['/', 'z'] + end == ['/'] + (['z'] + end);
  }

  lemma LastSlash(s: string, c: char)
    requires c != '/'
    ensures TrimSlashes(s + ['/', c]) == s + ['/', c] && LastIndexOf(s + ['/', c], '/') == |s|
  {
    var name := s + ['/', c];
    assert name[|s|] == '/' && name[|s| + 1] == c;
  }

  lemma CollapseCons(c: char, s: string)
    requires s != ""
    ensures Collapse([c] + s) == if c == '/' && s[0] == '/' then Collapse(s) else [c] + Collapse(s)
  {
    assert ([c] + s)[1..] == s;
  }

  lemma CollidingFilesSorted(i: nat, j: nat)
    requires i < j < 9
    ensures Before(CollidingFile(i), CollidingFile(j)) && CollidingFile(i) != CollidingFile(j)
  {
    var x: string := ['1' + i as char];
    if j == 8 {
      BeforeAfterPrefix("/z/", "/d/" + x, "d");
      assert |CollidingFile(i)| != |CollidingFile(j)|;
    } else {
      var y: string := ['1' + j as char];
      BeforeAfterPrefix("/z/", "/d/" + x, "/d/" + y);
      BeforeAfterPrefix("/d/", x, y);
      assert CollidingFile(i)[6] != CollidingFile(j)[6];
    }
  }

  function CollidingFiles(): (files: seq<string>)
    ensures |files| == 9
  {
    seq(9, i requires 0 <= i < 9 => CollidingFile(i))
  }

  function CollidingDirectories(): map<string, string> {
    map["/z/d" := "/z/d", "/z" := "/z"]
  }

  lemma CollidingTargets()
    ensures var files, current := CollidingFiles(), CollidingDirectories();
            && Distinct(files) && Sorted(files) && |Values(current)| == 2
            && CollisionCase(files, "/z/d", "/z") && (forall f :: f in files ==> ParentDirectory(f) in current)
            && DirectoryTargets(files, current) == Colliding(files, {}, "/z/d", "/z")
  {
    var files, current := CollidingFiles(), CollidingDirectories();
    hide ParentDirectory, Before;
    forall i, j | 0 <= i < j < 9 ensures Before(files[i], files[j]) && files[i] != files[j] {
      CollidingFilesSorted(i, j);
    }
    forall f | f in files ensures ParentDirectory(f) == (if f == "/z/d" then "/z" else "/z/d") && f != "/z" {
      var i :| 0 <= i < 9 && files[i] == f;
      CollidingFileParent(i);
      assert CollidingFile(8) == "/z/d" && |f| > 2;
      if i < 8 {
        CollidingFilesSorted(i, 8);
      }
    }
    assert current["/z/d"] == "/z/d" && current["/z"] == "/z";
    assert Values(current) == {"/z/d", "/z"} && "/z/d" != "/z";
    assert files[8] == "/z/d";
  }

  /** The case arises: two directories are left, seven targets are shown, and two files could still be promoted. */
  lemma CollisionArises()
    ensures var files, current := CollidingFiles(), CollidingDirectories();
            && Distinct(files) && Sorted(files) && |Values(current)| == 2
            && (forall f :: f in files ==> ParentDirectory(f) in current)
            && !Maximal(files, files, Promotion(files, DirectoryTargets(files, current)))
  {
    var files, current := CollidingFiles(), CollidingDirectories();
    CollidingTargets();
    hide ParentDirectory, CollidingFile, CollidingFiles, CollidingDirectories, Promotion, DirectoryTargets, Colliding;
    CollisionWastesATarget(files, "/z/d", "/z");
    var shown := Promotion(files, DirectoryTargets(files, current));
    assert files[6] in files && files[6] in shown && shown[files[6]] != files[6];
    assert !Blocked(files, shown, files[6]);
  }

  lemma LastPromoted(files: seq<string>, directory: string, above: string)
    requires CollisionCase(files, directory, above)
    ensures Promotion(files[..|files|], Colliding(files, {}, directory, above)) == Colliding(files, Front(files, 6), directory, directory)
  {
    hide Promotion, Values, Front, Colliding;
    OthersRefused(files, directory, above, |files| - 1);
    PromotionSnoc(files, Colliding(files, {}, directory, above), |files| - 1);
    NotInFront(files, 6, |files| - 1);
    CollidingMore(files, Front(files, 6), directory, above, directory);
    LastValues(files, directory, above);
  }

  lemma LastValues(files: seq<string>, directory: string, above: string)
    requires CollisionCase(files, directory, above)
    ensures |Values(Colliding(files, Front(files, 6), directory, directory))| == 7
  {
    hide Promotion, Values, Front, Colliding;
    var six := Front(files, 6);
    FrontSize(files, 6);
    NotInFront(files, 6, 7);
    NotInFront(files, 6, |files| - 1);
    assert files[7] != directory && directory in files;
    hide CollisionCase, Distinct;
    CollidingValues(files, six, directory, directory, files[7]);
    assert six + {directory, directory} == six + {directory} && |six + {directory}| == 7;
  }

  lemma StillColliding(files: seq<string>, alone: set<string>, directory: string, last: string, i: nat)
    requires i < |files| && files[i] !in alone && last == directory
    ensures files[i] in Colliding(files, alone, directory, last) && Colliding(files, alone, directory, last)[files[i]] == directory
  {
  }

  // ----- the file named like the directory in between -----

  /** Files of directory a; the eighth is named like a directory z that the files after it are of. */
  predicate NestedCase(files: seq<string>, a: string, z: string) {
    |files| >= 9 && Distinct(files) && files[7] == z && a != z && a !in files
  }

  /** Some files are shown as themselves, the others under a or, from the ninth on, under z. */
  function Nested(files: seq<string>, alone: set<string>, a: string, z: string): map<string, string>
    requires |files| >= 8
  {
    map f | f in files :: if f in alone then f else if f in files[..8] then a else z
  }

  lemma NestedValues(files: seq<string>, alone: set<string>, a: string, z: string, i: nat, j: nat)
    requires NestedCase(files, a, z) && (forall f :: f in alone ==> f in files)
    requires i < 8 && files[i] !in alone && 8 <= j < |files| && (z in alone || files[j] !in alone)
    ensures Values(Nested(files, alone, a, z)) == alone + {a, z}
  {
    var targets := Nested(files, alone, a, z);
    assert files[i] in files[..8] && files[j] !in files[..8];
    forall y | y in alone + {a, z} ensures y in Values(targets) {
      if y in alone {
        assert targets[y] == y;
      } else if y == a {
        assert targets[files[i]] == y;
      } else {
        assert targets[files[j]] == y;
      }
    }
  }

  lemma NestedMore(files: seq<string>, alone: set<string>, a: string, z: string, x: string)
    requires |files| >= 8 && x in files
    ensures Nested(files, alone, a, z)[x := x] == Nested(files, alone + {x}, a, z)
  {
  }

  /** One more file of the first eight: a and z are still shown, besides the files alone. */
  lemma {:induction false} SixOfEight(files: seq<string>, a: string, z: string, i: nat)
    requires NestedCase(files, a, z) && i <= 6
    ensures Promotion(files[..i], Nested(files, {}, a, z)) == Nested(files, Front(files, i), a, z)
    ensures |Front(files, i) + {a, z}| == i + 2 && Values(Nested(files, Front(files, i), a, z)) == Front(files, i) + {a, z}
  {
    hide Values, Nested, Promotion;
    FrontSize(files, i);
    NotInFront(files, i, 7);
    NotInFront(files, i, 8);
    NestedValues(files, Front(files, i), a, z, 7, 8);
    TwoMore(Front(files, i), a, z);
    if i > 0 {
      SixOfEight(files, a, z, i - 1);
      PromotionSnoc(files, Nested(files, {}, a, z), i - 1);
      NestedMore(files, Front(files, i - 1), a, z, files[i - 1]);
    } else {
      assert files[..0] == [];
      NothingPromoted(Nested(files, {}, a, z));
    }
  }

  lemma NothingPromoted(targets: map<string, string>)
    ensures Promotion([], targets) == targets
  {
  }

  lemma TwoMore<T>(s: set<T>, y: T, z: T)
    requires y !in s && z !in s && y != z
    ensures |s + {y, z}| == |s| + 2
  {
    assert |s + {y}| == |s| + 1 && s + {y, z} == s + {y} + {z};
  }

  /** The seventh file is refused, z takes a place that is already there, and everything after it is refused. */
  lemma SeventhRefused(files: seq<string>, a: string, z: string)
    requires NestedCase(files, a, z)
    ensures Promotion(files[..7], Nested(files, {}, a, z)) == Nested(files, Front(files, 6), a, z)
  {
    hide Values, Nested, Promotion;
    SixOfEight(files, a, z, 6);
    PromotionSnoc(files, Nested(files, {}, a, z), 6);
    NestedMore(files, Front(files, 6), a, z, files[6]);
    var seven := Front(files, 6) + {files[6]};
    FrontSize(files, 7);
    NotInFront(files, 7, 7);
    NotInFront(files, 7, 8);
    assert seven == Front(files, 7);
    NestedValues(files, seven, a, z, 7, 8);
    TwoMore(seven, a, z);
  }

  lemma ZPromoted(files: seq<string>, a: string, z: string)
    requires NestedCase(files, a, z)
    ensures Promotion(files[..8], Nested(files, {}, a, z)) == Nested(files, Front(files, 6) + {z}, a, z)
    ensures |Values(Nested(files, Front(files, 6) + {z}, a, z))| == 8
  {
    hide Values, Nested, Promotion;
    var six := Front(files, 6);
    SeventhRefused(files, a, z);
    PromotionSnoc(files, Nested(files, {}, a, z), 7);
    NestedMore(files, six, a, z, z);
    FrontSize(files, 6);
    NotInFront(files, 6, 6);
    NotInFront(files, 6, 7);
    NestedValues(files, six + {z}, a, z, 6, 8);
    TwoMore(six, a, z);
    assert six + {z} + {a, z} == six + {a, z};
  }

  lemma {:induction false} RestRefused(files: seq<string>, a: string, z: string, i: nat)
    requires NestedCase(files, a, z) && 8 <= i <= |files|
    ensures Promotion(files[..i], Nested(files, {}, a, z)) == Nested(files, Front(files, 6) + {z}, a, z)
  {
    hide Values, Nested, Promotion, Front;
    if i == 8 {
      ZPromoted(files, a, z);
    } else {
      RestRefused(files, a, z, i - 1);
      OneRefused(files, a, z, i - 1);
      PromotionSnoc(files, Nested(files, {}, a, z), i - 1);
      NestedMore(files, Front(files, 6) + {z}, a, z, files[i - 1]);
    }
  }

  lemma OneRefused(files: seq<string>, a: string, z: string, i: nat)
    requires NestedCase(files, a, z) && 8 <= i < |files|
    ensures |Values(Nested(files, Front(files, 6) + {z} + {files[i]}, a, z))| == 9
  {
    hide Values, Nested, Promotion, Front;
    var six := Front(files, 6);
    FrontSize(files, 6);
    NotInFront(files, 6, 6);
    NotInFront(files, 6, 7);
    NotInFront(files, 6, i);
    NestedValues(files, six + {z} + {files[i]}, a, z, 6, i);
    assert six + {z} + {files[i]} + {a, z} == six + {files[i]} + {a, z};
    ThreeMore(six, files[i], a, z);
  }

  /** Eight targets are shown in the end, and the seventh file is the only one left under a: its promotion would cost nothing. */
  lemma NestedIsNotMaximal(files: seq<string>, a: string, z: string)
    requires NestedCase(files, a, z)
    ensures var shown := Promotion(files, Nested(files, {}, a, z));
            && |Values(shown)| == 8 && files[6] in shown && shown[files[6]] == a
            && (forall f :: f in files && f != files[6] ==> f in shown && shown[f] != a)
            && !Maximal(files, files, shown)
  {
    hide Values, Promotion;
    RestRefused(files, a, z, |files|);
    assert files[..|files|] == files;
    ZPromoted(files, a, z);
    var shown := Nested(files, Front(files, 6) + {z}, a, z);
    NotInFront(files, 6, 6);
    assert files[6] in files[..8] && shown[files[6]] == a;
    forall f | f in files && f != files[6] ensures shown[f] != a {
      if f in files[..8] {
        var j :| 0 <= j < 8 && files[j] == f;
        if j < 6 {
          InFront(files, 6, j);
        }
      }
    }
    assert !Blocked(files, shown, files[6]);
  }

  lemma {:induction false} InFront(files: seq<string>, i: nat, j: nat)
    requires j < i <= |files|
    ensures files[j] in Front(files, i)
  {
    if j < i - 1 {
      InFront(files, i - 1, j);
    }
  }

  // ----- ordinary paths of that kind, of any number -----

  function Ones(n: nat): string {
    if n == 0 then "" else "1" + Ones(n - 1)
  }

  /** /a/1 to /a/7, /a/z, /a/z/1, /a/z/11, ... */
  function NestedName(i: nat): string {
    if i < 7 then ['1' + i as char] else if i == 7 then "z" else "z/" + Ones(i - 7)
  }

  function NestedFile(i: nat): string {
    "/a/" + NestedName(i)
  }

  function NestedFiles(n: nat): (files: seq<string>)
    ensures |files| == n
  {
    seq(n, i requires 0 <= i < n => NestedFile(i))
  }

  const NESTED_DIRECTORIES: seq<string> := ["/a", "/a/z"]

  lemma {:induction false} OnesAre(n: nat)
    ensures |Ones(n)| == n && forall i :: 0 <= i < n ==> Ones(n)[i] == '1'
  {
    if n > 0 {
      OnesAre(n - 1);
    }
  }

  lemma {:induction false} OnesBefore(m: nat, n: nat)
    requires m <= n
    ensures Before(Ones(m), Ones(n))
  {
    if m > 0 {
      OnesBefore(m - 1, n - 1);
      assert Ones(m)[1..] == Ones(m - 1) && Ones(n)[1..] == Ones(n - 1);
    }
  }

  lemma NestedFileParent(i: nat)
    ensures ParentDirectory(NestedFile(i)) == (if i < 8 then "/a" else "/a/z") && NestedFile(i) != "/a"
  {
    hide ParentDirectory;
    if i < 8 {
      ParentOfChild("/a", NestedName(i));
      assert NestedFile(i) == "/a" + "/" + NestedName(i);
    } else {
      OnesAre(i - 7);
      ParentOfChild("/a/z", Ones(i - 7));
      assert NestedFile(i) == "/a/z" + "/" + Ones(i - 7);
    }
  }

  lemma NestedFilesSorted(i: nat, j: nat)
    requires i < j
    ensures Before(NestedFile(i), NestedFile(j)) && NestedFile(i) != NestedFile(j)
  {
    BeforeAfterPrefix("/a/", NestedName(i), NestedName(j));
    assert NestedFile(i)[3..] == NestedName(i) && NestedFile(j)[3..] == NestedName(j);
    if i == 7 {
      OnesAre(j - 7);
      BeforeAfterPrefix("z", "", "/" + Ones(j - 7));
      assert "z" + "" == "z" && "z" + ("/" + Ones(j - 7)) == NestedName(j);
      assert |NestedName(i)| != |NestedName(j)|;
    } else if i > 7 {
      OnesAre(i - 7);
      OnesAre(j - 7);
      OnesBefore(i - 7, j - 7);
      BeforeAfterPrefix("z/", Ones(i - 7), Ones(j - 7));
      assert |NestedName(i)| != |NestedName(j)|;
    } else {
      assert NestedName(i)[0] < NestedName(j)[0];
    }
  }

  // ----- the threshold -----

  /** The distinct files of a group, their parent directories, and where lifting them stops, with fewer than eight left. */
  ghost predicate IsGroup(files: seq<string>, directories: seq<string>, k: nat) {
    && Distinct(files) && StopsAt(directories, k) && |Lifted(directories, k)| < 8
    && (forall f :: f in files ==> ParentDirectory(f) in directories)
    && (forall d :: d in directories ==> exists f :: f in files && ParentDirectory(f) == d)
  }

  /** No further file of the group could be promoted. */
  ghost predicate PromotesMaximally(files: seq<string>, directories: seq<string>, k: nat)
    requires IsGroup(files, directories, k)
  {
    Maximal(files, files, Promotion(Sort(files), DirectoryTargets(files, LiftMap(directories, k))))
  }

  lemma FilesAllShown(files: seq<string>, current: map<string, string>)
    requires Distinct(files) && |files| <= 8 && forall f :: f in files ==> ParentDirectory(f) in current
    ensures var targets := Promotion(Sort(files), DirectoryTargets(files, current));
            forall f :: f in files ==> f in targets && targets[f] == f
  {
    var start := DirectoryTargets(files, current);
    hide ParentDirectory, Values, Promotion, Sort;
    SortIsPermutation(files, current);
    AllPromoted(Sort(files), start, |files|);
    assert Sort(files)[..|files|] == Sort(files);
    forall f | f in files ensures Promotion(Sort(files), start)[f] == f {
      assert f in Sort(files);
    }
  }

  lemma SmallGroupsPromoteMaximally(files: seq<string>, directories: seq<string>, k: nat)
    requires IsGroup(files, directories, k) && |files| <= 8
    ensures PromotesMaximally(files, directories, k)
  {
    hide ParentDirectory, StopsAt, Values, Promotion, Sort, Lifted;
    FilesAllShown(files, LiftMap(directories, k));
  }

  lemma NestedFilesInOrder(n: nat)
    ensures Distinct(NestedFiles(n)) && Sort(NestedFiles(n)) == NestedFiles(n)
  {
    var files := NestedFiles(n);
    hide Before, NestedFile, Sort;
    forall i, j | 0 <= i < j < n ensures Before(files[i], files[j]) && files[i] != files[j] {
      NestedFilesSorted(i, j);
    }
    SortedStays(files);
  }

  lemma NestedFilesCollide(n: nat)
    requires n >= 9
    ensures NestedCase(NestedFiles(n), "/a", "/a/z")
  {
    var files := NestedFiles(n);
    NestedFilesInOrder(n);
    EighthFile();
    hide Distinct, NestedFile, ParentDirectory;
    forall f | f in files ensures f != "/a" {
      var i :| 0 <= i < n && files[i] == f;
      NestedFileParent(i);
    }
  }

  lemma EighthFile()
    ensures NestedFile(7) == "/a/z" && "/a" != "/a/z"
  {
    assert NestedName(7) == "z" && "/a/" + "z" == "/a/z";
    assert |"/a"| != |"/a/z"|;
  }

  lemma NestedParents(n: nat, f: string)
    requires n >= 9 && f in NestedFiles(n)
    ensures ParentDirectory(f) == if f in NestedFiles(n)[..8] then "/a" else "/a/z"
  {
    var files := NestedFiles(n);
    NestedFilesInOrder(n);
    hide NestedFile, ParentDirectory;
    var i :| 0 <= i < n && files[i] == f;
    NestedFileParent(i);
    assert files[..8][..] == files[..8] && (i < 8 ==> files[..8][i] == f);
    if f in files[..8] {
      var j :| 0 <= j < 8 && files[..8][j] == f;
      assert files[j] == files[i];
    }
  }

  lemma NestedFilesAreAGroup(n: nat)
    requires n >= 9
    ensures IsGroup(NestedFiles(n), NESTED_DIRECTORIES, 0)
  {
    var files := NestedFiles(n);
    NestedFilesInOrder(n);
    NestedDirectoriesStay();
    hide Distinct, NestedFile, ParentDirectory, StopsAt, Lifted;
    forall f | f in files ensures ParentDirectory(f) in NESTED_DIRECTORIES {
      NestedParents(n, f);
      assert NESTED_DIRECTORIES[0] == "/a" && NESTED_DIRECTORIES[1] == "/a/z";
    }
    NestedFileParent(0);
    NestedFileParent(8);
    assert files[0] in files && files[8] in files;
  }

  lemma NestedTargets(n: nat)
    requires n >= 9 && IsGroup(NestedFiles(n), NESTED_DIRECTORIES, 0)
    ensures DirectoryTargets(NestedFiles(n), LiftMap(NESTED_DIRECTORIES, 0)) == Nested(NestedFiles(n), {}, "/a", "/a/z")
  {
    var files, current := NestedFiles(n), LiftMap(NESTED_DIRECTORIES, 0);
    hide Distinct, NestedFile, NestedFiles, ParentDirectory, StopsAt, Lifted;
    StartsUnlifted();
    forall f | f in files ensures DirectoryTarget(current, f) == if f in files[..8] then "/a" else "/a/z" {
      NestedParents(n, f);
    }
    hide LiftMap, DirectoryTarget;
  }

  lemma StartsUnlifted()
    ensures forall d :: d in NESTED_DIRECTORIES ==> LiftMap(NESTED_DIRECTORIES, 0)[d] == d
  {
  }

  lemma NestedDirectoriesStay()
    ensures StopsAt(NESTED_DIRECTORIES, 0) && |Lifted(NESTED_DIRECTORIES, 0)| == 2
  {
    assert Lifted(NESTED_DIRECTORIES, 0) == {"/a", "/a/z"} by {
      assert NESTED_DIRECTORIES[0] in NESTED_DIRECTORIES && NESTED_DIRECTORIES[1] in NESTED_DIRECTORIES;
      assert LiftTimes(0, "/a") == "/a" && LiftTimes(0, "/a/z") == "/a/z";
    }
    assert |"/a"| != |"/a/z"|;
  }

  /** In the table: with at most eight files and fewer than eight directories left, every file is its own target. */
  lemma SmallGroupsShowEveryFile(table: Table, events: seq<Event>, process: string, eventType: string,
                                 directories: seq<string>, files: seq<string>, k: nat, file: string)
    requires ShowsGroup(table, events, process, eventType, directories, files, k)
    requires |files| <= 8 && |Lifted(directories, k)| < 8 && file in files
    ensures TargetKey(table, Group(process, eventType), file) == file
  {
    var g := Group(process, eventType);
    FewDirectoriesArePromoted(table, g, directories, files, k);
    hide *;
    FilesAllShown(files, LiftMap(directories, k));
    KeyOf(table, g, files, file);
  }

  lemma FewDirectoriesArePromoted(table: Table, g: Group, directories: seq<string>, files: seq<string>, k: nat)
    requires RolledUp(table, g, directories, files, k) && |Lifted(directories, k)| < 8
    ensures forall f :: f in files ==> ParentDirectory(f) in LiftMap(directories, k)
    ensures TargetKeys(table, g, files) == Promotion(Sort(files), DirectoryTargets(files, LiftMap(directories, k)))
  {
    hide ParentDirectory, StopsAt, Lifted, TargetKeys, Promotion, Sort;
  }

  lemma KeyOf(table: Table, g: Group, files: seq<string>, file: string)
    requires file in files
    ensures file in TargetKeys(table, g, files) && TargetKeys(table, g, files)[file] == TargetKey(table, g, file)
  {
  }

  /** Ordinary paths, nine or more of them: /a/1 to /a/7, /a/z, /a/z/1, ... is a group that misses a promotion. */
  lemma NestedFilesMissAPromotion(n: nat)
    requires n >= 9
    ensures IsGroup(NestedFiles(n), NESTED_DIRECTORIES, 0) && !PromotesMaximally(NestedFiles(n), NESTED_DIRECTORIES, 0)
  {
    hide Distinct, ParentDirectory, NestedFiles, StopsAt, Lifted, NestedCase, Nested, Promotion, Maximal, Sort, DirectoryTargets;
    NestedFilesAreAGroup(n);
    NestedFilesInOrder(n);
    NestedFilesCollide(n);
    NestedTargets(n);
    NestedIsNotMaximal(NestedFiles(n), "/a", "/a/z");
  }

  /** The exact threshold: promotion is maximal for all groups of n files iff n is at most eight. */
  lemma PromotionIsMaximalIff(n: nat)
    ensures (forall files, directories, k :: |files| == n && IsGroup(files, directories, k) ==> PromotesMaximally(files, directories, k))
            <==> n <= 8
  {
    hide IsGroup, PromotesMaximally;
    if n <= FILE_DETAIL_TARGET {
      forall files, directories, k | |files| == n && IsGroup(files, directories, k) ensures PromotesMaximally(files, directories, k) {
        SmallGroupsPromoteMaximally(files, directories, k);
      }
    } else {
      NestedFilesMissAPromotion(n);
    }
  }
}
