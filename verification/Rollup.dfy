/**
  The access graph of a process: its file accesses are rolled up into a bounded number of directories,
  and where that leaves few targets, single files are shown instead.
 */
module Rollup {
  import opened Basics
  import opened JsStrings
  import opened Paths

  const MAX_ACCESS_TARGETS: nat := 12
  const FILE_DETAIL_TARGET: nat := 8

  // ----- lifting a group of directories -----

  /** The distinct directories left after k rounds of lifting. */
  function Lifted(originals: seq<string>, k: nat): set<string> {
    set o | o in originals :: LiftTimes(k, o)
  }

  /**
    k rounds is where lifting stops: after any fewer there were more than twelve directories, and now
    there are at most twelve or none can climb further.
   */
  ghost predicate StopsAt(originals: seq<string>, k: nat) {
    && (forall j :: 0 <= j < k ==> |Lifted(originals, j)| > MAX_ACCESS_TARGETS)
    && (|Lifted(originals, k)| <= MAX_ACCESS_TARGETS || Stuck(originals, k))
  }

  /** No directory changes any more. */
  predicate Stuck(originals: seq<string>, k: nat) {
    forall o :: o in originals ==> LiftTimes(k + 1, o) == LiftTimes(k, o)
  }

  /** current sends every original to where k rounds of lifting bring it. */
  ghost predicate At(originals: seq<string>, current: map<string, string>, k: nat) {
    && (forall o :: o in current <==> o in originals)
    && (forall o :: o in originals ==> current[o] == LiftTimes(k, o))
  }

  function DepthSum(originals: seq<string>, k: nat): nat {
    if originals == [] then 0 else DepthSum(originals[..|originals| - 1], k) + Depth(LiftTimes(k, originals[|originals| - 1]))
  }

  /** The termination measure: unless nothing changes, a round of lifting lowers the sum of the depths. */
  lemma {:induction false} LiftingClimbs(originals: seq<string>, k: nat)
    requires forall o :: o in originals ==> Normal(o)
    ensures DepthSum(originals, k + 1) <= DepthSum(originals, k)
    ensures !Stuck(originals, k) ==> DepthSum(originals, k + 1) < DepthSum(originals, k)
  {
    if originals != [] {
      var init, last := originals[..|originals| - 1], originals[|originals| - 1];
      assert originals == init + [last];
      LiftingClimbs(init, k);
      LiftTimesIsNormal(k, last);
      LiftClimbs(LiftTimes(k, last));
    }
  }

  /** More lifting never tells more directories apart. */
  lemma LiftingMerges(originals: seq<string>, k: nat)
    ensures |Lifted(originals, k + 1)| <= |Lifted(originals, k)|
  {
    var a := Lifted(originals, k);
    assert Lifted(originals, k + 1) == set d | d in a :: Lift(d);
    ImageBound(a);
  }

  lemma {:induction false} ImageBound(a: set<string>)
    ensures |set d | d in a :: Lift(d)| <= |a|
  {
    if a != {} {
      var x :| x in a;
      ImageBound(a - {x});
      assert (set d | d in a :: Lift(d)) == (set d | d in a - {x} :: Lift(d)) + {Lift(x)};
    }
  }

  lemma LiftOnce(k: nat, original: string)
    ensures var directory := LiftTimes(k, original);
            var candidate := ParentDirectory(directory);
            LiftTimes(k + 1, original) == if directory != "/" && candidate == "/" then directory else candidate
  {
  }

  method LiftAll(originals: seq<string>, current: map<string, string>, ghost k: nat)
    returns (lifted: map<string, string>, changed: bool)
    requires At(originals, current, k)
    ensures At(originals, lifted, k + 1) && (changed <==> !Stuck(originals, k))
  {
    hide LiftTimes, Lift, ParentDirectory;
    lifted := current;
    changed := false;
    for i := 0 to |originals|
      invariant forall o :: o in lifted <==> o in originals
      invariant forall o :: o in originals ==> lifted[o] == LiftTimes(if o in originals[..i] then k + 1 else k, o)
      invariant changed <==> !Stuck(originals[..i], k)
    {
      var original := originals[i];
      assert originals[..i + 1] == originals[..i] + [original];
      var directory := current[original];
      var candidate := ParentDirectory(directory);
      var parent := if directory != "/" && candidate == "/" then directory else candidate;
      LiftOnce(k, original);
      if parent != directory {
        changed := true;
      }
      lifted := lifted[original := parent];
    }
    assert originals[..|originals|] == originals;
  }

  /** Map values as a set, as `new Set(map.values())`. */
  function Values<K>(m: map<K, string>): set<string> {
    set k | k in m :: m[k]
  }

  lemma StuckStays(originals: seq<string>, current: map<string, string>, lifted: map<string, string>, k: nat)
    requires At(originals, current, k) && At(originals, lifted, k + 1) && Stuck(originals, k)
    ensures lifted == current && Lifted(originals, k + 1) == Lifted(originals, k)
  {
    hide LiftTimes;
    forall o | o in originals ensures lifted[o] == current[o] {
      assert LiftTimes(k + 1, o) == LiftTimes(k, o);
    }
    AtImage(originals, current, k);
    AtImage(originals, lifted, k + 1);
  }

  function Identity(originals: seq<string>): (m: map<string, string>)
    ensures At(originals, m, 0)
  {
    map o | o in originals :: o
  }

  /** The lifting loop. */
  method LiftDirectories(originals: seq<string>) returns (current: map<string, string>)
    requires forall o :: o in originals ==> Normal(o)
    ensures exists k: nat :: At(originals, current, k) && StopsAt(originals, k)
  {
    hide At, Lifted, Values, Stuck, Depth, DepthSum;
    current := Identity(originals);
    ghost var k: nat := 0;
    var distinct := Values(current);
    AtImage(originals, current, 0);
    while |distinct| > MAX_ACCESS_TARGETS
      invariant At(originals, current, k) && distinct == Lifted(originals, k)
      invariant forall j :: 0 <= j < k ==> |Lifted(originals, j)| > MAX_ACCESS_TARGETS
      decreases DepthSum(originals, k)
    {
      var lifted, changed := LiftAll(originals, current, k);
      AtImage(originals, lifted, k + 1);
      distinct := Values(lifted);
      LiftingClimbs(originals, k);
      if !changed {
        StuckStays(originals, current, lifted, k);
        break;
      }
      current := lifted;
      k := k + 1;
    }
  }

  lemma AtImage(originals: seq<string>, current: map<string, string>, k: nat)
    requires At(originals, current, k)
    ensures Values(current) == Lifted(originals, k)
  {
  }

  // ----- promoting files -----

  /** The directory a file is shown under before any promotion. */
  function DirectoryTarget(current: map<string, string>, file: string): string
    requires ParentDirectory(file) in current
  {
    current[ParentDirectory(file)]
  }

  /** targets shows every file either as itself or under its directory, in at most eight targets. */
  ghost predicate Shown(files: seq<string>, current: map<string, string>, targets: map<string, string>) {
    && (forall f :: f in files ==> ParentDirectory(f) in current)
    && (forall f :: f in targets <==> f in files)
    && (forall f :: f in files ==> targets[f] == f || targets[f] == DirectoryTarget(current, f))
    && |Values(targets)| <= 8
  }

  /** No file is named like a directory that files are grouped under. */
  ghost predicate FilesAreNotTargets(files: seq<string>, current: map<string, string>)
    requires forall f :: f in files ==> ParentDirectory(f) in current
  {
    forall f, g :: f in files && g in files ==> f != DirectoryTarget(current, g)
  }

  /** The files are few, or none is named like a directory. */
  ghost predicate Promotable(files: seq<string>, current: map<string, string>)
    requires forall f :: f in files ==> ParentDirectory(f) in current
  {
    |files| <= 8 || FilesAreNotTargets(files, current)
  }

  /** f cannot be promoted: the targets are used up, and its directory would stay for another file. */
  ghost predicate Blocked(files: seq<string>, targets: map<string, string>, f: string) {
    && |Values(targets)| == 8 && f in targets
    && exists g :: g in files && g in targets && g != f && targets[g] != g && targets[g] == targets[f]
  }

  /** Each of the given files is shown as itself or blocked. */
  ghost predicate Maximal(some: seq<string>, files: seq<string>, targets: map<string, string>) {
    forall f :: f in some && f in targets && targets[f] != f ==> Blocked(files, targets, f)
  }

  lemma ValuesAfterUpdate(m: map<string, string>, x: string, v: string)
    requires x in m
    ensures Values(m[x := v]) <= Values(m) + {v} && Values(m) - {m[x]} + {v} <= Values(m[x := v])
    ensures m[x] in Values(m[x := v]) <==> v == m[x] || exists g :: g in m && g != x && m[g] == m[x]
    ensures |Values(m[x := v])| <= |Values(m)| + 1
  {
    var m' := m[x := v];
    forall y | y in Values(m) - {m[x]} + {v} ensures y in Values(m') {
      if y == v {
        assert m'[x] == y && x in m';
      } else {
        var g :| g in m && m[g] == y;
        assert g in m' && m'[g] == y;
      }
    }
    if m[x] in Values(m') && v != m[x] {
      var g :| g in m' && m'[g] == m[x];
      assert g in m && g != x && m[g] == m[x];
    }
    if g :| g in m && g != x && m[g] == m[x] {
      assert g in m' && m'[g] == m[x];
    }
    SubsetCount(Values(m'), Values(m) + {v});
  }

  /** A file not yet promoted is no target yet. */
  lemma FreshTarget(files: seq<string>, current: map<string, string>, targets: map<string, string>, x: string)
    requires Shown(files, current, targets) && FilesAreNotTargets(files, current)
    requires x in files && targets[x] == DirectoryTarget(current, x)
    ensures x !in Values(targets)
  {
  }

  /** Promoting x within the limit leaves every blocked file blocked. */
  lemma BlockedStays(files: seq<string>, current: map<string, string>, targets: map<string, string>, x: string, f: string)
    requires Shown(files, current, targets) && FilesAreNotTargets(files, current)
    requires x in files && targets[x] == DirectoryTarget(current, x) && f != x
    requires Blocked(files, targets, f) && |Values(targets[x := x])| <= FILE_DETAIL_TARGET
    ensures Blocked(files, targets[x := x], f)
  {
    var before, trial := Values(targets), targets[x := x];
    var g :| g in files && g in targets && g != f && targets[g] != g && targets[g] == targets[f];
    FreshTarget(files, current, targets, x);
    ValuesAfterUpdate(targets, x, x);
    assert targets[x] in before && |before + {x}| == |before| + 1 && |before - {targets[x]} + {x}| == |before|;
    if targets[x] in Values(trial) {
      SubsetCount(before + {x}, Values(trial));
      assert false;
    }
    SubsetCount(before - {targets[x]} + {x}, Values(trial));
    assert trial[g] == targets[g];
  }

  /** If promoting x overflows, the targets were used up and x's directory is kept by another file. */
  lemma OverflowBlocks(files: seq<string>, current: map<string, string>, targets: map<string, string>, x: string)
    requires Shown(files, current, targets) && FilesAreNotTargets(files, current)
    requires x in files && targets[x] == DirectoryTarget(current, x)
    requires |Values(targets[x := x])| > FILE_DETAIL_TARGET
    ensures Blocked(files, targets, x)
  {
    var before, trial := Values(targets), targets[x := x];
    FreshTarget(files, current, targets, x);
    ValuesAfterUpdate(targets, x, x);
    assert targets[x] in before && |before - {targets[x]} + {x}| == |before|;
    if targets[x] !in Values(trial) {
      SubsetCount(Values(trial), before - {targets[x]} + {x});
      assert false;
    }
    var g :| g in targets && g != x && targets[g] == targets[x];
  }

  lemma PromotionKeepsMaximal(files: seq<string>, current: map<string, string>, targets: map<string, string>, i: nat)
    requires i < |files| && Distinct(files) && Shown(files, current, targets) && FilesAreNotTargets(files, current)
    requires targets[files[i]] == DirectoryTarget(current, files[i]) && Maximal(files[..i], files, targets)
    ensures var trial := targets[files[i] := files[i]];
            Maximal(files[..i + 1], files, if |Values(trial)| > FILE_DETAIL_TARGET then targets else trial)
  {
    var x, trial := files[i], targets[files[i] := files[i]];
    assert files[..i + 1] == files[..i] + [x];
    if |Values(trial)| > FILE_DETAIL_TARGET {
      OverflowBlocks(files, current, targets, x);
    } else {
      forall f | f in files[..i + 1] && trial[f] != f ensures Blocked(files, trial, f) {
        assert f in files[..i];
        BlockedStays(files, current, targets, x, f);
      }
    }
  }

  lemma PromotionKeepsShown(files: seq<string>, current: map<string, string>, targets: map<string, string>, x: string)
    requires Shown(files, current, targets) && x in files
    ensures |Values(targets[x := x])| <= FILE_DETAIL_TARGET ==> Shown(files, current, targets[x := x])
  {
  }

  /** Each file in turn becomes its own target, if that leaves at most eight targets. */
  function Promotion(files: seq<string>, targets: map<string, string>): map<string, string> {
    if files == [] then targets
    else
      var earlier := Promotion(files[..|files| - 1], targets);
      var trial := earlier[files[|files| - 1] := files[|files| - 1]];
      if |Values(trial)| > FILE_DETAIL_TARGET then earlier else trial
  }

  /** The promotion loop. */
  method PromoteFiles(files: seq<string>, current: map<string, string>) returns (targets: map<string, string>)
    requires forall f :: f in files ==> ParentDirectory(f) in current
    ensures targets == Promotion(files, DirectoryTargets(files, current))
  {
    targets := DirectoryTargets(files, current);
    ghost var start := targets;
    hide Values, DirectoryTargets;
    for i := 0 to |files|
      invariant targets == Promotion(files[..i], start)
      invariant forall f :: f in files ==> f in targets
    {
      var file := files[i];
      assert files[..i + 1][..i] == files[..i];
      ghost var before := targets;
      var previous := targets[file];
      targets := targets[file := file];
      if |Values(targets)| > FILE_DETAIL_TARGET {
        targets := targets[file := previous];
        assert targets == before;
      }
    }
    assert files[..|files|] == files;
  }

  /**
    What promotion achieves when fewer than eight directories are left: at most eight targets are shown,
    and no further file could be promoted, if there are at most eight files or none of them is named like a
    directory that files are grouped under.
   */
  lemma PromotionIsMaximal(files: seq<string>, current: map<string, string>)
    requires Distinct(files) && forall f :: f in files ==> ParentDirectory(f) in current
    requires |Values(current)| < FILE_DETAIL_TARGET
    ensures var targets := Promotion(files, DirectoryTargets(files, current));
            Shown(files, current, targets) && (Promotable(files, current) ==> Maximal(files, files, targets))
  {
    assert files[..|files|] == files;
    FewTargets(files, current);
    PrefixIsMaximal(files, current, |files|);
    if |files| <= FILE_DETAIL_TARGET {
      AllPromoted(files, DirectoryTargets(files, current), |files|);
    }
  }

  /** i files have had their turn; the others are still shown under their directories. */
  ghost predicate Promoted(files: seq<string>, current: map<string, string>, targets: map<string, string>, i: nat)
    requires i <= |files|
  {
    && Shown(files, current, targets)
    && (forall j :: i <= j < |files| ==> targets[files[j]] == DirectoryTarget(current, files[j]))
    && (FilesAreNotTargets(files, current) ==> Maximal(files[..i], files, targets))
  }

  lemma PromoteNext(files: seq<string>, current: map<string, string>, targets: map<string, string>, i: nat)
    requires i < |files| && Distinct(files) && Promoted(files, current, targets, i)
    ensures var trial := targets[files[i] := files[i]];
            Promoted(files, current, if |Values(trial)| > FILE_DETAIL_TARGET then targets else trial, i + 1)
  {
    hide ParentDirectory, Values, Maximal, FilesAreNotTargets, DirectoryTarget;
    PromotionKeepsShown(files, current, targets, files[i]);
    if FilesAreNotTargets(files, current) {
      PromotionKeepsMaximal(files, current, targets, i);
    }
  }

  lemma {:induction false} PrefixIsMaximal(files: seq<string>, current: map<string, string>, i: nat)
    requires i <= |files| && Distinct(files) && forall f :: f in files ==> ParentDirectory(f) in current
    requires Shown(files, current, DirectoryTargets(files, current))
    ensures Promoted(files, current, Promotion(files[..i], DirectoryTargets(files, current)), i)
  {
    var start := DirectoryTargets(files, current);
    hide Promoted, Shown, Values, DirectoryTargets, ParentDirectory, Distinct;
    if i == 0 {
      NothingToDo(files, current, start);
    } else {
      hide Promotion;
      PrefixIsMaximal(files, current, i - 1);
      PromotionSnoc(files, start, i - 1);
      PromoteNext(files, current, Promotion(files[..i - 1], start), i - 1);
    }
  }

  lemma NothingToDo(files: seq<string>, current: map<string, string>, targets: map<string, string>)
    requires Shown(files, current, targets) && forall f :: f in files ==> targets[f] == DirectoryTarget(current, f)
    ensures Promoted(files, current, targets, 0)
  {
    hide ParentDirectory, Values;
  }

  function DirectoryTargets(files: seq<string>, current: map<string, string>): (targets: map<string, string>)
    requires forall f :: f in files ==> ParentDirectory(f) in current
    ensures forall f :: f in targets <==> f in files
    ensures forall f :: f in files ==> targets[f] == DirectoryTarget(current, f)
  {
    map f | f in files :: DirectoryTarget(current, f)
  }

  lemma FewTargets(files: seq<string>, current: map<string, string>)
    requires forall f :: f in files ==> ParentDirectory(f) in current
    requires |Values(current)| < FILE_DETAIL_TARGET
    ensures Shown(files, current, DirectoryTargets(files, current))
  {
    hide ParentDirectory;
    var targets := DirectoryTargets(files, current);
    assert Values(targets) <= Values(current);
    SubsetCount(Values(targets), Values(current));
  }

  /** With at most eight files every one of them is promoted, whatever their names. */
  lemma {:induction false} AllPromoted(files: seq<string>, start: map<string, string>, i: nat)
    requires i <= |files| <= FILE_DETAIL_TARGET && forall f :: f in start <==> f in files
    ensures var targets := Promotion(files[..i], start);
            (forall f :: f in targets <==> f in files) && forall j :: 0 <= j < i ==> targets[files[j]] == files[j]
  {
    if i > 0 {
      AllPromoted(files, start, i - 1);
      hide Values;
      var earlier := Promotion(files[..i - 1], start);
      PromotionSnoc(files, start, i - 1);
      ImagesCount(files, earlier[files[i - 1] := files[i - 1]]);
    }
  }

  function Images(files: seq<string>, m: map<string, string>): set<string>
    requires forall f :: f in files ==> f in m
  {
    if files == [] then {} else Images(files[..|files| - 1], m) + {m[files[|files| - 1]]}
  }

  lemma {:induction false} ImagesAre(files: seq<string>, m: map<string, string>)
    requires forall f :: f in files ==> f in m
    ensures |Images(files, m)| <= |files| && forall f :: f in files ==> m[f] in Images(files, m)
  {
    if files != [] {
      var init, last := files[..|files| - 1], files[|files| - 1];
      assert files == init + [last];
      ImagesAre(init, m);
    }
  }

  lemma ImagesCount(files: seq<string>, m: map<string, string>)
    requires forall f :: f in m <==> f in files
    ensures |Values(m)| <= |files|
  {
    ImagesAre(files, m);
    SubsetCount(Values(m), Images(files, m));
  }

  lemma PromotionSnoc(files: seq<string>, start: map<string, string>, i: nat)
    requires i < |files|
    ensures var earlier := Promotion(files[..i], start);
            var trial := earlier[files[i] := files[i]];
            Promotion(files[..i + 1], start) == if |Values(trial)| > FILE_DETAIL_TARGET then earlier else trial
  {
    assert files[..i + 1][..i] == files[..i];
  }

  // ----- groups of accesses -----

  /** An event as the rollup sees it; process is the key of its process identity. */
  datatype Event = Event(eventType: string, process: string, path: string, file: string)

  datatype Group = Group(process: string, eventType: string)

  predicate IsAccess(e: Event) {
    e.eventType == "RO" || e.eventType == "RW"
  }

  function GroupOf(e: Event): Group {
    Group(e.process, e.eventType)
  }

  /** event.path || event.file || 'unknown file' */
  function FileOf(e: Event): string {
    if e.path != "" then e.path else if e.file != "" then e.file else "unknown file"
  }

  /** Set.prototype.add on the insertion order of a set. */
  function AddNew<T(==)>(s: seq<T>, x: T): seq<T> {
    if x in s then s else s + [x]
  }

  function FilesOf(events: seq<Event>, g: Group): seq<string> {
    if events == [] then []
    else
      var init, e := FilesOf(events[..|events| - 1], g), events[|events| - 1];
      if IsAccess(e) && GroupOf(e) == g then AddNew(init, FileOf(e)) else init
  }

  function DirectoriesOf(events: seq<Event>, g: Group): seq<string> {
    if events == [] then []
    else
      var init, e := DirectoriesOf(events[..|events| - 1], g), events[|events| - 1];
      if IsAccess(e) && GroupOf(e) == g then AddNew(init, ParentDirectory(FileOf(e))) else init
  }

  function GroupsOf(events: seq<Event>): seq<Group> {
    if events == [] then []
    else
      var init, e := GroupsOf(events[..|events| - 1]), events[|events| - 1];
      if IsAccess(e) then AddNew(init, GroupOf(e)) else init
  }

  /** A group's directories are the parents of its files; each is listed once. */
  lemma {:induction false} DirectoriesAreParents(events: seq<Event>, g: Group)
    ensures Distinct(FilesOf(events, g))
    ensures forall f :: f in FilesOf(events, g) ==> ParentDirectory(f) in DirectoriesOf(events, g)
    ensures forall d :: d in DirectoriesOf(events, g) ==> exists f :: f in FilesOf(events, g) && ParentDirectory(f) == d
  {
    if events != [] {
      var init, e := events[..|events| - 1], events[|events| - 1];
      DirectoriesAreParents(init, g);
      if IsAccess(e) && GroupOf(e) == g {
        assert FileOf(e) in FilesOf(events, g);
        assert ParentDirectory(FileOf(e)) in DirectoriesOf(events, g);
        assert forall f :: f in FilesOf(init, g) ==> f in FilesOf(events, g);
      }
    }
  }

  /** e is a read (RO) or a write (RW) of the file by the process: its path, or else its file, or else a stand-in. */
  predicate Accesses(e: Event, process: string, eventType: string, file: string) {
    && (e.eventType == "RO" || e.eventType == "RW") && e.eventType == eventType && e.process == process
    && (if e.path != "" then file == e.path else if e.file != "" then file == e.file else file == "unknown file")
  }

  /** The files of a group are exactly those its process is recorded to have read, or written, as the type says. */
  lemma {:induction false} FilesAreAccessed(events: seq<Event>, process: string, eventType: string, file: string)
    ensures file in FilesOf(events, Group(process, eventType)) <==> exists e :: e in events && Accesses(e, process, eventType, file)
  {
    if events != [] {
      var init, last := events[..|events| - 1], events[|events| - 1];
      assert events == init + [last];
      FilesAreAccessed(init, process, eventType, file);
      assert Accesses(last, process, eventType, file)
        <==> IsAccess(last) && GroupOf(last) == Group(process, eventType) && FileOf(last) == file;
      assert forall e :: e in events <==> e in init || e == last;
    }
  }

  lemma {:induction false} GroupsAreAccessed(events: seq<Event>, g: Group)
    ensures g in GroupsOf(events) <==> FilesOf(events, g) != []
  {
    if events != [] {
      GroupsAreAccessed(events[..|events| - 1], g);
    }
  }

  lemma {:induction false} AccessIsGrouped(events: seq<Event>, e: Event)
    requires e in events && IsAccess(e)
    ensures GroupOf(e) in GroupsOf(events) && FileOf(e) in FilesOf(events, GroupOf(e))
  {
    var init, last := events[..|events| - 1], events[|events| - 1];
    if e in init {
      AccessIsGrouped(init, e);
    } else {
      assert e == last;
    }
  }

  function Listed(m: map<Group, seq<string>>, g: Group): seq<string> {
    if g in m then m[g] else []
  }

  /** Make sure the group has a set, then add x to it. */
  function AddListed(m: map<Group, seq<string>>, g: Group, x: string): (m': map<Group, seq<string>>)
    ensures forall h :: h in m' <==> h in m || h == g
    ensures forall h :: Listed(m', h) == if h == g then AddNew(Listed(m, g), x) else Listed(m, h)
  {
    var entered := if g in m then m else m[g := []];
    entered[g := AddNew(entered[g], x)]
  }

  lemma NoAccesses(events: seq<Event>)
    ensures GroupsOf(events[..0]) == [] && forall g :: FilesOf(events[..0], g) == [] && DirectoriesOf(events[..0], g) == []
  {
  }

  lemma AccessesSnoc(events: seq<Event>, i: nat)
    requires i < |events|
    ensures var e := events[i];
            && GroupsOf(events[..i + 1]) == (if IsAccess(e) then AddNew(GroupsOf(events[..i]), GroupOf(e)) else GroupsOf(events[..i]))
            && forall g ::
                 && FilesOf(events[..i + 1], g) == (if IsAccess(e) && GroupOf(e) == g then AddNew(FilesOf(events[..i], g), FileOf(e))
                                                    else FilesOf(events[..i], g))
                 && DirectoriesOf(events[..i + 1], g) == (if IsAccess(e) && GroupOf(e) == g
                                                          then AddNew(DirectoriesOf(events[..i], g), ParentDirectory(FileOf(e)))
                                                          else DirectoriesOf(events[..i], g))
  {
    assert events[..i + 1][..i] == events[..i];
  }

  method GroupAccesses(events: seq<Event>)
    returns (groups: seq<Group>, directoriesByGroup: map<Group, seq<string>>, filesByGroup: map<Group, seq<string>>)
    ensures groups == GroupsOf(events)
    ensures forall g :: g in groups <==> g in directoriesByGroup
    ensures forall g :: g in groups <==> g in filesByGroup
    ensures forall g :: g in groups ==> directoriesByGroup[g] == DirectoriesOf(events, g) && filesByGroup[g] == FilesOf(events, g)
  {
    groups, directoriesByGroup, filesByGroup := [], map[], map[];
    hide ParentDirectory, FileOf, GroupsOf, FilesOf, DirectoriesOf, AddListed, IsAccess;
    NoAccesses(events);
    for i := 0 to |events|
      invariant groups == GroupsOf(events[..i])
      invariant forall g :: g in groups <==> g in directoriesByGroup
      invariant forall g :: g in groups <==> g in filesByGroup
      invariant forall g :: Listed(directoriesByGroup, g) == DirectoriesOf(events[..i], g)
      invariant forall g :: Listed(filesByGroup, g) == FilesOf(events[..i], g)
    {
      AccessesSnoc(events, i);
      var event := events[i];
      if IsAccess(event) {
        var group, file := GroupOf(event), FileOf(event);
        groups := AddNew(groups, group);
        directoriesByGroup := AddListed(directoriesByGroup, group, ParentDirectory(file));
        filesByGroup := AddListed(filesByGroup, group, file);
      }
    }
    assert events[..|events|] == events;
  }

  // ----- the rollup table -----

  datatype RollupKey =
    | DirectoryKey(group: Group, directory: string)
    | FileKey(group: Group, file: string)

  datatype Target = Target(directory: string, aggregated: bool)

  type Table = map<RollupKey, Target>

  predicate HasEntry(table: Table, g: Group, file: string) {
    FileKey(g, file) in table || DirectoryKey(g, ParentDirectory(file)) in table
  }

  /** graphTargetFor: the file's own entry, else its directory's, else the bare directory. */
  function TargetKey(table: Table, g: Group, file: string): string {
    if FileKey(g, file) in table then table[FileKey(g, file)].directory
    else if DirectoryKey(g, ParentDirectory(file)) in table then table[DirectoryKey(g, ParentDirectory(file))].directory
    else ParentDirectory(file)
  }

  function LiftMap(originals: seq<string>, k: nat): (m: map<string, string>)
    ensures At(originals, m, k)
  {
    map o | o in originals :: LiftTimes(k, o)
  }

  function TargetKeys(table: Table, g: Group, files: seq<string>): map<string, string> {
    map f | f in files :: TargetKey(table, g, f)
  }

  /**
    What the table makes of a group whose lifting stops after k rounds: every file has an entry and is
    shown under its lifted directory, or with fewer than eight directories as promotion in sorted order has it.
   */
  ghost predicate RolledUp(table: Table, g: Group, directories: seq<string>, files: seq<string>, k: nat) {
    var current, targets := LiftMap(directories, k), TargetKeys(table, g, files);
    && StopsAt(directories, k)
    && (forall f :: f in files ==> HasEntry(table, g, f) && ParentDirectory(f) in directories)
    && targets == if |Lifted(directories, k)| < FILE_DETAIL_TARGET then
                    Promotion(Sort(files), DirectoryTargets(files, current))
                  else DirectoryTargets(files, current)
  }

  /** The first number of rounds, if any, that leaves at most twelve directories. */
  lemma StopsAtTwelve(originals: seq<string>, k: nat)
    requires StopsAt(originals, k)
    ensures forall j :: 0 <= j < k ==> |Lifted(originals, j)| > 12
    ensures |Lifted(originals, k)| > 12 ==> forall o :: o in originals ==> Lift(LiftTimes(k, o)) == LiftTimes(k, o)
  {
    hide Lift;
  }

  /** With eight or more directories left no file is shown as itself. */
  lemma ManyDirectoriesShowNoFiles(table: Table, g: Group, directories: seq<string>, files: seq<string>, k: nat)
    requires RolledUp(table, g, directories, files, k) && |Lifted(directories, k)| >= 8
    ensures forall f :: f in files ==> TargetKey(table, g, f) == LiftTimes(k, ParentDirectory(f))
  {
    hide ParentDirectory, LiftTimes, StopsAt, Lifted, TargetKey;
    forall f | f in files ensures TargetKey(table, g, f) == LiftTimes(k, ParentDirectory(f)) {
      assert TargetKeys(table, g, files)[f] == TargetKey(table, g, f);
    }
  }

  /** With fewer than eight directories left, at most eight targets are shown and no promotion is missed. */
  lemma FewDirectoriesShowFiles(table: Table, g: Group, directories: seq<string>, files: seq<string>, k: nat)
    requires RolledUp(table, g, directories, files, k) && Distinct(files) && |Lifted(directories, k)| < 8
    ensures var current, targets := LiftMap(directories, k), TargetKeys(table, g, files);
            && (forall f :: f in files ==> ParentDirectory(f) in current)
            && Shown(files, current, targets) && |Values(targets)| <= 8
            && (Promotable(files, current) ==> Maximal(files, files, targets))
  {
    var current, sorted, targets := LiftMap(directories, k), Sort(files), TargetKeys(table, g, files);
    hide ParentDirectory, LiftTimes;
    AtImage(directories, current, k);
    SortIsPermutation(files, current);
    PromotionIsMaximal(sorted, current);
    hide *;
    MembersMatter(sorted, files, current, targets);
  }

  lemma MembersMatter(files: seq<string>, files': seq<string>, current: map<string, string>, targets: map<string, string>)
    requires (forall f :: f in files <==> f in files') && |files| == |files'| && Shown(files, current, targets)
    requires Promotable(files, current) ==> Maximal(files, files, targets)
    ensures Shown(files', current, targets)
    ensures Promotable(files', current) ==> Maximal(files', files', targets)
  {
    hide Values, ParentDirectory;
    if Promotable(files', current) {
      assert Promotable(files, current);
      forall f | f in files' && targets[f] != f ensures Blocked(files', targets, f) {
        assert Blocked(files, targets, f);
      }
    }
  }

  /** A group shows at most twelve targets, unless lifting ended with more directories than that. */
  lemma TargetsAreBounded(table: Table, g: Group, directories: seq<string>, files: seq<string>, k: nat)
    requires RolledUp(table, g, directories, files, k) && Distinct(files)
    ensures |Values(TargetKeys(table, g, files))| <= 12
            || (|Lifted(directories, k)| > 12 && Stuck(directories, k))
    ensures forall f :: f in files ==>
              var key := TargetKey(table, g, f);
              key == f || key == LiftTimes(k, ParentDirectory(f))
  {
    if |Lifted(directories, k)| >= FILE_DETAIL_TARGET {
      assert Values(TargetKeys(table, g, files)) <= Lifted(directories, k);
      SubsetCount(Values(TargetKeys(table, g, files)), Lifted(directories, k));
    } else {
      FewDirectoriesShowFiles(table, g, directories, files, k);
    }
  }

  /** Where lifting stops is fixed by the directories, as far as any of them can tell. */
  lemma StoppingPlaceIsUnique(originals: seq<string>, k: nat, k': nat)
    requires StopsAt(originals, k) && StopsAt(originals, k')
    ensures forall o :: o in originals ==> LiftTimes(k, o) == LiftTimes(k', o)
  {
    hide Lift;
    forall o | o in originals ensures LiftTimes(k, o) == LiftTimes(k', o) {
      if k < k' {
        StuckForGood(originals, k, k', o);
      } else if k' < k {
        StuckForGood(originals, k', k, o);
      }
    }
  }

  lemma {:induction false} StuckForGood(originals: seq<string>, k: nat, k': nat, original: string)
    requires k <= k' && Stuck(originals, k) && original in originals
    ensures LiftTimes(k', original) == LiftTimes(k, original)
  {
    hide Lift;
    if k < k' {
      StuckForGood(originals, k, k' - 1, original);
    }
  }

  /** The entries of a group: one for each of its directories, and some for its files. */
  ghost predicate EntriesAre(table: Table, g: Group, directories: seq<string>, files: seq<string>) {
    && (forall d :: DirectoryKey(g, d) in table <==> d in directories)
    && (forall f :: FileKey(g, f) in table ==> f in files)
  }

  /** The keys of other groups do not matter to a group. */
  lemma OtherGroupsDoNotMatter(table: Table, table': Table, g: Group, directories: seq<string>, files: seq<string>, k: nat)
    requires RolledUp(table, g, directories, files, k)
    requires forall key: RollupKey :: key.group == g ==> (key in table <==> key in table') && (key in table ==> table[key] == table'[key])
    ensures RolledUp(table', g, directories, files, k)
  {
    hide StopsAt, Promotion, Sort;
    assert TargetKeys(table, g, files) == TargetKeys(table', g, files);
  }

  // ----- building the table -----

  /** table' has these directory entries for g, these files of g on their own, and else is table. */
  ghost predicate Extends(table: Table, table': Table, g: Group, current: map<string, string>, alone: set<string>) {
    && (forall key: RollupKey :: key.group != g ==> (key in table' <==> key in table) && (key in table ==> table'[key] == table[key]))
    && (forall o :: DirectoryKey(g, o) in table' <==> o in current)
    && (forall o :: o in current ==> table'[DirectoryKey(g, o)] == Target(current[o], true))
    && (forall f :: FileKey(g, f) in table' <==> f in alone)
    && (forall f :: f in alone ==> table'[FileKey(g, f)] == Target(f, false))
  }

  method AddDirectories(table: Table, g: Group, originals: seq<string>, current: map<string, string>) returns (table': Table)
    requires forall o :: o in current <==> o in originals
    requires forall key :: key in table ==> key.group != g
    ensures Extends(table, table', g, current, {})
  {
    table' := table;
    for i := 0 to |originals|
      invariant forall key: RollupKey :: key.group != g ==> (key in table' <==> key in table) && (key in table ==> table'[key] == table[key])
      invariant forall o :: DirectoryKey(g, o) in table' <==> o in originals[..i]
      invariant forall o :: o in originals[..i] ==> table'[DirectoryKey(g, o)] == Target(current[o], true)
      invariant forall f :: FileKey(g, f) !in table'
    {
      assert originals[..i + 1] == originals[..i] + [originals[i]];
      table' := table'[DirectoryKey(g, originals[i]) := Target(current[originals[i]], true)];
    }
    assert originals[..|originals|] == originals;
  }

  method AddFiles(table: Table, g: Group, files: seq<string>, targets: map<string, string>, ghost before: Table,
                  ghost current: map<string, string>) returns (table': Table)
    requires (forall f :: f in targets <==> f in files) && Extends(before, table, g, current, {})
    ensures Extends(before, table', g, current, set f | f in targets && targets[f] == f)
  {
    table' := table;
    ghost var alone: set<string> := {};
    hide Extends;
    for i := 0 to |files|
      invariant Extends(before, table', g, current, alone)
      invariant forall f :: f in alone ==> f in targets && targets[f] == f
      invariant forall j :: 0 <= j < i && targets[files[j]] == files[j] ==> files[j] in alone
    {
      var file := files[i];
      if targets[file] == file {
        AddFile(before, table', g, current, alone, file);
        table' := table'[FileKey(g, file) := Target(file, false)];
        alone := alone + {file};
      }
    }
    assert alone == set f | f in targets && targets[f] == f;
  }

  lemma AddFile(before: Table, table: Table, g: Group, current: map<string, string>, alone: set<string>, file: string)
    requires Extends(before, table, g, current, alone)
    ensures Extends(before, table[FileKey(g, file) := Target(file, false)], g, current, alone + {file})
  {
  }

  lemma ExtensionRollsUp(before: Table, table: Table, g: Group, directories: seq<string>, files: seq<string>, k: nat,
                         current: map<string, string>, alone: set<string>)
    requires Extends(before, table, g, current, alone) && At(directories, current, k) && StopsAt(directories, k)
    requires forall f :: f in files ==> ParentDirectory(f) in directories
    requires forall f :: f in alone ==> f in files
    requires var targets := map f | f in files :: if f in alone then f else DirectoryTarget(current, f);
             if |Lifted(directories, k)| < FILE_DETAIL_TARGET then
               targets == Promotion(Sort(files), DirectoryTargets(files, current))
             else alone == {}
    ensures RolledUp(table, g, directories, files, k)
  {
    hide ParentDirectory, LiftTimes, Lifted, StopsAt, Promotion, Sort;
    assert LiftMap(directories, k) == current;
    ExtensionKeys(before, table, g, files, current, alone);
  }

  lemma ExtensionKeys(before: Table, table: Table, g: Group, files: seq<string>, current: map<string, string>, alone: set<string>)
    requires Extends(before, table, g, current, alone) && forall f :: f in files ==> ParentDirectory(f) in current
    ensures TargetKeys(table, g, files) == map f | f in files :: if f in alone then f else DirectoryTarget(current, f)
    ensures forall f :: f in files ==> HasEntry(table, g, f)
  {
    hide ParentDirectory;
    var targets := map f | f in files :: if f in alone then f else DirectoryTarget(current, f);
    forall f | f in files ensures TargetKey(table, g, f) == targets[f] && HasEntry(table, g, f) {
      assert FileKey(g, f) in table <==> f in alone;
      assert DirectoryKey(g, ParentDirectory(f)) in table;
    }
  }

  /** The loop body for one group of buildAccessDirectoryRollups. */
  method RollGroup(table: Table, g: Group, directories: seq<string>, files: seq<string>)
    returns (table': Table, ghost k: nat)
    requires Distinct(files) && forall d :: d in directories ==> Normal(d)
    requires forall f :: f in files ==> ParentDirectory(f) in directories
    requires forall key :: key in table ==> key.group != g
    ensures forall key: RollupKey :: key.group != g ==> (key in table' <==> key in table) && (key in table ==> table'[key] == table[key])
    ensures RolledUp(table', g, directories, files, k) && EntriesAre(table', g, directories, files)
  {
    hide ParentDirectory, LiftTimes, Lifted, StopsAt, Values, Promotion;
    var current := LiftDirectories(directories);
    k :| At(directories, current, k) && StopsAt(directories, k);
    AtImage(directories, current, k);
    var distinct := Values(current);
    table' := AddDirectories(table, g, directories, current);
    ghost var alone: set<string> := {};
    if |distinct| < FILE_DETAIL_TARGET {
      var sorted := Sort(files);
      SortIsPermutation(files, current);
      var targets := PromoteFiles(sorted, current);
      alone := set f | f in targets && targets[f] == f;
      SortedTargets(files, current, targets, alone);
      table' := AddFiles(table', g, sorted, targets, table, current);
    }
    ExtensionRollsUp(table, table', g, directories, files, k, current, alone);
    ExtensionEntries(table, table', g, directories, files, k, current, alone);
  }

  lemma ExtensionEntries(before: Table, table: Table, g: Group, directories: seq<string>, files: seq<string>, k: nat,
                         current: map<string, string>, alone: set<string>)
    requires Extends(before, table, g, current, alone) && At(directories, current, k) && forall f :: f in alone ==> f in files
    ensures EntriesAre(table, g, directories, files)
  {
  }

  lemma SortIsPermutation(files: seq<string>, current: map<string, string>)
    requires Distinct(files) && forall f :: f in files ==> ParentDirectory(f) in current
    ensures Distinct(Sort(files)) && |Sort(files)| == |files| && forall f :: f in Sort(files) <==> f in files
    ensures DirectoryTargets(Sort(files), current) == DirectoryTargets(files, current)
  {
    hide ParentDirectory;
    SortMembers(files);
    SortSorts(files);
    assert |multiset(Sort(files))| == |multiset(files)|;
  }

  lemma SortedTargets(files: seq<string>, current: map<string, string>, targets: map<string, string>, alone: set<string>)
    requires Distinct(files) && |Values(current)| < FILE_DETAIL_TARGET && forall f :: f in files ==> ParentDirectory(f) in current
    requires targets == Promotion(Sort(files), DirectoryTargets(files, current))
    requires alone == set f | f in targets && targets[f] == f
    ensures forall f :: f in targets <==> f in files
    ensures (map f | f in files :: if f in alone then f else DirectoryTarget(current, f)) == targets
  {
    hide Values, ParentDirectory, Promotion, Sort, DirectoryTargets, DirectoryTarget, FilesAreNotTargets, Maximal;
    SortIsPermutation(files, current);
    PromotionIsMaximal(Sort(files), current);
  }

  /** Every group of the events is rolled up. */
  ghost predicate Complete(table: Table, events: seq<Event>, groups: seq<Group>) {
    forall g :: g in groups ==> exists k :: RolledUp(table, g, DirectoriesOf(events, g), FilesOf(events, g), k)
  }

  /** Every group of the events has its entries, and no other group has any. */
  ghost predicate Filled(table: Table, events: seq<Event>, groups: seq<Group>) {
    && (forall key :: key in table ==> key.group in groups)
    && (forall g :: g in groups ==> EntriesAre(table, g, DirectoriesOf(events, g), FilesOf(events, g)))
  }

  method BuildAccessDirectoryRollups(events: seq<Event>) returns (table: Table)
    ensures Complete(table, events, GroupsOf(events)) && Filled(table, events, GroupsOf(events))
  {
    var groups, directoriesByGroup, filesByGroup := GroupAccesses(events);
    GroupsOnce(events);
    table := map[];
    hide RolledUp, DirectoriesOf, FilesOf, EntriesAre;
    for i := 0 to |groups|
      invariant Filled(table, events, groups[..i])
      invariant Complete(table, events, groups[..i])
    {
      var g := groups[i];
      assert g in groups && groups[..i + 1] == groups[..i] + [g];
      DirectoriesAreParents(events, g);
      DirectoriesAreNormal(events, g);
      ghost var before, k := table, 0;
      table, k := RollGroup(table, g, directoriesByGroup[g], filesByGroup[g]);
      StillComplete(before, table, events, groups[..i], g);
      StillFilled(before, table, events, groups[..i], g);
    }
    assert groups[..|groups|] == groups;
  }

  lemma StillFilled(before: Table, table: Table, events: seq<Event>, groups: seq<Group>, g: Group)
    requires Filled(before, events, groups) && g !in groups
    requires EntriesAre(table, g, DirectoriesOf(events, g), FilesOf(events, g))
    requires forall key: RollupKey :: key.group != g ==> (key in table <==> key in before)
    ensures Filled(table, events, groups + [g])
  {
    hide DirectoriesOf, FilesOf;
  }

  lemma DirectoriesAreNormal(events: seq<Event>, g: Group)
    ensures forall d :: d in DirectoriesOf(events, g) ==> Normal(d)
  {
    DirectoriesAreParents(events, g);
    hide ParentDirectory, Normal;
    forall d | d in DirectoriesOf(events, g) ensures Normal(d) {
      var f :| f in FilesOf(events, g) && ParentDirectory(f) == d;
      ParentIsNormal(f);
    }
  }

  lemma {:induction false} GroupsOnce(events: seq<Event>)
    ensures forall i, j :: 0 <= i < j < |GroupsOf(events)| ==> GroupsOf(events)[i] != GroupsOf(events)[j]
  {
    if events != [] {
      GroupsOnce(events[..|events| - 1]);
    }
  }

  lemma StillComplete(before: Table, table: Table, events: seq<Event>, groups: seq<Group>, g: Group)
    requires Complete(before, events, groups) && g !in groups
    requires forall key: RollupKey :: key.group != g ==> (key in table <==> key in before) && (key in before ==> table[key] == before[key])
    ensures Complete(table, events, groups)
  {
    hide RolledUp, DirectoriesOf, FilesOf;
    forall h | h in groups ensures exists k :: RolledUp(table, h, DirectoriesOf(events, h), FilesOf(events, h), k) {
      var k :| RolledUp(before, h, DirectoriesOf(events, h), FilesOf(events, h), k);
      OtherGroupsDoNotMatter(before, table, h, DirectoriesOf(events, h), FilesOf(events, h), k);
    }
  }

  /** Completeness across the render: every read or write event finds an entry, so the fallback is never used. */
  lemma EveryAccessIsFound(table: Table, events: seq<Event>, e: Event, process: string, eventType: string, file: string)
    requires Complete(table, events, GroupsOf(events)) && e in events && Accesses(e, process, eventType, file)
    ensures FileKey(Group(process, eventType), file) in table || DirectoryKey(Group(process, eventType), ParentDirectory(file)) in table
    ensures exists directories, files, k :: ShowsGroup(table, events, process, eventType, directories, files, k) && file in files
  {
    var g := Group(process, eventType);
    hide ParentDirectory, RolledUp, HasEntry;
    FilesAreAccessed(events, process, eventType, file);
    GroupsAreAccessed(events, g);
    var k :| RolledUp(table, g, DirectoriesOf(events, g), FilesOf(events, g), k);
    ShownGroup(table, events, process, eventType, k);
    EntryOf(table, g, DirectoriesOf(events, g), FilesOf(events, g), k, file);
  }

  lemma EntryOf(table: Table, g: Group, directories: seq<string>, files: seq<string>, k: nat, file: string)
    requires RolledUp(table, g, directories, files, k) && file in files
    ensures FileKey(g, file) in table || DirectoryKey(g, ParentDirectory(file)) in table
  {
    hide ParentDirectory, StopsAt, Promotion;
  }

  /** The process's read files, or its written ones, each once, and their directories, are rolled up in the table. */
  ghost predicate ShowsGroup(table: Table, events: seq<Event>, process: string, eventType: string, directories: seq<string>,
                             files: seq<string>, k: nat) {
    && Distinct(files) && (forall f :: f in files <==> exists e :: e in events && Accesses(e, process, eventType, f))
    && (forall d :: d in directories <==> exists f :: f in files && ParentDirectory(f) == d)
    && RolledUp(table, Group(process, eventType), directories, files, k)
  }

  lemma ShownGroup(table: Table, events: seq<Event>, process: string, eventType: string, k: nat)
    requires var g := Group(process, eventType); RolledUp(table, g, DirectoriesOf(events, g), FilesOf(events, g), k)
    ensures var g := Group(process, eventType);
            ShowsGroup(table, events, process, eventType, DirectoriesOf(events, g), FilesOf(events, g), k)
  {
    var g := Group(process, eventType);
    hide ParentDirectory, RolledUp, Accesses, FilesOf, DirectoriesOf;
    DirectoriesAreParents(events, g);
    forall f ensures f in FilesOf(events, g) <==> exists e :: e in events && Accesses(e, process, eventType, f) {
      FilesAreAccessed(events, process, eventType, f);
    }
  }

  /** Conversely every entry comes from an access of its process and type: no other event contributes anything. */
  lemma EntriesComeFromAccesses(table: Table, events: seq<Event>, key: RollupKey) returns (e: Event, file: string)
    requires Filled(table, events, GroupsOf(events)) && key in table
    ensures e in events && Accesses(e, key.group.process, key.group.eventType, file)
    ensures match key case DirectoryKey(_, directory) => directory == ParentDirectory(file) case FileKey(_, f) => f == file
  {
    var g := key.group;
    hide ParentDirectory, Accesses, FilesOf, DirectoriesOf;
    DirectoriesAreParents(events, g);
    match key
    case DirectoryKey(_, directory) =>
      assert directory in DirectoriesOf(events, g);
      file :| file in FilesOf(events, g) && ParentDirectory(file) == directory;
      FilesAreAccessed(events, g.process, g.eventType, file);
      e :| e in events && Accesses(e, g.process, g.eventType, file);
    case FileKey(_, f) =>
      file := f;
      FilesAreAccessed(events, g.process, g.eventType, file);
      e :| e in events && Accesses(e, g.process, g.eventType, file);
  }
}
