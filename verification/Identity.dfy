/**
  Who a process is: the index from process ids to identities that the dashboard builds over the retained
  events, and the identity an event is shown under.
 */
module Identity {
  import opened JsStrings
  import opened Paths
  import opened AuditLine

  /** The fields identities depend on. A missing text field is empty, a missing process id 0. */
  datatype Event = Event(eventType: string, pid: nat, file: string, comm: string, args: string)

  /** `path:...`, `comm:...`, `command:...` or `pid:...` in the dashboard's keys. */
  datatype Identity = OfPath(path: string) | OfComm(comm: string) | OfCommand(command: string) | OfPid(pid: nat)

  // ----- scoring executables -----

  /** The first word. */
  function FirstWord(s: string): string {
    if s == "" || IsSpace(s[0]) then "" else [s[0]] + FirstWord(s[1..])
  }

  function CommandFromArgs(args: string): string {
    FirstWord(Trim(args))
  }

  function Basename(path: string): string {
    var normalized := TrimSlashes(path);
    normalized[LastIndexOf(normalized, '/') + 1..]
  }

  const SCORED_DIRECTORIES: seq<(string, int)> :=
    [("/usr/bin/", 50), ("/bin/", 45), ("/usr/local/bin/", 40), ("/usr/sbin/", 35), ("/sbin/", 30), ("/usr/local/sbin/", 25)]

  /** The first listed directory the file is in decides. */
  function DirectoryScore(file: string, directories: seq<(string, int)>): int {
    if directories == [] then 0
    else if directories[0].0 <= file then directories[0].1
    else DirectoryScore(file, directories[1..])
  }

  function ExecutablePathScore(e: Event): int {
    (if Basename(e.file) == Basename(CommandFromArgs(e.args)) then 10 else 0)
    + DirectoryScore(e.file, SCORED_DIRECTORIES)
    - (if "/tmp/" <= e.file then 20 else 0)
  }

  lemma {:induction false} DirectoryScoreIff(file: string, directories: seq<(string, int)>)
    requires forall d :: d in directories ==> 25 <= d.1 <= 50
    ensures DirectoryScore(file, directories) == 0 || 25 <= DirectoryScore(file, directories) <= 50
    ensures DirectoryScore(file, directories) == 0 <==> forall d :: d in directories ==> !(d.0 <= file)
  {
    if directories != [] {
      DirectoryScoreIff(file, directories[1..]);
      assert directories == [directories[0]] + directories[1..];
    }
  }

  // ----- what the score prefers -----

  /** The directories in order of preference; any other comes behind them, and /tmp last. */
  function DirectoryRank(file: string): nat {
    if "/usr/bin/" <= file then 0
    else if "/bin/" <= file then 1
    else if "/usr/local/bin/" <= file then 2
    else if "/usr/sbin/" <= file then 3
    else if "/sbin/" <= file then 4
    else if "/usr/local/sbin/" <= file then 5
    else if "/tmp/" <= file then 7
    else 6
  }

  /** The file has the name of the command it was run by. */
  predicate NamedByCommand(e: Event) {
    Basename(e.file) == Basename(CommandFromArgs(e.args))
  }

  /**
    When the score prefers a to b: with the command named by both files or by neither, the directory decides.
    The name makes up for one place among the system directories, and ties with two, but lifts nothing
    into the system directories nor out of /tmp.
   */
  predicate Preferred(a: Event, b: Event) {
    var p, q := DirectoryRank(a.file), DirectoryRank(b.file);
    if NamedByCommand(a) == NamedByCommand(b) then p < q
    else if NamedByCommand(a) then if p < 6 then p <= q + 1 else p <= q
    else if q < 6 then p + 2 < q else p < q
  }

  /** Two directories that differ in a letter hold no common file. */
  lemma PrefixesApart(p: string, q: string, file: string, i: nat)
    requires i < |p| && i < |q| && p[i] != q[i] && p <= file
    ensures !(q <= file)
  {
    assert file[i] == p[i];
  }

  lemma RankIsScore(file: string)
    ensures DirectoryScore(file, SCORED_DIRECTORIES) == if DirectoryRank(file) < 6 then 50 - 5 * DirectoryRank(file) else 0
  {
    var d := SCORED_DIRECTORIES;
    assert d[1..][1..] == d[2..] && d[2..][1..] == d[3..] && d[3..][1..] == d[4..] && d[4..][1..] == d[5..] && d[5..][1..] == [];
    assert DirectoryScore(file, []) == 0;
    assert DirectoryScore(file, d[5..]) == if "/usr/local/sbin/" <= file then 25 else 0;
    assert DirectoryScore(file, d[4..]) == if "/sbin/" <= file then 30 else DirectoryScore(file, d[5..]);
    assert DirectoryScore(file, d[3..]) == if "/usr/sbin/" <= file then 35 else DirectoryScore(file, d[4..]);
    assert DirectoryScore(file, d[2..]) == if "/usr/local/bin/" <= file then 40 else DirectoryScore(file, d[3..]);
    assert DirectoryScore(file, d[1..]) == if "/bin/" <= file then 45 else DirectoryScore(file, d[2..]);
  }

  lemma TmpIsNoSystemDirectory(file: string)
    ensures "/tmp/" <= file <==> DirectoryRank(file) == 7
  {
    if "/tmp/" <= file {
      PrefixesApart("/tmp/", "/usr/bin/", file, 1);
      PrefixesApart("/tmp/", "/bin/", file, 1);
      PrefixesApart("/tmp/", "/usr/local/bin/", file, 1);
      PrefixesApart("/tmp/", "/usr/sbin/", file, 1);
      PrefixesApart("/tmp/", "/sbin/", file, 1);
      PrefixesApart("/tmp/", "/usr/local/sbin/", file, 1);
    }
  }

  lemma ScoreByRank(e: Event)
    ensures var rank := DirectoryRank(e.file);
            ExecutablePathScore(e) == (if NamedByCommand(e) then 10 else 0)
                                      + if rank < 6 then 50 - 5 * rank else if rank == 7 then -20 else 0
    ensures DirectoryRank(e.file) <= 7
  {
    RankIsScore(e.file);
    TmpIsNoSystemDirectory(e.file);
    hide DirectoryScore, Basename, CommandFromArgs;
  }

  lemma ScorePrefersIff(a: Event, b: Event)
    ensures ExecutablePathScore(a) > ExecutablePathScore(b) <==> Preferred(a, b)
  {
    hide ExecutablePathScore, NamedByCommand, DirectoryRank;
    ScoreByRank(a);
    ScoreByRank(b);
  }

  /** The score tells the three classes of executables apart, whatever the command line says. */
  lemma ScoreTellsClasses(e: Event)
    ensures ExecutablePathScore(e) >= 25 <==> DirectoryRank(e.file) < 6
    ensures ExecutablePathScore(e) < 0 <==> "/tmp/" <= e.file
  {
    hide ExecutablePathScore, NamedByCommand, DirectoryRank;
    ScoreByRank(e);
    TmpIsNoSystemDirectory(e.file);
  }

  // ----- names and commands -----

  predicate IsWordOf(s: string) {
    s != "" && forall i :: 0 <= i < |s| ==> !IsSpace(s[i])
  }

  lemma {:induction false} FirstWordIs(word: string, rest: string)
    requires (forall i :: 0 <= i < |word| ==> !IsSpace(word[i])) && (rest == "" || IsSpace(rest[0]))
    ensures FirstWord(word + rest) == word
  {
    hide IsSpace;
    if word == "" {
      assert word + rest == rest;
    } else {
      FirstWordIs(word[1..], rest);
      assert (word + rest)[1..] == word[1..] + rest;
    }
  }

  lemma {:induction false} TrimEndReaches(word: string, rest: string)
    requires word != "" && !IsSpace(word[|word| - 1])
    ensures exists kept :: kept <= rest && TrimEnd(word + rest) == word + kept
  {
    hide IsSpace;
    if rest == "" {
      assert word + rest == word && word == word + "";
    } else if IsSpace(rest[|rest| - 1]) {
      var init := rest[..|rest| - 1];
      TrimEndReaches(word, init);
      assert (word + rest)[..|word + rest| - 1] == word + init;
    }
  }

  lemma NoCommand()
    ensures CommandFromArgs("") == ""
  {
  }

  /** The command is the first word of the arguments. */
  lemma CommandIs(word: string, rest: string)
    requires IsWordOf(word) && (rest == "" || IsSpace(rest[0]))
    ensures CommandFromArgs(word + rest) == word && CommandFromArgs("") == ""
  {
    assert TrimStart(word + rest) == word + rest;
    hide IsSpace, FirstWord, TrimStart, TrimEnd;
    TrimEndReaches(word, rest);
    var kept :| kept <= rest && TrimEnd(word + rest) == word + kept;
    FirstWordIs(word, kept);
    NoCommand();
  }

  /** The name of a file is what follows the last slash, not counting slashes at the end. */
  lemma BasenameIs(directory: string, name: string)
    requires name != "" && forall i :: 0 <= i < |name| ==> name[i] != '/'
    ensures Basename(directory + "/" + name) == name && Basename(name) == name
    ensures Basename(directory + "/" + name + "/") == name
  {
    var path := directory + "/" + name;
    assert path[|directory|] == '/' && forall i :: |directory| < i < |path| ==> path[i] == name[i - |directory| - 1];
    assert path[|path| - 1] == name[|name| - 1];
    assert LastIndexOf(path, '/') == |directory|;
    assert (path + "/")[..|path + "/"| - 1] == path;
    assert TrimSlashes(path) == path && TrimSlashes(path + "/") == path && TrimSlashes(name) == name;
    assert path[|directory| + 1..] == name && name[0..] == name;
  }

  // ----- the index, declaratively -----

  /** An execution record that names an executable of the process. */
  predicate IsExec(e: Event, pid: nat) {
    e.eventType == "EXEC" && e.pid == pid && e.file != ""
  }

  /** A record that names the activity of the process. */
  predicate IsNamed(e: Event, pid: nat) {
    e.pid == pid && e.comm != ""
  }

  /** Position i holds the best-scored execution of the process, the first of those with its score. */
  ghost predicate IsBest(events: seq<Event>, pid: nat, i: nat) {
    && i < |events| && IsExec(events[i], pid)
    && (forall j :: 0 <= j < |events| && IsExec(events[j], pid) ==>
          ExecutablePathScore(events[j]) <= ExecutablePathScore(events[i]) - if j < i then 1 else 0)
  }

  /** Position i holds the first name of the process. */
  ghost predicate IsFirstName(events: seq<Event>, pid: nat, i: nat) {
    && i < |events| && IsNamed(events[i], pid)
    && (forall j :: 0 <= j < i ==> !IsNamed(events[j], pid))
  }

  ghost predicate HasExec(events: seq<Event>, pid: nat) {
    pid != 0 && exists e :: e in events && IsExec(e, pid)
  }

  ghost predicate HasName(events: seq<Event>, pid: nat) {
    pid != 0 && exists e :: e in events && IsNamed(e, pid)
  }

  /** The identity a process has by the retained events: its best executable, or else its first name. */
  ghost predicate IsIdentity(events: seq<Event>, pid: nat, identity: Identity) {
    if HasExec(events, pid) then
      exists i: nat :: IsBest(events, pid, i) && identity == OfPath(events[i].file)
    else
      HasName(events, pid) && exists i: nat :: IsFirstName(events, pid, i) && identity == OfComm(events[i].comm)
  }

  type Index = map<nat, Identity>

  /** The index has an identity for exactly the processes with an execution or a name. */
  ghost predicate Indexes(events: seq<Event>, index: Index) {
    && (forall pid :: pid in index <==> HasExec(events, pid) || HasName(events, pid))
    && (forall pid :: pid in index ==> IsIdentity(events, pid, index[pid]))
  }

  /** There is only one such index: the retained events determine it. */
  lemma IndexIsUnique(events: seq<Event>, index: Index, index': Index)
    requires Indexes(events, index) && Indexes(events, index')
    ensures index == index'
  {
    hide IsIdentity, HasExec, HasName;
    assert index.Keys == index'.Keys;
    forall pid | pid in index ensures index[pid] == index'[pid] {
      assert IsIdentity(events, pid, index[pid]) && IsIdentity(events, pid, index'[pid]);
      IdentityIsUnique(events, pid, index[pid], index'[pid]);
    }
  }

  lemma IdentityIsUnique(events: seq<Event>, pid: nat, a: Identity, b: Identity)
    requires IsIdentity(events, pid, a) && IsIdentity(events, pid, b)
    ensures a == b
  {
    hide ExecutablePathScore;
    if HasExec(events, pid) {
      var i: nat :| IsBest(events, pid, i) && a == OfPath(events[i].file);
      var j: nat :| IsBest(events, pid, j) && b == OfPath(events[j].file);
      assert i == j;
    } else {
      var i: nat :| IsFirstName(events, pid, i) && a == OfComm(events[i].comm);
      var j: nat :| IsFirstName(events, pid, j) && b == OfComm(events[j].comm);
      assert i == j;
    }
  }

  // ----- building it -----

  datatype Candidate = Candidate(event: Event, score: int)

  ghost predicate BestSoFar(events: seq<Event>, best: map<nat, Candidate>) {
    && (forall pid :: pid in best <==> HasExec(events, pid))
    && (forall pid :: pid in best ==> exists i: nat :: IsBest(events, pid, i) && best[pid] == Candidate(events[i], ExecutablePathScore(events[i])))
  }

  ghost predicate NamesSoFar(events: seq<Event>, names: map<nat, string>) {
    && (forall pid :: pid in names <==> HasName(events, pid))
    && (forall pid :: pid in names ==> exists i: nat :: IsFirstName(events, pid, i) && names[pid] == events[i].comm)
  }

  function AddExec(best: map<nat, Candidate>, e: Event): map<nat, Candidate> {
    if e.eventType == "EXEC" && e.pid != 0 && e.file != "" && (e.pid !in best || ExecutablePathScore(e) > best[e.pid].score) then
      best[e.pid := Candidate(e, ExecutablePathScore(e))]
    else best
  }

  function AddName(names: map<nat, string>, e: Event): map<nat, string> {
    if e.pid != 0 && e.comm != "" && e.pid !in names then names[e.pid := e.comm] else names
  }

  lemma BestSnoc(events: seq<Event>, best: map<nat, Candidate>, e: Event)
    requires BestSoFar(events, best)
    ensures BestSoFar(events + [e], AddExec(best, e))
  {
    hide ExecutablePathScore;
    var all, best' := events + [e], AddExec(best, e);
    forall pid ensures pid in best' <==> HasExec(all, pid) {
      HasExecSnoc(events, e, pid);
    }
    forall pid | pid in best'
      ensures exists i: nat :: IsBest(all, pid, i) && best'[pid] == Candidate(all[i], ExecutablePathScore(all[i]))
    {
      HasExecSnoc(events, e, pid);
      if pid in best {
        var i: nat :| IsBest(events, pid, i) && best[pid] == Candidate(events[i], ExecutablePathScore(events[i]));
        assert IsBest(all, pid, if best'[pid] == best[pid] then i else |events|);
      } else {
        assert IsBest(all, pid, |events|) by {
          forall j | 0 <= j < |events| ensures !IsExec(all[j], pid) {
            assert events[j] in events;
          }
        }
      }
    }
  }

  lemma HasExecSnoc(events: seq<Event>, e: Event, pid: nat)
    ensures HasExec(events + [e], pid) <==> HasExec(events, pid) || (pid != 0 && IsExec(e, pid))
    ensures HasName(events + [e], pid) <==> HasName(events, pid) || (pid != 0 && IsNamed(e, pid))
  {
    assert e in events + [e];
  }

  lemma NamesSnoc(events: seq<Event>, names: map<nat, string>, e: Event)
    requires NamesSoFar(events, names)
    ensures NamesSoFar(events + [e], AddName(names, e))
  {
    var all, names' := events + [e], AddName(names, e);
    forall pid ensures pid in names' <==> HasName(all, pid) {
      HasExecSnoc(events, e, pid);
    }
    forall pid | pid in names' ensures exists i: nat :: IsFirstName(all, pid, i) && names'[pid] == all[i].comm {
      if pid in names {
        var i: nat :| IsFirstName(events, pid, i) && names[pid] == events[i].comm;
        assert IsFirstName(all, pid, i);
      } else {
        forall j | 0 <= j < |events| ensures !IsNamed(all[j], pid) {
          assert events[j] in events;
        }
        assert IsFirstName(all, pid, |events|);
      }
    }
  }

  method BuildProcessIdentityIndex(events: seq<Event>) returns (index: Index)
    ensures Indexes(events, index)
  {
    var bestExecByPid: map<nat, Candidate> := map[];
    var activityNameByPid: map<nat, string> := map[];
    hide BestSoFar, NamesSoFar, ExecutablePathScore;
    NothingYet();
    for i := 0 to |events|
      invariant BestSoFar(events[..i], bestExecByPid)
      invariant NamesSoFar(events[..i], activityNameByPid)
    {
      var event := events[i];
      BestSnoc(events[..i], bestExecByPid, event);
      NamesSnoc(events[..i], activityNameByPid, event);
      assert events[..i + 1] == events[..i] + [event];
      if event.eventType == "EXEC" && event.pid != 0 && event.file != "" {
        var score := ExecutablePathScore(event);
        if event.pid !in bestExecByPid || score > bestExecByPid[event.pid].score {
          bestExecByPid := bestExecByPid[event.pid := Candidate(event, score)];
        }
      }
      if event.pid != 0 && event.comm != "" && event.pid !in activityNameByPid {
        activityNameByPid := activityNameByPid[event.pid := event.comm];
      }
    }
    assert events[..|events|] == events;

    index := FillIndex(bestExecByPid, activityNameByPid);
    IndexFromMaps(events, bestExecByPid, activityNameByPid, index);
  }

  /** Paths first; a name only where there is no path. */
  method FillIndex(bestExecByPid: map<nat, Candidate>, activityNameByPid: map<nat, string>) returns (index: Index)
    ensures forall pid :: pid in index <==> pid in bestExecByPid || pid in activityNameByPid
    ensures forall pid :: pid in index ==>
              index[pid] == if pid in bestExecByPid then OfPath(bestExecByPid[pid].event.file) else OfComm(activityNameByPid[pid])
  {
    index := map[];
    var left := bestExecByPid.Keys;
    while |left| > 0
      invariant left <= bestExecByPid.Keys
      invariant forall pid :: pid in index <==> pid in bestExecByPid && pid !in left
      invariant forall pid :: pid in index ==> index[pid] == OfPath(bestExecByPid[pid].event.file)
    {
      var pid :| pid in left;
      index := index[pid := OfPath(bestExecByPid[pid].event.file)];
      left := left - {pid};
    }
    ghost var paths := index;
    left := activityNameByPid.Keys;
    while |left| > 0
      invariant left <= activityNameByPid.Keys
      invariant forall pid :: pid in index <==> pid in paths || (pid in activityNameByPid && pid !in left)
      invariant forall pid :: pid in index ==> index[pid] == if pid in paths then paths[pid] else OfComm(activityNameByPid[pid])
    {
      var pid :| pid in left;
      if pid !in index {
        index := index[pid := OfComm(activityNameByPid[pid])];
      }
      left := left - {pid};
    }
  }

  lemma NothingYet()
    ensures BestSoFar([], map[]) && NamesSoFar([], map[])
  {
  }

  lemma IndexFromMaps(events: seq<Event>, best: map<nat, Candidate>, names: map<nat, string>, index: Index)
    requires BestSoFar(events, best) && NamesSoFar(events, names)
    requires forall pid :: pid in index <==> pid in best || pid in names
    requires forall pid :: pid in index ==> index[pid] == if pid in best then OfPath(best[pid].event.file) else OfComm(names[pid])
    ensures Indexes(events, index)
  {
    hide HasExec, HasName, IsBest, IsFirstName, ExecutablePathScore;
  }

  // ----- using it -----

  function ProcessIdentityFor(e: Event, index: Index): Identity {
    if e.pid != 0 && e.pid in index then index[e.pid]
    else if e.comm != "" then OfComm(e.comm)
    else
      var command := if CommandFromArgs(e.args) != "" then CommandFromArgs(e.args) else Basename(e.file);
      if command != "" then OfCommand(command) else OfPid(e.pid)
  }

  /**
    What the built index says of a process that executed something: an executable that the score prefers to
    every other of the process, or that came first of those between which it has no preference.
   */
  lemma IndexPrefers(events: seq<Event>, index: Index, pid: nat) returns (i: nat)
    requires Indexes(events, index) && pid != 0
    requires exists e :: e in events && e.eventType == "EXEC" && e.pid == pid && e.file != ""
    ensures i < |events| && events[i].eventType == "EXEC" && events[i].pid == pid && events[i].file != ""
    ensures pid in index && index[pid] == OfPath(events[i].file)
    ensures forall j :: 0 <= j < |events| && j != i && events[j].eventType == "EXEC" && events[j].pid == pid && events[j].file != "" ==>
              Preferred(events[i], events[j]) || (i < j && !Preferred(events[j], events[i]))
  {
    hide ExecutablePathScore, Preferred;
    var e :| e in events && e.eventType == "EXEC" && e.pid == pid && e.file != "";
    assert IsExec(e, pid);
    assert IsIdentity(events, pid, index[pid]);
    hide Indexes, HasName;
    i :| IsBest(events, pid, i) && index[pid] == OfPath(events[i].file);
    forall j | 0 <= j < |events| && j != i && IsExec(events[j], pid)
      ensures Preferred(events[i], events[j]) || (i < j && !Preferred(events[j], events[i]))
    {
      ScorePrefersIff(events[i], events[j]);
      ScorePrefersIff(events[j], events[i]);
    }
  }

  /** An event whose process the index does not know is named by itself: by activity, by command, by file, by process id. */
  lemma UnknownProcess(e: Event, index: Index, word: string, rest: string, directory: string, name: string)
    requires (e.pid == 0 || e.pid !in index) && IsWordOf(word) && (rest == "" || IsSpace(rest[0]))
    requires name != "" && forall i :: 0 <= i < |name| ==> name[i] != '/'
    ensures e.comm != "" ==> ProcessIdentityFor(e, index) == OfComm(e.comm)
    ensures e.comm == "" && e.args == word + rest ==> ProcessIdentityFor(e, index) == OfCommand(word)
    ensures e.comm == e.args == "" && e.file == directory + "/" + name ==> ProcessIdentityFor(e, index) == OfCommand(name)
    ensures e.comm == e.args == e.file == "" ==> ProcessIdentityFor(e, index) == OfPid(e.pid)
  {
    hide CommandFromArgs, Basename, IsSpace;
    CommandIs(word, rest);
    BasenameIs(directory, name);
    EmptyBasename();
  }

  lemma EmptyBasename()
    ensures Basename("") == ""
  {
    assert TrimSlashes("") == "";
  }

  /** Retained events of one process are all shown under one identity, except where none of them names it. */
  lemma SameProcessSameIdentity(events: seq<Event>, index: Index, a: Event, b: Event)
    requires Indexes(events, index) && a in events && b in events && a.pid == b.pid != 0
    ensures HasExec(events, a.pid) || HasName(events, a.pid) ==>
              ProcessIdentityFor(a, index) == ProcessIdentityFor(b, index) && IsIdentity(events, a.pid, ProcessIdentityFor(a, index))
    ensures ProcessIdentityFor(a, index) != ProcessIdentityFor(b, index) ==> a.comm == "" && b.comm == ""
  {
  }

  /** A new event changes the identity of at most its own process, to an executable preferred to all before. */
  lemma NewEventPrefers(events: seq<Event>, index: Index, e: Event, index': Index, pid: nat)
    requires Indexes(events, index) && Indexes(events + [e], index') && pid in index
    ensures pid in index'
    ensures index'[pid] != index[pid] ==>
              && e.eventType == "EXEC" && e.pid == pid && index'[pid] == OfPath(e.file)
              && forall j :: 0 <= j < |events| && IsExec(events[j], pid) ==> Preferred(e, events[j])
  {
    hide ExecutablePathScore, Preferred;
    NewEventChangesOneIdentity(events, index, e, index', pid);
    hide Indexes;
    if index'[pid] != index[pid] {
      forall j | 0 <= j < |events| && IsExec(events[j], pid) ensures Preferred(e, events[j]) {
        ScorePrefersIff(e, events[j]);
      }
    }
  }

  lemma NewEventChangesOneIdentity(events: seq<Event>, index: Index, e: Event, index': Index, pid: nat)
    requires Indexes(events, index) && Indexes(events + [e], index') && pid in index
    ensures pid in index'
    ensures index'[pid] != index[pid] ==>
              && IsExec(e, pid) && index'[pid] == OfPath(e.file)
              && forall j :: 0 <= j < |events| && IsExec(events[j], pid) ==> ExecutablePathScore(events[j]) < ExecutablePathScore(e)
  {
    hide ExecutablePathScore;
    var all := events + [e];
    HasExecSnoc(events, e, pid);
    assert IsIdentity(events, pid, index[pid]) && IsIdentity(all, pid, index'[pid]);
    hide Indexes, HasExec, HasName;
    if HasExec(events, pid) {
      var i: nat :| IsBest(events, pid, i) && index[pid] == OfPath(events[i].file);
      var i': nat :| IsBest(all, pid, i') && index'[pid] == OfPath(all[i'].file);
      forall j | 0 <= j < |events| && IsExec(events[j], pid)
        ensures ExecutablePathScore(events[j]) <= ExecutablePathScore(all[i']) - if j < i' then 1 else 0
      {
        assert IsExec(all[j], pid);
      }
      if i' < |events| {
        assert IsExec(events[i'], pid) && i == i';
      }
    } else {
      NamedThen(events, e, pid, index[pid], index'[pid]);
    }
  }

  lemma NamedThen(events: seq<Event>, e: Event, pid: nat, a: Identity, b: Identity)
    requires IsIdentity(events, pid, a) && IsIdentity(events + [e], pid, b) && !HasExec(events, pid) && HasName(events, pid)
    ensures a != b ==> IsExec(e, pid) && b == OfPath(e.file) && forall j :: 0 <= j < |events| ==> !IsExec(events[j], pid)
  {
    hide ExecutablePathScore;
    var all := events + [e];
    HasExecSnoc(events, e, pid);
    forall j | 0 <= j < |events| ensures !IsExec(all[j], pid) {
      assert events[j] in events;
    }
    var i: nat :| IsFirstName(events, pid, i) && a == OfComm(events[i].comm);
    if HasExec(all, pid) {
      var i': nat :| IsBest(all, pid, i') && b == OfPath(all[i'].file);
    } else {
      var i': nat :| IsFirstName(all, pid, i') && b == OfComm(all[i'].comm);
      assert IsNamed(all[i], pid);
    }
  }
}
