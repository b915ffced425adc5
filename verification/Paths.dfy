/** Directory names as the dashboard computes them, and what climbing towards the root does to them. */
module Paths {
  import opened JsStrings

  /** replace(/\/+/g, '/') */
  function Collapse(s: string): string {
    if |s| < 2 then s
    else if s[0] == '/' && s[1] == '/' then Collapse(s[1..])
    else [s[0]] + Collapse(s[1..])
  }

  /** replace(/\/+$/, '') */
  function TrimSlashes(s: string): string {
    if s != "" && s[|s| - 1] == '/' then TrimSlashes(s[..|s| - 1]) else s
  }

  function ParentDirectory(path: string): string {
    if path == "" then "unknown directory"
    else
      var normalized := TrimSlashes(Collapse(path));
      var slash := LastIndexOf(normalized, '/');
      if slash > 0 then normalized[..slash] else if slash == 0 then "/" else "."
  }

  /** One round of the rollup loop: to the parent, but no directory climbs into the root. */
  function Lift(directory: string): string {
    var candidate := ParentDirectory(directory);
    if directory != "/" && candidate == "/" then directory else candidate
  }

  function LiftTimes(k: nat, directory: string): string {
    if k == 0 then directory else Lift(LiftTimes(k - 1, directory))
  }

  // ----- normal directories -----

  predicate NoDoubleSlash(s: string) {
    forall i :: 0 <= i < |s| - 1 ==> !(s[i] == '/' && s[i + 1] == '/')
  }

  /** Single slashes only, and none at the end unless the directory is the root. */
  predicate Normal(d: string) {
    d != "" && NoDoubleSlash(d) && (d == "/" || d[|d| - 1] != '/')
  }

  lemma {:induction false} CollapseShape(s: string)
    ensures NoDoubleSlash(Collapse(s)) && (s != "" ==> Collapse(s) != "" && Collapse(s)[0] == s[0])
  {
    if |s| >= 2 {
      CollapseShape(s[1..]);
    }
  }

  lemma {:induction false} CollapseNormal(s: string)
    requires NoDoubleSlash(s)
    ensures Collapse(s) == s
  {
    if |s| >= 2 {
      forall i | 0 <= i < |s[1..]| - 1 ensures !(s[1..][i] == '/' && s[1..][i + 1] == '/') {
        assert !(s[i + 1] == '/' && s[i + 1 + 1] == '/');
      }
      CollapseNormal(s[1..]);
    }
  }

  lemma {:induction false} TrimSlashesShape(s: string)
    requires NoDoubleSlash(s)
    ensures var r := TrimSlashes(s);
            r <= s && NoDoubleSlash(r) && (r != "" ==> r[|r| - 1] != '/')
  {
    if s != "" && s[|s| - 1] == '/' {
      TrimSlashesShape(s[..|s| - 1]);
    }
  }

  /** Whatever the path, its parent directory is in normal form. */
  lemma ParentIsNormal(path: string)
    ensures Normal(ParentDirectory(path))
  {
    if path != "" {
      CollapseShape(path);
      TrimSlashesShape(Collapse(path));
      var normalized := TrimSlashes(Collapse(path));
      var slash := LastIndexOf(normalized, '/');
      if slash > 0 {
        var i := slash - 1;
        assert NoDoubleSlash(normalized) && 0 <= i < |normalized| - 1;
        assert NoDoubleSlash(normalized[..slash]);
      }
    }
  }

  /** For a normal directory other than the root the parent is found by its last slash alone. */
  lemma ParentOfNormal(d: string)
    requires Normal(d) && d != "/"
    ensures var slash := LastIndexOf(d, '/');
            ParentDirectory(d) == if slash > 0 then d[..slash] else if slash == 0 then "/" else "."
  {
    CollapseNormal(d);
  }

  /** A name directly below a directory has that directory as its parent. */
  lemma ParentOfChild(d: string, name: string)
    requires Normal(d) && d != "/" && name != "" && forall i :: 0 <= i < |name| ==> name[i] != '/'
    ensures ParentDirectory(d + "/" + name) == d && Normal(d + "/" + name)
  {
    var child := d + "/" + name;
    assert child[|d|] == '/' && child[..|d|] == d && forall i :: |d| < i < |child| ==> child[i] == name[i - |d| - 1];
    hide ParentDirectory;
    ParentOfNormal(child);
  }

  /** Parents of names that are not below another directory; how often a slash is repeated does not matter. */
  lemma OtherParents(d: string, name: string)
    requires name != "" && forall i :: 0 <= i < |name| ==> name[i] != '/'
    ensures ParentDirectory("") == "unknown directory"
    ensures ParentDirectory(name) == "." && ParentDirectory("/" + name) == "/"
    ensures Normal(d) && d != "/" ==> ParentDirectory(d + ("//" + name)) == d && ParentDirectory(d + "/" + name + "/") == d
  {
    hide ParentDirectory;
    assert name[0] != '/' && name[|name| - 1] != '/';
    ParentOfNormal(name);
    assert ("/" + name)[0] == '/' && forall i :: 0 < i < |"/" + name| ==> ("/" + name)[i] == name[i - 1];
    ParentOfNormal("/" + name);
    EmptyParent();
    if Normal(d) && d != "/" {
      DoubleSlashCollapses(d, name);
      SlashAtEnd(d, name);
    }
  }

  lemma EmptyParent()
    ensures ParentDirectory("") == "unknown directory"
  {
  }

  lemma {:induction false} CollapseAt(s: string, t: string)
    requires NoDoubleSlash(s + "/") && t != "" && t[0] == '/'
    ensures Collapse(s + ("/" + t)) == Collapse(s + t)
  {
    if s == "" {
      assert s + ("/" + t) == "/" + t && s + t == t && ("/" + t)[1..] == t;
    } else {
      assert (s + ("/" + t))[1..] == s[1..] + ("/" + t) && (s + t)[1..] == s[1..] + t;
      assert forall i :: 0 <= i < |s[1..] + "/"| ==> (s[1..] + "/")[i] == (s + "/")[i + 1];
      CollapseAt(s[1..], t);
      assert (s + "/")[1] == (if |s| > 1 then s[1] else '/');
    }
  }

  lemma DoubleSlashCollapses(d: string, name: string)
    requires Normal(d) && d != "/" && name != "" && forall i :: 0 <= i < |name| ==> name[i] != '/'
    ensures ParentDirectory(d + ("//" + name)) == d
  {
    hide ParentDirectory;
    ParentOfChild(d, name);
    assert forall i :: 0 <= i < |d| ==> (d + "/")[i] == d[i];
    CollapseAt(d, "/" + name);
    assert "//" + name == "/" + ("/" + name) && d + "/" + name == d + ("/" + name);
    SameCollapseSameParent(d + ("//" + name), d + "/" + name);
  }

  lemma SameCollapseSameParent(a: string, b: string)
    requires a != "" && b != "" && TrimSlashes(Collapse(a)) == TrimSlashes(Collapse(b))
    ensures ParentDirectory(a) == ParentDirectory(b)
  {
  }

  lemma SlashAtEnd(d: string, name: string)
    requires Normal(d) && d != "/" && name != "" && forall i :: 0 <= i < |name| ==> name[i] != '/'
    ensures ParentDirectory(d + "/" + name + "/") == d
  {
    var child := d + "/" + name;
    hide ParentDirectory, Collapse;
    ParentOfChild(d, name);
    assert child[|child| - 1] == name[|name| - 1];
    OneMoreSlash(child);
    CollapseNormal(child);
    CollapseNormal(child + "/");
    SameCollapseSameParent(child + "/", child);
  }

  lemma OneMoreSlash(s: string)
    requires Normal(s) && s[|s| - 1] != '/'
    ensures NoDoubleSlash(s + "/") && TrimSlashes(s + "/") == TrimSlashes(s)
  {
    assert forall i :: 0 <= i < |s| ==> (s + "/")[i] == s[i];
    assert (s + "/")[..|s + "/"| - 1] == s;
  }

  lemma RootsParent()
    ensures ParentDirectory("/") == "."
  {
    assert Collapse("/") == "/";
    assert TrimSlashes("/") == "";
  }

  lemma LiftIsNormal(d: string)
    requires Normal(d)
    ensures Normal(Lift(d))
  {
    ParentIsNormal(d);
  }

  lemma {:induction false} LiftTimesIsNormal(k: nat, d: string)
    requires Normal(d)
    ensures Normal(LiftTimes(k, d))
  {
    if k > 0 {
      LiftTimesIsNormal(k - 1, d);
      LiftIsNormal(LiftTimes(k - 1, d));
    }
  }

  // ----- climbing ends -----

  /** Room left to climb: none at '.', elsewhere at most the length of the name. */
  function Depth(d: string): nat {
    if d == "." then 0 else |d|
  }

  /** A round of climbing either leaves a directory where it is or brings it strictly closer to the end. */
  lemma LiftClimbs(d: string)
    requires Normal(d)
    ensures Lift(d) == d || Depth(Lift(d)) < Depth(d)
  {
    if d == "/" {
      RootsParent();
    } else {
      ParentOfNormal(d);
    }
  }

  // ----- where absolute directories end up -----

  predicate Absolute(d: string) {
    |d| > 1 && d[0] == '/'
  }

  predicate AncestorOrSelf(a: string, d: string) {
    a == d || (a <= d && |a| < |d| && d[|a|] == '/')
  }

  lemma LiftOfAbsolute(d: string)
    requires Normal(d) && Absolute(d)
    ensures Absolute(Lift(d)) && AncestorOrSelf(Lift(d), d)
  {
    ParentOfNormal(d);
  }

  /** However often it is lifted, an absolute directory below the root stays itself or a proper ancestor, never '/' or '.'. */
  lemma {:induction false} AbsoluteStaysBelowRoot(k: nat, d: string)
    requires Normal(d) && Absolute(d)
    ensures var a := LiftTimes(k, d);
            Normal(a) && Absolute(a) && AncestorOrSelf(a, d) && a != "/" && a != "."
  {
    if k > 0 {
      AbsoluteStaysBelowRoot(k - 1, d);
      LiftIsNormal(LiftTimes(k - 1, d));
      LiftOfAbsolute(LiftTimes(k - 1, d));
    }
  }

  /** One round: a directory below another becomes that one; directly below the root it stays; relative names end at `.` */
  lemma LiftIs(d: string, name: string)
    requires Normal(d) && d != "/" && name != "" && forall i :: 0 <= i < |name| ==> name[i] != '/'
    ensures Lift(d + "/" + name) == d && Lift("/" + name) == "/" + name
    ensures Lift(name) == "." && Lift("/") == "." && Lift(".") == "."
  {
    hide ParentDirectory;
    ParentOfChild(d, name);
    OtherParents(d, name);
    OtherParents(d, ".");
    RootsParent();
    assert |d + "/" + name| > 1 && |"/" + name| > 1;
    assert ("/" + name) != "/" && name != "/" by {
      assert name[0] != '/';
    }
  }
}
