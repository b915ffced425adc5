/**
  Layout of the process graph: nodes are grouped into connected components with a union-find over a
  mutable parent map, and every component gets its own cell of a grid.
 */
module Components {
  import opened Basics

  datatype Link<Id> = Link(source: Id, target: Id)

  // ----- connectivity -----

  ghost predicate Adjacent<Id(!new)>(links: seq<Link<Id>>, a: Id, b: Id) {
    Link(a, b) in links || Link(b, a) in links
  }

  ghost predicate IsPath<Id(!new)>(links: seq<Link<Id>>, path: seq<Id>, a: Id, b: Id) {
    && path != [] && path[0] == a && path[|path| - 1] == b
    && forall i :: 0 <= i < |path| - 1 ==> Adjacent(links, path[i], path[i + 1])
  }

  /** a and b are joined by an undirected path of links. */
  ghost predicate Joined<Id(!new)>(links: seq<Link<Id>>, a: Id, b: Id) {
    exists path :: IsPath(links, path, a, b)
  }

  lemma JoinedSelf<Id(!new)>(links: seq<Link<Id>>, a: Id)
    ensures Joined(links, a, a)
  {
    assert IsPath(links, [a], a, a);
  }

  lemma JoinedLink<Id(!new)>(links: seq<Link<Id>>, link: Link<Id>)
    requires link in links
    ensures Joined(links, link.source, link.target)
  {
    assert IsPath(links, [link.source, link.target], link.source, link.target);
  }

  lemma JoinedBack<Id(!new)>(links: seq<Link<Id>>, a: Id, b: Id)
    requires Joined(links, a, b)
    ensures Joined(links, b, a)
  {
    var path :| IsPath(links, path, a, b);
    var back := seq(|path|, i requires 0 <= i < |path| => path[|path| - 1 - i]);
    forall i | 0 <= i < |back| - 1 ensures Adjacent(links, back[i], back[i + 1]) {
      assert Adjacent(links, path[|path| - 2 - i], path[|path| - 1 - i]);
    }
    assert IsPath(links, back, b, a);
  }

  lemma JoinedThrough<Id(!new)>(links: seq<Link<Id>>, a: Id, b: Id, c: Id)
    requires Joined(links, a, b) && Joined(links, b, c)
    ensures Joined(links, a, c)
  {
    var p :| IsPath(links, p, a, b);
    var q :| IsPath(links, q, b, c);
    var path := p + q[1..];
    forall i | 0 <= i < |path| - 1 ensures Adjacent(links, path[i], path[i + 1]) {
      if i < |p| - 1 {
        assert Adjacent(links, p[i], p[i + 1]);
      } else {
        assert Adjacent(links, q[i - (|p| - 1)], q[i - (|p| - 1) + 1]);
      }
    }
    assert IsPath(links, path, a, c);
  }

  lemma JoinedMore<Id(!new)>(links: seq<Link<Id>>, more: seq<Link<Id>>, a: Id, b: Id)
    requires Joined(links, a, b) && links <= more
    ensures Joined(more, a, b)
  {
    var path :| IsPath(links, path, a, b);
    forall i | 0 <= i < |path| - 1 ensures Adjacent(more, path[i], path[i + 1]) {
      assert Adjacent(links, path[i], path[i + 1]);
    }
    assert IsPath(more, path, a, b);
  }

  /** A labelling that no link changes is constant along every path. */
  lemma {:induction false} SameLabelAlongPath<Id(!new)>(links: seq<Link<Id>>, tags: map<Id, Id>, path: seq<Id>, a: Id, b: Id)
    requires IsPath(links, path, a, b) && a in tags
    requires forall l :: l in links ==> l.source in tags && l.target in tags && tags[l.source] == tags[l.target]
    ensures b in tags && tags[a] == tags[b]
  {
    if |path| > 1 {
      assert Adjacent(links, path[0], path[1]);
      forall i | 0 <= i < |path[1..]| - 1 ensures Adjacent(links, path[1..][i], path[1..][i + 1]) {
        assert Adjacent(links, path[i + 1], path[i + 2]);
      }
      SameLabelAlongPath(links, tags, path[1..], path[1], b);
    }
  }

  // ----- forests -----

  /** One step towards the root. */
  ghost function Up<Id(!new)>(parent: map<Id, Id>, x: Id): Id
    requires x in parent
  {
    parent[x]
  }

  /** Every step towards the root lowers the level: the parent map has no cycle but the roots' own. */
  ghost predicate Forest<Id(!new)>(parent: map<Id, Id>, level: map<Id, nat>) {
    && (forall x {:trigger Up(parent, x)} :: x in parent ==> x in level && Up(parent, x) in parent && Up(parent, x) in level)
    && (forall x {:trigger Up(parent, x)} :: x in parent && Up(parent, x) != x ==> level[Up(parent, x)] < level[x])
  }

  ghost function Root<Id(!new)>(parent: map<Id, Id>, level: map<Id, nat>, x: Id): (r: Id)
    requires Forest(parent, level) && x in parent
    ensures r in parent && r in level && x in level && Up(parent, r) == r && (r != x ==> level[r] < level[x])
    decreases if Up(parent, x) == x then 0 else level[x]
  {
    if Up(parent, x) == x then x else Root(parent, level, Up(parent, x))
  }

  /** labels gives every node its root, said one parent step at a time. */
  ghost predicate Labelled<Id(!new)>(parent: map<Id, Id>, labels: map<Id, Id>) {
    && (forall x {:trigger Up(parent, x)} :: x in parent ==> x in labels && Up(parent, x) in labels)
    && (forall x {:trigger Up(parent, x)} :: x in parent && x in labels && Up(parent, x) in labels ==>
          labels[x] == if Up(parent, x) == x then x else labels[Up(parent, x)])
  }

  lemma {:induction false} LabelsAreRoots<Id(!new)>(parent: map<Id, Id>, level: map<Id, nat>, labels: map<Id, Id>, x: Id)
    requires Forest(parent, level) && Labelled(parent, labels) && x in parent
    ensures x in labels && labels[x] == Root(parent, level, x)
    decreases if Up(parent, x) == x then 0 else level[x]
  {
    if Up(parent, x) != x {
      LabelsAreRoots(parent, level, labels, Up(parent, x));
    }
  }

  lemma HangKeepsForest<Id(!new)>(parent: map<Id, Id>, level: map<Id, nat>, labels: map<Id, Id>, s: Id, t: Id)
    requires Forest(parent, level) && Labelled(parent, labels)
    requires s in parent && t in parent && s != t && Up(parent, s) == s && Up(parent, t) == t
    ensures s in level && s in labels
    ensures Forest(parent[t := s], map x | x in parent && x in level && x in labels ::
                                     if labels[x] == t then level[x] + level[s] + 1 else level[x])
    ensures Labelled(parent[t := s], map x | x in labels :: if labels[x] == t then s else labels[x])
  {
    assert labels[s] == s && labels[t] == t;
    var parent' := parent[t := s];
    forall x | x in parent' ensures x in parent && Up(parent', x) == if x == t then s else Up(parent, x) {
    }
  }

  class DisjointSets<Id(==, !new)> {
    var parent: map<Id, Id>
    ghost var level: map<Id, nat>
    /** The root of every node: what Find returns, and what the whole structure means. */
    ghost var labels: map<Id, Id>

    ghost predicate Valid()
      reads this
    {
      Forest(parent, level) && Labelled(parent, labels) && labels.Keys == parent.Keys
    }

    constructor (nodes: seq<Id>)
      ensures Valid() && forall n :: (n in labels <==> n in nodes) && (n in labels ==> labels[n] == n)
    {
      parent := map n | n in nodes :: n;
      level := map n | n in nodes :: 0;
      labels := map n | n in nodes :: n;
    }

    /** The root of a node; the nodes on the way are pointed straight at it, and no root changes. */
    method Find(id: Id) returns (root: Id)
      requires Valid() && id in parent
      modifies this`parent
      ensures Valid() && root == labels[id] && root in parent && Up(parent, root) == root
    {
      root := FindRoot(id);
      var at := id;
      assert Up(parent, at) == parent[at];
      while parent[at] != at
        invariant Valid() && at in parent && labels[at] == root == labels[id]
        invariant root in parent && Up(parent, root) == root && Up(parent, at) == parent[at]
        decreases level[at]
      {
        at := Compress(at, root);
      }
    }

    /** Point a node at its root and move on to its old parent. */
    method Compress(at: Id, root: Id) returns (next: Id)
      requires Valid() && at in parent && root in parent && labels[at] == root
      requires Up(parent, root) == root && Up(parent, at) != at
      modifies this`parent
      ensures Valid() && parent == old(parent)[at := root]
      ensures next in parent && next == old(parent)[at] && labels[next] == root && level[next] < level[at]
      ensures Up(parent, root) == root && Up(parent, next) == parent[next]
    {
      LabelsAreRoots(parent, level, labels, at);
      next := parent[at];
      assert next == Up(parent, at);
      ghost var parent' := parent[at := root];
      assert forall x :: x in parent' ==> Up(parent', x) == if x == at then root else Up(parent, x);
      parent := parent[at := root];
    }

    method FindRoot(id: Id) returns (root: Id)
      requires Valid() && id in parent
      ensures root in parent && Up(parent, root) == root && root == labels[id]
    {
      root := id;
      assert Up(parent, root) == parent[root];
      while parent[root] != root
        invariant root in parent && labels[root] == labels[id] && Up(parent, root) == parent[root]
        decreases level[root]
      {
        root := parent[root];
        assert Up(parent, root) == parent[root];
      }
    }

    /** Merge the trees of a link's two ends: the target's root goes below the source's. */
    method Union(link: Link<Id>)
      requires Valid() && link.source in parent && link.target in parent
      modifies this
      ensures Valid() && labels == Merged(old(labels), link)
    {
      var sourceRoot := Find(link.source);
      var targetRoot := Find(link.target);
      if sourceRoot != targetRoot {
        LabelsAreRoots(parent, level, labels, sourceRoot);
        Hang(sourceRoot, targetRoot);
      }
      assert labels == Merged(old(labels), link);
    }

    /** Hanging root t below root s relabels the whole tree of t with s and nothing else. */
    method Hang(s: Id, t: Id)
      requires Valid() && s in parent && t in parent && s != t && Up(parent, s) == s && Up(parent, t) == t
      modifies this
      ensures Valid() && parent == old(parent)[t := s]
      ensures labels == map x | x in old(labels) :: if old(labels)[x] == t then s else old(labels)[x]
    {
      HangKeepsForest(parent, level, labels, s, t);
      level := map x | x in parent && x in level && x in labels :: if labels[x] == t then level[x] + level[s] + 1 else level[x];
      labels := map x | x in labels :: if labels[x] == t then s else labels[x];
      parent := parent[t := s];
    }

    /** Process every link: afterwards two nodes have the same root exactly when a path of links joins them. */
    method UnionAll(links: seq<Link<Id>>)
      requires Valid() && forall n :: n in labels ==> labels[n] == n
      requires forall l :: l in links ==> l.source in labels && l.target in labels
      modifies this
      ensures Valid() && labels.Keys == old(labels.Keys)
      ensures forall a, b :: a in labels && b in labels ==> (labels[a] == labels[b] <==> Joined(links, a, b))
    {
      StartTracks(labels);
      assert links[..0] == [];
      for i := 0 to |links|
        invariant Valid() && labels.Keys == old(labels.Keys)
        invariant Tracks(labels, links[..i])
      {
        assert links[i] in links;
        MergedTracks(labels, links, i);
        Union(links[i]);
      }
      assert links[..|links|] == links;
      forall a, b | a in labels && b in labels ensures labels[a] == labels[b] <==> Joined(links, a, b) {
        TracksIsConnectivity(labels, links, a, b);
      }
    }
  }

  // ----- what union does to the labels -----

  ghost function Merged<Id(!new)>(labels: map<Id, Id>, link: Link<Id>): map<Id, Id>
    requires link.source in labels && link.target in labels
  {
    map x | x in labels :: if labels[x] == labels[link.target] then labels[link.source] else labels[x]
  }

  /** The labels agree across every processed link, and every node is joined to its label. */
  ghost predicate Tracks<Id(!new)>(labels: map<Id, Id>, links: seq<Link<Id>>) {
    && (forall l :: l in links ==> l.source in labels && l.target in labels && labels[l.source] == labels[l.target])
    && (forall x :: x in labels ==> Joined(links, x, labels[x]))
  }

  lemma StartTracks<Id(!new)>(labels: map<Id, Id>)
    requires forall x :: x in labels ==> labels[x] == x
    ensures Tracks(labels, [])
  {
    forall x | x in labels ensures Joined([], x, x) {
      JoinedSelf([], x);
    }
  }

  lemma MergedTracks<Id(!new)>(labels: map<Id, Id>, links: seq<Link<Id>>, i: nat)
    requires i < |links| && Tracks(labels, links[..i])
    requires links[i].source in labels && links[i].target in labels
    ensures Tracks(Merged(labels, links[i]), links[..i + 1])
  {
    var link, before, after := links[i], links[..i], links[..i + 1];
    var labels' := Merged(labels, link);
    var s, t := labels[link.source], labels[link.target];
    assert after == before + [link];
    forall x | x in labels ensures Joined(after, x, labels'[x]) {
      JoinedMore(before, after, x, labels[x]);
      if labels[x] == t {
        JoinedMore(before, after, link.target, t);
        JoinedMore(before, after, link.source, s);
        JoinedLink(after, link);
        JoinedBack(after, link.target, t);
        JoinedBack(after, link.source, link.target);
        JoinedThrough(after, x, t, link.target);
        JoinedThrough(after, x, link.target, link.source);
        JoinedThrough(after, x, link.source, s);
      }
    }
  }

  lemma TracksIsConnectivity<Id(!new)>(labels: map<Id, Id>, links: seq<Link<Id>>, a: Id, b: Id)
    requires Tracks(labels, links) && a in labels && b in labels
    ensures labels[a] == labels[b] <==> Joined(links, a, b)
  {
    if Joined(links, a, b) {
      var path :| IsPath(links, path, a, b);
      SameLabelAlongPath(links, labels, path, a, b);
    }
    if labels[a] == labels[b] {
      JoinedBack(links, b, labels[b]);
      JoinedThrough(links, a, labels[a], b);
    }
  }

  // ----- groups and their cells -----

  datatype Point = Point(x: real, y: real)

  /** The nodes with the label of a group, for each label in order of first appearance. */
  function LabelsSeen<Id(==)>(nodes: seq<Id>, labels: map<Id, Id>): seq<Id>
    requires forall n :: n in nodes ==> n in labels
  {
    if nodes == [] then []
    else
      var init, last := LabelsSeen(nodes[..|nodes| - 1], labels), labels[nodes[|nodes| - 1]];
      if last in init then init else init + [last]
  }

  function Members<Id(==)>(nodes: seq<Id>, labels: map<Id, Id>, tag: Id): seq<Id>
    requires forall n :: n in nodes ==> n in labels
  {
    if nodes == [] then []
    else
      var last := nodes[|nodes| - 1];
      Members(nodes[..|nodes| - 1], labels, tag) + if labels[last] == tag then [last] else []
  }

  function Groups<Id(==)>(nodes: seq<Id>, labels: map<Id, Id>): seq<seq<Id>>
    requires forall n :: n in nodes ==> n in labels
  {
    var seen := LabelsSeen(nodes, labels);
    seq(|seen|, i requires 0 <= i < |seen| => Members(nodes, labels, seen[i]))
  }

  lemma {:induction false} LabelsSeenOnce<Id>(nodes: seq<Id>, labels: map<Id, Id>)
    requires forall n :: n in nodes ==> n in labels
    ensures var seen := LabelsSeen(nodes, labels);
            && (forall i, j :: 0 <= i < j < |seen| ==> seen[i] != seen[j])
            && (forall n :: n in nodes ==> labels[n] in seen)
  {
    if nodes != [] {
      LabelsSeenOnce(nodes[..|nodes| - 1], labels);
      assert nodes == nodes[..|nodes| - 1] + [nodes[|nodes| - 1]];
    }
  }

  lemma {:induction false} MembersAre<Id>(nodes: seq<Id>, labels: map<Id, Id>, tag: Id, n: Id)
    requires forall n :: n in nodes ==> n in labels
    ensures n in Members(nodes, labels, tag) <==> n in nodes && labels[n] == tag
  {
    if nodes != [] {
      MembersAre(nodes[..|nodes| - 1], labels, tag, n);
      assert nodes == nodes[..|nodes| - 1] + [nodes[|nodes| - 1]];
    }
  }

  /** groups splits the nodes: each lies in one group, and two share a group exactly when they share a label. */
  ghost predicate Grouped<Id(!new)>(nodes: seq<Id>, labels: map<Id, Id>, groups: seq<seq<Id>>) {
    && (forall n :: n in nodes ==> n in labels && exists i :: 0 <= i < |groups| && n in groups[i])
    && (forall i, n :: 0 <= i < |groups| && n in groups[i] ==> n in nodes)
    && (forall i, j, a, b ::
          (0 <= i < |groups| && 0 <= j < |groups| && a in groups[i] && b in groups[j] && a in labels && b in labels) ==>
            (labels[a] == labels[b] <==> i == j))
  }

  lemma GroupsSplit<Id(!new)>(nodes: seq<Id>, labels: map<Id, Id>)
    requires forall n :: n in nodes ==> n in labels
    ensures Grouped(nodes, labels, Groups(nodes, labels))
  {
    var seen, groups := LabelsSeen(nodes, labels), Groups(nodes, labels);
    LabelsSeenOnce(nodes, labels);
    forall i, n | 0 <= i < |groups| ensures n in groups[i] <==> n in nodes && labels[n] == seen[i] {
      MembersAre(nodes, labels, seen[i], n);
    }
    forall n | n in nodes ensures exists i :: 0 <= i < |groups| && n in groups[i] {
      var i :| 0 <= i < |seen| && seen[i] == labels[n];
      assert n in groups[i];
    }
  }

  /** Stable insertion into a list ordered by decreasing size. */
  function InsertBySize<Id>(groups: seq<seq<Id>>, g: seq<Id>): seq<seq<Id>> {
    if groups == [] || |groups[|groups| - 1]| >= |g| then groups + [g]
    else InsertBySize(groups[..|groups| - 1], g) + [groups[|groups| - 1]]
  }

  function SortBySize<Id>(groups: seq<seq<Id>>): seq<seq<Id>> {
    if groups == [] then [] else InsertBySize(SortBySize(groups[..|groups| - 1]), groups[|groups| - 1])
  }

  ghost predicate BySize<Id(!new)>(groups: seq<seq<Id>>) {
    forall i, j :: 0 <= i < j < |groups| ==> |groups[i]| >= |groups[j]|
  }

  lemma {:induction false} InsertAdds<Id(!new)>(groups: seq<seq<Id>>, g: seq<Id>)
    ensures multiset(InsertBySize(groups, g)) == multiset(groups) + multiset{g}
  {
    if !(groups == [] || |groups[|groups| - 1]| >= |g|) {
      InsertAdds(groups[..|groups| - 1], g);
      assert groups == groups[..|groups| - 1] + [groups[|groups| - 1]];
    }
  }

  lemma {:induction false} InsertSorts<Id(!new)>(groups: seq<seq<Id>>, g: seq<Id>)
    requires BySize(groups)
    ensures BySize(InsertBySize(groups, g))
    ensures forall i :: 0 <= i < |InsertBySize(groups, g)| ==>
              |InsertBySize(groups, g)[i]| >= if groups == [] then |g| else Min(|g|, |groups[|groups| - 1]|)
  {
    if !(groups == [] || |groups[|groups| - 1]| >= |g|) {
      var init, last := groups[..|groups| - 1], groups[|groups| - 1];
      InsertSorts(init, g);
      assert InsertBySize(groups, g) == InsertBySize(init, g) + [last];
    }
  }

  lemma {:induction false} SortSorts<Id(!new)>(groups: seq<seq<Id>>)
    ensures BySize(SortBySize(groups)) && multiset(SortBySize(groups)) == multiset(groups)
  {
    if groups != [] {
      var init, last := groups[..|groups| - 1], groups[|groups| - 1];
      SortSorts(init);
      InsertSorts(SortBySize(init), last);
      InsertAdds(SortBySize(init), last);
      assert groups == init + [last];
    }
  }

  // ----- the order of the groups -----

  /** The first position of a node in the list. */
  function FirstAt<Id(==)>(nodes: seq<Id>, n: Id): (i: nat)
    ensures i <= |nodes| && (i < |nodes| ==> nodes[i] == n) && forall j :: 0 <= j < i ==> nodes[j] != n
  {
    if nodes == [] || nodes[0] == n then 0 else 1 + FirstAt(nodes[1..], n)
  }

  /** Where a group first appears among the nodes. */
  function Appears<Id(==)>(nodes: seq<Id>, g: seq<Id>): nat {
    if g == [] then |nodes| else FirstAt(nodes, g[0])
  }

  /** Larger groups first, and groups of one size in order of appearance. */
  ghost predicate InOrder<Id(!new)>(nodes: seq<Id>, groups: seq<seq<Id>>) {
    forall i, j :: 0 <= i < j < |groups| ==>
      |groups[i]| > |groups[j]| || (|groups[i]| == |groups[j]| && Appears(nodes, groups[i]) < Appears(nodes, groups[j]))
  }

  ghost predicate Appearing<Id(!new)>(nodes: seq<Id>, groups: seq<seq<Id>>) {
    forall i, j :: 0 <= i < j < |groups| ==> Appears(nodes, groups[i]) < Appears(nodes, groups[j])
  }

  lemma {:induction false} InsertInOrder<Id(!new)>(nodes: seq<Id>, groups: seq<seq<Id>>, g: seq<Id>)
    requires InOrder(nodes, groups) && forall i :: 0 <= i < |groups| ==> Appears(nodes, groups[i]) < Appears(nodes, g)
    ensures InOrder(nodes, InsertBySize(groups, g))
    ensures forall h :: h in InsertBySize(groups, g) ==> h in groups || h == g
  {
    hide Appears;
    if !(groups == [] || |groups[|groups| - 1]| >= |g|) {
      var init, last := groups[..|groups| - 1], groups[|groups| - 1];
      InsertInOrder(nodes, init, g);
      var inserted := InsertBySize(init, g);
      forall i | 0 <= i < |inserted|
        ensures |inserted[i]| > |last| || (|inserted[i]| == |last| && Appears(nodes, inserted[i]) < Appears(nodes, last))
      {
        assert inserted[i] in inserted;
        if inserted[i] in init {
          var k :| 0 <= k < |init| && init[k] == inserted[i];
          assert groups[k] == inserted[i];
        }
      }
      assert InsertBySize(groups, g) == inserted + [last];
    }
  }

  lemma {:induction false} SortInOrder<Id(!new)>(nodes: seq<Id>, groups: seq<seq<Id>>)
    requires Appearing(nodes, groups)
    ensures InOrder(nodes, SortBySize(groups)) && forall h :: h in SortBySize(groups) ==> h in groups
  {
    hide Appears;
    if groups != [] {
      var init, last := groups[..|groups| - 1], groups[|groups| - 1];
      SortInOrder(nodes, init);
      var sorted := SortBySize(init);
      forall i | 0 <= i < |sorted| ensures Appears(nodes, sorted[i]) < Appears(nodes, last) {
        assert sorted[i] in init;
        var k :| 0 <= k < |init| && init[k] == sorted[i];
        assert groups[k] == sorted[i];
      }
      InsertInOrder(nodes, sorted, last);
    }
  }

  /** Grouping lists no group empty, and the groups by their first node. */
  lemma {:induction false} GroupsAppear<Id(!new)>(nodes: seq<Id>, labels: map<Id, Id>, i: nat)
    requires i <= |nodes| && forall n :: n in nodes ==> n in labels
    ensures var groups := Groups(nodes[..i], labels);
            && Appearing(nodes, groups)
            && forall k :: 0 <= k < |groups| ==> groups[k] != [] && Appears(nodes, groups[k]) < i
  {
    if i > 0 {
      GroupsAppear(nodes, labels, i - 1);
      var before, n := Groups(nodes[..i - 1], labels), nodes[i - 1];
      assert n in nodes;
      hide Groups, LabelsSeen, Appears, FirstAt;
      if labels[n] in LabelsSeen(nodes[..i - 1], labels) {
        var j :| 0 <= j < |LabelsSeen(nodes[..i - 1], labels)| && LabelsSeen(nodes[..i - 1], labels)[j] == labels[n];
        JoinsGroup(nodes, labels, i - 1, j);
        AppearsStill(nodes, before[j], n);
      } else {
        OpensGroup(nodes, labels, i - 1);
        NewNodeIsFirst(nodes, labels, i - 1);
        AppearsAlone(nodes, n);
      }
    }
  }

  lemma AppearsStill<Id(!new)>(nodes: seq<Id>, g: seq<Id>, n: Id)
    requires g != []
    ensures Appears(nodes, g + [n]) == Appears(nodes, g)
  {
  }

  lemma AppearsAlone<Id(!new)>(nodes: seq<Id>, n: Id)
    ensures Appears(nodes, [n]) == FirstAt(nodes, n)
  {
  }

  lemma NewNodeIsFirst<Id(!new)>(nodes: seq<Id>, labels: map<Id, Id>, i: nat)
    requires i < |nodes| && (forall n :: n in nodes ==> n in labels) && labels[nodes[i]] !in LabelsSeen(nodes[..i], labels)
    ensures FirstAt(nodes, nodes[i]) == i
  {
    LabelsSeenOnce(nodes[..i], labels);
  }

  /** The nodes joined to a, in order. */
  ghost function JoinedTo<Id(!new)>(nodes: seq<Id>, links: seq<Link<Id>>, a: Id): seq<Id> {
    if nodes == [] then []
    else
      var last := nodes[|nodes| - 1];
      JoinedTo(nodes[..|nodes| - 1], links, a) + if Joined(links, a, last) then [last] else []
  }

  lemma {:induction false} MembersAreJoined<Id(!new)>(nodes: seq<Id>, links: seq<Link<Id>>, labels: map<Id, Id>, a: Id)
    requires (forall n :: n in nodes ==> n in labels) && a in labels
    requires forall b :: b in labels ==> (labels[a] == labels[b] <==> Joined(links, a, b))
    ensures Members(nodes, labels, labels[a]) == JoinedTo(nodes, links, a)
  {
    hide Joined;
    if nodes != [] {
      assert nodes[|nodes| - 1] in nodes;
      MembersAreJoined(nodes[..|nodes| - 1], links, labels, a);
    }
  }

  /** Reordering whole groups keeps the split, as long as no group is empty. */
  lemma ReorderedSplit<Id(!new)>(nodes: seq<Id>, labels: map<Id, Id>, groups: seq<seq<Id>>, sorted: seq<seq<Id>>)
    requires Grouped(nodes, labels, groups) && multiset(sorted) == multiset(groups)
    ensures Grouped(nodes, labels, sorted)
  {
    forall g ensures g in groups <==> g in sorted {
      assert g in groups <==> g in multiset(groups);
      assert g in sorted <==> g in multiset(sorted);
    }
    forall n | n in nodes ensures exists i :: 0 <= i < |sorted| && n in sorted[i] {
      var i :| 0 <= i < |groups| && n in groups[i];
      assert groups[i] in sorted;
    }
    forall i, n | 0 <= i < |sorted| && n in sorted[i] ensures n in nodes {
      assert sorted[i] in groups;
    }
    forall i, j, a, b | && 0 <= i < |sorted| && 0 <= j < |sorted| && a in sorted[i] && b in sorted[j]
                        && a in labels && b in labels
      ensures labels[a] == labels[b] <==> i == j
    {
      ReorderedPair(nodes, labels, groups, sorted, i, j, a, b);
    }
  }

  lemma ReorderedPair<Id(!new)>(nodes: seq<Id>, labels: map<Id, Id>, groups: seq<seq<Id>>, sorted: seq<seq<Id>>,
                                i: nat, j: nat, a: Id, b: Id)
    requires Grouped(nodes, labels, groups) && multiset(sorted) == multiset(groups)
    requires i < |sorted| && j < |sorted| && a in sorted[i] && b in sorted[j] && a in labels && b in labels
    ensures labels[a] == labels[b] <==> i == j
  {
    assert sorted[i] in multiset(groups) && sorted[j] in multiset(groups);
    var i' :| 0 <= i' < |groups| && groups[i'] == sorted[i];
    var j' :| 0 <= j' < |groups| && groups[j'] == sorted[j];
    if i != j && i' == j' {
      assert multiset(sorted)[sorted[i]] >= 2 by {
        TwiceInMultiset(sorted, i, j);
      }
      var k := OtherIndex(groups, i');
      assert false;
    }
  }

  lemma TwiceInMultiset<T>(s: seq<T>, i: nat, j: nat)
    requires i < |s| && j < |s| && i != j && s[i] == s[j]
    ensures multiset(s)[s[i]] >= 2
  {
    var lo, hi := Min(i, j), Max(i, j);
    assert s == s[..lo] + [s[lo]] + s[lo + 1..hi] + [s[hi]] + s[hi + 1..];
  }

  lemma OtherIndex<T>(s: seq<T>, i: nat) returns (k: nat)
    requires i < |s| && multiset(s)[s[i]] >= 2
    ensures k < |s| && k != i && s[k] == s[i]
  {
    assert s == s[..i] + [s[i]] + s[i + 1..];
    if s[i] in s[..i] {
      k :| 0 <= k < i && s[k] == s[i];
    } else {
      assert s[i] in s[i + 1..];
      var k' :| 0 <= k' < |s[i + 1..]| && s[i + 1..][k'] == s[i];
      k := i + 1 + k';
    }
  }

  // ----- the grid -----

  /** Math.ceil(count / columns) */
  function RowsFor(count: nat, columns: nat): (rows: nat)
    requires columns > 0
  {
    if count == 0 then 0 else (count - 1) / columns + 1
  }

  lemma DivideMonotone(a: nat, b: nat, d: nat)
    requires a <= b && d > 0
    ensures a / d <= b / d
  {
    var p, q := b / d, a / d;
    assert a == q * d + a % d && b == p * d + b % d;
    assert (p + 1) * d == p * d + d;
    if p < q {
      TimesMonotone(p + 1, q, d);
      assert false;
    }
  }

  lemma TimesMonotone(x: nat, y: nat, d: nat)
    requires x <= y
    ensures x * d <= y * d
  {
  }

  lemma RowsCover(index: nat, count: nat, columns: nat)
    requires index < count && columns > 0
    ensures index / columns < RowsFor(count, columns)
  {
    DivideMonotone(index, count - 1, columns);
  }

  /** The middle of slot k out of n on a line of the given size. */
  function Middle(k: nat, n: nat, size: real): real
    requires n > 0
  {
    (k as real + 0.5) * size / n as real
  }

  function Cell(index: nat, count: nat, columns: nat, width: real, height: real): Point
    requires index < count && columns > 0
  {
    RowsCover(index, count, columns);
    Point(Middle(index % columns, columns, width), Middle(index / columns, RowsFor(count, columns), height))
  }

  lemma PositiveFactor(a: real, n: real)
    requires a * n > 0.0 && n > 0.0
    ensures a > 0.0
  {
  }

  lemma PositiveProduct(a: real, b: real)
    requires a > 0.0 && b > 0.0
    ensures a * b > 0.0
  {
  }

  lemma MiddleInside(k: nat, n: nat, size: real)
    requires k < n && size > 0.0
    ensures 0.0 < Middle(k, n, size) < size
  {
    var x, m := (k as real + 0.5) * size, Middle(k, n, size);
    assert m * n as real == x;
    var n' := n as real;
    PositiveProduct(n' - (k as real + 0.5), size);
    assert (n' - (k as real + 0.5)) * size == size * n' - x;
    assert (size - m) * n' == size * n' - x;
    PositiveFactor(size - m, n');
  }

  lemma MiddleInjective(k: nat, j: nat, n: nat, size: real)
    requires n > 0 && size > 0.0 && Middle(k, n, size) == Middle(j, n, size)
    ensures k == j
  {
    var x, y := (k as real + 0.5) * size, (j as real + 0.5) * size;
    assert Middle(k, n, size) * n as real == x && Middle(j, n, size) * n as real == y;
    assert (k as real - j as real) * size == x - y == 0.0;
  }

  lemma SplitIndex(i: nat, columns: nat)
    requires columns > 0
    ensures i == i / columns * columns + i % columns
  {
  }

  /** Cells lie inside the canvas. */
  lemma CellInside(i: nat, count: nat, columns: nat, width: real, height: real)
    requires i < count && columns > 0 && width > 0.0 && height > 0.0
    ensures var c := Cell(i, count, columns, width, height);
            0.0 < c.x < width && 0.0 < c.y < height
  {
    hide Middle, RowsFor;
    RowsCover(i, count, columns);
    MiddleInside(i % columns, columns, width);
    MiddleInside(i / columns, RowsFor(count, columns), height);
  }

  /** No two groups share a cell. */
  lemma CellsAreApart(i: nat, j: nat, count: nat, columns: nat, width: real, height: real)
    requires i < count && j < count && columns > 0 && width > 0.0 && height > 0.0
    requires Cell(i, count, columns, width, height) == Cell(j, count, columns, width, height)
    ensures i == j
  {
    hide Middle, RowsFor;
    RowsCover(i, count, columns);
    RowsCover(j, count, columns);
    MiddleInjective(i % columns, j % columns, columns, width);
    MiddleInjective(i / columns, j / columns, RowsFor(count, columns), height);
    SplitIndex(i, columns);
    SplitIndex(j, columns);
  }

  /** columns * columns cells of the canvas's shape are too few for the area. */
  predicate TooFew(columns: nat, area: real, height: real) {
    (columns * columns) as real * height < area
  }

  /** Math.max(1, Math.ceil(Math.sqrt(count * width / height))), in exact arithmetic. */
  method ColumnsFor(count: nat, width: real, height: real) returns (columns: nat)
    requires width > 0.0 && height > 0.0
    ensures columns >= 1 && !TooFew(columns, count as real * width, height)
    ensures columns > 1 ==> TooFew(columns - 1, count as real * width, height)
  {
    columns := 1;
    var area := count as real * width;
    ghost var bound := (area / height).Floor;
    hide TooFew;
    while TooFew(columns, area, height)
      invariant columns >= 1
      invariant columns > 1 ==> TooFew(columns - 1, area, height)
      decreases bound + 1 - columns
    {
      ColumnsBelow(columns, area, height);
      columns := columns + 1;
    }
  }

  lemma ColumnsBelow(columns: nat, area: real, height: real)
    requires height > 0.0 && TooFew(columns, area, height)
    ensures columns <= (area / height).Floor
  {
    var q, c := area / height, (columns * columns) as real;
    assert (q - c) * height == area - c * height;
    PositiveFactor(q - c, height);
    assert columns <= columns * columns;
  }

  // ----- the whole layout -----

  method GroupNodes<Id(==, !new)>(nodes: seq<Id>, sets: DisjointSets<Id>) returns (groups: seq<seq<Id>>)
    requires sets.Valid() && forall n :: n in nodes ==> n in sets.labels
    modifies sets`parent
    ensures sets.Valid() && (forall n :: n in nodes ==> n in sets.labels)
    ensures groups == Groups(nodes, sets.labels)
  {
    groups := [];
    ghost var seen: seq<Id> := [];
    var index: map<Id, nat> := map[];
    assert sets.labels.Keys == sets.parent.Keys;
    ghost var labels := sets.labels;
    assert seen == LabelsSeen(nodes[..0], labels) && groups == Groups(nodes[..0], labels);
    hide Groups, LabelsSeen, Members;
    for i := 0 to |nodes|
      invariant sets.Valid() && sets.labels == labels && forall n :: n in nodes ==> n in labels
      invariant seen == LabelsSeen(nodes[..i], labels) && groups == Groups(nodes[..i], labels) && |groups| == |seen|
      invariant forall x :: x in index ==> index[x] < |seen| && seen[index[x]] == x
      invariant forall j :: 0 <= j < |seen| ==> seen[j] in index
    {
      assert nodes[i] in nodes;
      var root := sets.Find(nodes[i]);
      if root in index {
        JoinsGroup(nodes, labels, i, index[root]);
        groups := groups[index[root] := groups[index[root]] + [nodes[i]]];
      } else {
        OpensGroup(nodes, labels, i);
        index := index[root := |groups|];
        seen, groups := seen + [root], groups + [[nodes[i]]];
      }
    }
    assert nodes[..|nodes|] == nodes;
  }

  lemma OpensGroup<Id(!new)>(nodes: seq<Id>, labels: map<Id, Id>, i: nat)
    requires i < |nodes| && (forall n :: n in nodes ==> n in labels) && labels[nodes[i]] !in LabelsSeen(nodes[..i], labels)
    ensures LabelsSeen(nodes[..i + 1], labels) == LabelsSeen(nodes[..i], labels) + [labels[nodes[i]]]
    ensures |Groups(nodes[..i], labels)| == |LabelsSeen(nodes[..i], labels)|
    ensures Groups(nodes[..i + 1], labels) == Groups(nodes[..i], labels) + [[nodes[i]]]
  {
    var seen := LabelsSeen(nodes[..i], labels);
    assert nodes[..i + 1][..i] == nodes[..i];
    NoMembersYet(nodes[..i], labels, labels[nodes[i]]);
    var now, extended := Groups(nodes[..i + 1], labels), Groups(nodes[..i], labels) + [[nodes[i]]];
    forall k | 0 <= k <= |seen| ensures now[k] == extended[k] {
      MembersSnoc(nodes, labels, i, (seen + [labels[nodes[i]]])[k]);
    }
  }

  lemma JoinsGroup<Id(!new)>(nodes: seq<Id>, labels: map<Id, Id>, i: nat, j: nat)
    requires i < |nodes| && (forall n :: n in nodes ==> n in labels) && j < |LabelsSeen(nodes[..i], labels)|
    requires labels[nodes[i]] == LabelsSeen(nodes[..i], labels)[j]
    ensures LabelsSeen(nodes[..i + 1], labels) == LabelsSeen(nodes[..i], labels)
    ensures var groups := Groups(nodes[..i], labels);
            |groups| == |LabelsSeen(nodes[..i], labels)|
            && Groups(nodes[..i + 1], labels) == groups[j := groups[j] + [nodes[i]]]
  {
    var seen, groups := LabelsSeen(nodes[..i], labels), Groups(nodes[..i], labels);
    assert nodes[..i + 1][..i] == nodes[..i];
    LabelsSeenOnce(nodes[..i], labels);
    var now, joined := Groups(nodes[..i + 1], labels), groups[j := groups[j] + [nodes[i]]];
    forall k | 0 <= k < |seen| ensures now[k] == joined[k] {
      MembersSnoc(nodes, labels, i, seen[k]);
    }
  }

  lemma MembersSnoc<Id(!new)>(nodes: seq<Id>, labels: map<Id, Id>, i: nat, tag: Id)
    requires i < |nodes| && (forall n :: n in nodes ==> n in labels)
    ensures Members(nodes[..i + 1], labels, tag)
            == Members(nodes[..i], labels, tag) + if labels[nodes[i]] == tag then [nodes[i]] else []
  {
    assert nodes[..i + 1][..i] == nodes[..i];
  }

  lemma {:induction false} NoMembersYet<Id>(nodes: seq<Id>, labels: map<Id, Id>, tag: Id)
    requires (forall n :: n in nodes ==> n in labels) && tag !in LabelsSeen(nodes, labels)
    ensures Members(nodes, labels, tag) == []
  {
    if nodes != [] {
      NoMembersYet(nodes[..|nodes| - 1], labels, tag);
    }
  }

  /** The components: each all nodes joined to its first one, in order; larger ones first, then by first appearance. */
  ghost predicate AreComponents<Id(!new)>(nodes: seq<Id>, links: seq<Link<Id>>, components: seq<seq<Id>>) {
    && (forall n :: n in nodes ==> exists i :: 0 <= i < |components| && n in components[i])
    && (forall i :: 0 <= i < |components| ==> components[i] != [] && components[i] == JoinedTo(nodes, links, components[i][0]))
    && (forall i, j, a, b :: 0 <= i < |components| && 0 <= j < |components| && a in components[i] && b in components[j] ==>
          (Joined(links, a, b) <==> i == j))
    && InOrder(nodes, components)
  }

  /** The least number of columns, at least one, that gives n cells of the canvas's shape enough room. */
  predicate LeastColumns(columns: nat, n: nat, width: real, height: real) {
    && columns >= 1 && (columns * columns) as real * height >= n as real * width
    && (columns > 1 ==> ((columns - 1) * (columns - 1)) as real * height < n as real * width)
  }

  /** Every node of component i is at the middle of the i-th cell, row by row, of a grid with as many rows as needed. */
  ghost predicate OnGrid<Id(!new)>(components: seq<seq<Id>>, columns: nat, rows: nat, width: real, height: real,
                                   centers: map<Id, Point>) {
    && rows * columns >= |components| && (rows > 0 ==> (rows - 1) * columns < |components|)
    && (forall i, n :: 0 <= i < |components| && n in components[i] ==>
          n in centers && CenterIs(i, columns, rows, width, height, centers[n]))
  }

  predicate CenterIs(i: nat, columns: nat, rows: nat, width: real, height: real, center: Point) {
    && rows > 0 && columns > 0
    && center.x == ((i % columns) as real + 0.5) * width / columns as real
    && center.y == ((i / columns) as real + 0.5) * height / rows as real
  }

  /**
    The layout: the components take the cells of a grid in order. Hence two nodes are drawn towards the same
    centre exactly when a path of links joins them, and every centre lies inside the canvas.
   */
  method AssignComponentCenters<Id(==, !new)>(nodes: seq<Id>, links: seq<Link<Id>>, width: real, height: real)
    returns (centers: map<Id, Point>)
    requires forall l :: l in links ==> l.source in nodes && l.target in nodes
    requires width > 0.0 && height > 0.0
    ensures exists components, columns, rows ::
              && AreComponents(nodes, links, components) && LeastColumns(columns, |components|, width, height)
              && OnGrid(components, columns, rows, width, height, centers)
    ensures forall n :: n in nodes ==> n in centers && 0.0 < centers[n].x < width && 0.0 < centers[n].y < height
    ensures forall a, b :: a in nodes && b in nodes ==> (centers[a] == centers[b] <==> Joined(links, a, b))
  {
    var sets := new DisjointSets(nodes);
    hide sets.Valid, Joined, Grouped, InOrder, AreComponents, LeastColumns, OnGrid;
    sets.UnionAll(links);
    var components := OrderedComponents(nodes, sets);
    OrderedAreComponents(nodes, links, sets.labels, components);
    var columns := ColumnsFor(|components|, width, height);
    ColumnsAreLeast(columns, |components|, width, height);
    centers := PlaceNodes(nodes, sets.labels, components, columns, width, height);
    CellsAreOnGrid(components, columns, width, height, centers);
  }

  lemma ColumnsAreLeast(columns: nat, n: nat, width: real, height: real)
    requires columns >= 1 && !TooFew(columns, n as real * width, height)
    requires columns > 1 ==> TooFew(columns - 1, n as real * width, height)
    ensures LeastColumns(columns, n, width, height)
  {
  }

  lemma RowsAreNeeded(count: nat, columns: nat)
    requires columns > 0
    ensures var rows := RowsFor(count, columns);
            rows * columns >= count && (rows > 0 ==> (rows - 1) * columns < count)
  {
    SplitIndex(count + columns - 1, columns);
  }

  lemma CellsAreOnGrid<Id(!new)>(components: seq<seq<Id>>, columns: nat, width: real, height: real, centers: map<Id, Point>)
    requires columns > 0
    requires forall i, n :: 0 <= i < |components| && n in components[i] ==>
               n in centers && centers[n] == Cell(i, |components|, columns, width, height)
    ensures OnGrid(components, columns, RowsFor(|components|, columns), width, height, centers)
  {
    RowsAreNeeded(|components|, columns);
    hide RowsFor, Cell;
    forall i, n | 0 <= i < |components| && n in components[i]
      ensures n in centers && CenterIs(i, columns, RowsFor(|components|, columns), width, height, centers[n])
    {
      CellIs(i, |components|, columns, width, height);
    }
  }

  lemma CellIs(index: nat, count: nat, columns: nat, width: real, height: real)
    requires index < count && columns > 0
    ensures CenterIs(index, columns, RowsFor(count, columns), width, height, Cell(index, count, columns, width, height))
  {
    RowsCover(index, count, columns);
  }

  /** Every group lists the nodes of one label. */
  ghost predicate ByLabel<Id(!new)>(nodes: seq<Id>, labels: map<Id, Id>, groups: seq<seq<Id>>)
    requires forall n :: n in nodes ==> n in labels
  {
    forall g :: g in groups ==> g != [] && exists tag :: g == Members(nodes, labels, tag)
  }

  lemma OrderedAreComponents<Id(!new)>(nodes: seq<Id>, links: seq<Link<Id>>, labels: map<Id, Id>, components: seq<seq<Id>>)
    requires (forall n :: n in nodes ==> n in labels) && Grouped(nodes, labels, components)
    requires InOrder(nodes, components) && ByLabel(nodes, labels, components)
    requires forall a, b :: a in labels && b in labels ==> (labels[a] == labels[b] <==> Joined(links, a, b))
    ensures AreComponents(nodes, links, components)
  {
    hide Joined, InOrder;
    forall i | 0 <= i < |components| ensures components[i] != [] && components[i] == JoinedTo(nodes, links, components[i][0]) {
      var g := components[i];
      assert g in components;
      var tag :| g == Members(nodes, labels, tag);
      MembersAre(nodes, labels, tag, g[0]);
      MembersAreJoined(nodes, links, labels, g[0]);
    }
    forall i, j, a, b | 0 <= i < |components| && 0 <= j < |components| && a in components[i] && b in components[j]
      ensures Joined(links, a, b) <==> i == j
    {
      assert a in nodes && b in nodes;
    }
  }

  /** The components, largest first. */
  method OrderedComponents<Id(==, !new)>(nodes: seq<Id>, sets: DisjointSets<Id>) returns (components: seq<seq<Id>>)
    requires sets.Valid() && forall n :: n in nodes ==> n in sets.labels
    modifies sets`parent
    ensures sets.Valid() && (forall n :: n in nodes ==> n in sets.labels)
    ensures Grouped(nodes, sets.labels, components) && InOrder(nodes, components) && ByLabel(nodes, sets.labels, components)
  {
    hide Groups, Grouped, SortBySize, BySize, InOrder, Appearing, ByLabel;
    var found := GroupNodes(nodes, sets);
    components := SortBySize(found);
    GroupsSplit(nodes, sets.labels);
    SortSorts(found);
    ReorderedSplit(nodes, sets.labels, found, components);
    assert nodes[..|nodes|] == nodes;
    GroupsAppear(nodes, sets.labels, |nodes|);
    SortInOrder(nodes, found);
    SortedByLabel(nodes, sets.labels, found, components);
  }

  lemma SortedByLabel<Id(!new)>(nodes: seq<Id>, labels: map<Id, Id>, found: seq<seq<Id>>, components: seq<seq<Id>>)
    requires (forall n :: n in nodes ==> n in labels) && found == Groups(nodes, labels)
    requires (forall h :: h in components ==> h in found) && forall k :: 0 <= k < |found| ==> found[k] != []
    ensures ByLabel(nodes, labels, components)
  {
    forall g | g in components ensures g != [] && exists tag :: g == Members(nodes, labels, tag) {
      var k :| 0 <= k < |found| && found[k] == g;
      assert g == Members(nodes, labels, LabelsSeen(nodes, labels)[k]);
    }
  }

  method PlaceNodes<Id(==, !new)>(nodes: seq<Id>, ghost labels: map<Id, Id>, components: seq<seq<Id>>, columns: nat,
                                  width: real, height: real)
    returns (centers: map<Id, Point>)
    requires Grouped(nodes, labels, components) && columns > 0 && width > 0.0 && height > 0.0
    ensures forall i, n :: 0 <= i < |components| && n in components[i] ==>
              n in centers && centers[n] == Cell(i, |components|, columns, width, height)
    ensures forall n :: n in nodes ==> n in centers && 0.0 < centers[n].x < width && 0.0 < centers[n].y < height
    ensures forall a, b :: a in nodes && b in nodes ==> (centers[a] == centers[b] <==> labels[a] == labels[b])
  {
    centers := map[];
    hide Cell;
    for index := 0 to |components|
      invariant forall i, n :: 0 <= i < index && n in components[i] ==>
                  n in centers && centers[n] == Cell(i, |components|, columns, width, height)
    {
      var center := Cell(index, |components|, columns, width, height);
      for k := 0 to |components[index]|
        invariant forall i, n :: 0 <= i < index && n in components[i] ==>
                    n in centers && centers[n] == Cell(i, |components|, columns, width, height)
        invariant forall n :: n in components[index][..k] ==> n in centers && centers[n] == center
      {
        var node := components[index][k];
        assert node in components[index] && node in nodes && node in labels;
        centers := centers[node := center];
      }
      assert components[index][..|components[index]|] == components[index];
    }
    PlacedNodes(nodes, labels, components, columns, width, height, centers);
  }

  lemma PlacedNodes<Id(!new)>(nodes: seq<Id>, labels: map<Id, Id>, components: seq<seq<Id>>, columns: nat,
                              width: real, height: real, centers: map<Id, Point>)
    requires Grouped(nodes, labels, components) && columns > 0 && width > 0.0 && height > 0.0
    requires forall i, n :: 0 <= i < |components| && n in components[i] ==>
               n in centers && centers[n] == Cell(i, |components|, columns, width, height)
    ensures forall n :: n in nodes ==> n in centers && 0.0 < centers[n].x < width && 0.0 < centers[n].y < height
    ensures forall a, b :: a in nodes && b in nodes ==> (centers[a] == centers[b] <==> labels[a] == labels[b])
  {
    hide Cell;
    forall n | n in nodes ensures n in centers && 0.0 < centers[n].x < width && 0.0 < centers[n].y < height {
      var i :| 0 <= i < |components| && n in components[i];
      CellInside(i, |components|, columns, width, height);
    }
    forall a, b | a in nodes && b in nodes ensures centers[a] == centers[b] <==> labels[a] == labels[b] {
      var i :| 0 <= i < |components| && a in components[i];
      var j :| 0 <= j < |components| && b in components[j];
      if centers[a] == centers[b] {
        CellsAreApart(i, j, |components|, columns, width, height);
      }
    }
  }
}
