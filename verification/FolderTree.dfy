/**
 The folder tree. Folder parents come from last-writer-wins merges, so they may form cycles;
 the builder must terminate all the same, and must place every notebook it can reach once.
 */
module FolderTree {
  import opened Basics

  datatype Folder = Folder(id: string, name: string, parent: string)

  datatype Notebook = Notebook(id: string, name: string, folder: string)

  datatype Node = Node(id: string, name: string, notebooks: seq<Notebook>, children: seq<Node>)

  // ---- the tables the builder fills ----

  function Ids(fs: seq<Folder>): set<string> {
    set f | f in fs :: f.id
  }

  ghost predicate UniqueIds(fs: seq<Folder>) {
    forall i, j :: 0 <= i < j < |fs| ==> fs[i].id != fs[j].id
  }

  /** A folder or notebook hangs under `under` if that names a live folder. */
  predicate Filed(live: set<string>, under: string) {
    under != "" && under in live
  }

  function NotebooksIn(nbs: seq<Notebook>, live: set<string>, id: string): seq<Notebook> {
    if nbs == [] then []
    else
      var n := nbs[|nbs| - 1];
      NotebooksIn(nbs[..|nbs| - 1], live, id) + if Filed(live, n.folder) && n.folder == id then [n] else []
  }

  function Unfiled(nbs: seq<Notebook>, live: set<string>): seq<Notebook> {
    if nbs == [] then []
    else
      var n := nbs[|nbs| - 1];
      Unfiled(nbs[..|nbs| - 1], live) + if Filed(live, n.folder) then [] else [n]
  }

  function ChildrenOf(fs: seq<Folder>, live: set<string>, id: string): seq<Folder> {
    if fs == [] then []
    else
      var f := fs[|fs| - 1];
      ChildrenOf(fs[..|fs| - 1], live, id) + if Filed(live, f.parent) && f.parent == id then [f] else []
  }

  function Roots(fs: seq<Folder>, live: set<string>): seq<Folder> {
    if fs == [] then []
    else
      var f := fs[|fs| - 1];
      Roots(fs[..|fs| - 1], live) + if Filed(live, f.parent) then [] else [f]
  }

  lemma {:induction false} ChildrenMember(fs: seq<Folder>, live: set<string>, id: string, f: Folder)
    ensures f in ChildrenOf(fs, live, id) <==> f in fs && Filed(live, f.parent) && f.parent == id
  {
    if fs != [] {
      ChildrenMember(fs[..|fs| - 1], live, id, f);
      assert fs == fs[..|fs| - 1] + [fs[|fs| - 1]];
    }
  }

  lemma {:induction false} RootsMember(fs: seq<Folder>, live: set<string>, f: Folder)
    ensures f in Roots(fs, live) <==> f in fs && !Filed(live, f.parent)
  {
    if fs != [] {
      RootsMember(fs[..|fs| - 1], live, f);
      assert fs == fs[..|fs| - 1] + [fs[|fs| - 1]];
    }
  }

  lemma {:induction false} ChildrenUnique(fs: seq<Folder>, live: set<string>, id: string)
    requires UniqueIds(fs)
    ensures UniqueIds(ChildrenOf(fs, live, id))
  {
    if fs != [] {
      var p, f := fs[..|fs| - 1], fs[|fs| - 1];
      ChildrenUnique(p, live, id);
      forall c | c in ChildrenOf(p, live, id)
        ensures c.id != f.id
      {
        ChildrenMember(p, live, id, c);
        var i :| 0 <= i < |p| && p[i] == c;
        assert fs[i].id != fs[|fs| - 1].id;
      }
    }
  }

  lemma {:induction false} RootsUnique(fs: seq<Folder>, live: set<string>)
    requires UniqueIds(fs)
    ensures UniqueIds(Roots(fs, live))
  {
    if fs != [] {
      var p, f := fs[..|fs| - 1], fs[|fs| - 1];
      RootsUnique(p, live);
      forall c | c in Roots(p, live)
        ensures c.id != f.id
      {
        RootsMember(p, live, c);
        var i :| 0 <= i < |p| && p[i] == c;
        assert fs[i].id != fs[|fs| - 1].id;
      }
    }
  }

  // ---- chains: paths from a root ----

  /** A path of folders from a root down, each the parent of the next. */
  ghost predicate Chain(fs: seq<Folder>, p: seq<Folder>) {
    && (forall i :: 0 <= i < |p| ==> p[i] in fs)
    && (p != [] ==> !Filed(Ids(fs), p[0].parent))
    && (forall i :: 0 < i < |p| ==> Filed(Ids(fs), p[i].parent) && p[i].parent == p[i - 1].id)
  }

  /** Climbing two chains from one folder meets the same ancestors. */
  lemma {:induction false} ClimbTogether(fs: seq<Folder>, p: seq<Folder>, q: seq<Folder>, i: int, j: int)
    requires UniqueIds(fs) && Chain(fs, p) && Chain(fs, q) && 0 <= i < |p| && 0 <= j < |q| && p[i] == q[j]
    ensures i == j && p[..i + 1] == q[..j + 1]
    decreases i
  {
    if i > 0 && j > 0 {
      ClimbTogether(fs, p, q, i - 1, j - 1);
      assert p[..i + 1] == p[..i] + [p[i]] && q[..j + 1] == q[..j] + [q[j]];
    }
  }

  /** No folder repeats on a chain, so no cycle is ever entered from a root. */
  lemma ChainDistinct(fs: seq<Folder>, p: seq<Folder>)
    requires UniqueIds(fs) && Chain(fs, p)
    ensures forall i, j :: 0 <= i < j < |p| ==> p[i] != p[j]
  {
    forall i, j | 0 <= i < j < |p|
      ensures p[i] != p[j]
    {
      if p[i] == p[j] {
        ClimbTogether(fs, p, p, i, j);
      }
    }
  }

  lemma {:induction false} DistinctBound(p: seq<Folder>, s: set<Folder>)
    requires forall i, j :: 0 <= i < j < |p| ==> p[i] != p[j]
    requires forall i :: 0 <= i < |p| ==> p[i] in s
    ensures |p| <= |s|
  {
    if p != [] {
      var k := |p| - 1;
      DistinctBound(p[..k], s - {p[k]});
    }
  }

  lemma {:induction false} SetOfSeq(fs: seq<Folder>)
    ensures |set f | f in fs| <= |fs|
  {
    if fs != [] {
      var p := fs[..|fs| - 1];
      SetOfSeq(p);
      assert (set f | f in fs) == (set f | f in p) + {fs[|fs| - 1]};
    }
  }

  /** A chain is no longer than the table, which is what bounds the recursion. */
  lemma ChainBound(fs: seq<Folder>, p: seq<Folder>)
    requires UniqueIds(fs) && Chain(fs, p)
    ensures |p| <= |fs|
  {
    ChainDistinct(fs, p);
    SetOfSeq(fs);
    DistinctBound(p, set f | f in fs);
  }

  /** The folders the builder visits below a chain. */
  function Kids(fs: seq<Folder>, p: seq<Folder>): seq<Folder> {
    if p == [] then Roots(fs, Ids(fs)) else ChildrenOf(fs, Ids(fs), p[|p| - 1].id)
  }

  lemma KidsExtend(fs: seq<Folder>, p: seq<Folder>, f: Folder)
    requires Chain(fs, p)
    ensures f in Kids(fs, p) <==> Chain(fs, p + [f])
  {
    var q := p + [f];
    if p == [] {
      RootsMember(fs, Ids(fs), f);
    } else {
      ChildrenMember(fs, Ids(fs), p[|p| - 1].id, f);
    }
    assert forall i :: 0 <= i < |p| ==> q[i] == p[i];
    assert q[|p|] == f;
  }

  // ---- the tree, as a function of the tables ----

  ghost function NodeAt(fs: seq<Folder>, nbs: seq<Notebook>, p: seq<Folder>): Node
    requires UniqueIds(fs) && Chain(fs, p) && p != []
    decreases |fs| - |p|, 1, 0
  {
    ChainBound(fs, p);
    var f := p[|p| - 1];
    Node(f.id, f.name, NotebooksIn(nbs, Ids(fs), f.id), Forest(fs, nbs, p, Kids(fs, p)))
  }

  ghost function Forest(fs: seq<Folder>, nbs: seq<Notebook>, p: seq<Folder>, cs: seq<Folder>): (r: seq<Node>)
    requires UniqueIds(fs) && Chain(fs, p) && forall c :: c in cs ==> c in Kids(fs, p)
    ensures |r| == |cs|
    decreases |fs| - |p|, 0, |cs|
  {
    if cs == [] then []
    else
      var k := |cs| - 1;
      assert forall c :: c in cs[..k] ==> c in cs;
      assert cs[k] in cs;
      KidsExtend(fs, p, cs[k]);
      ChainBound(fs, p + [cs[k]]);
      Forest(fs, nbs, p, cs[..k]) + [NodeAt(fs, nbs, p + [cs[k]])]
  }

  ghost function TreeOf(fs: seq<Folder>, nbs: seq<Notebook>): seq<Node>
    requires UniqueIds(fs)
  {
    Forest(fs, nbs, [], Kids(fs, []))
  }

  // ---- the same, node by node ----

  /** An id that names a folder of the table. */
  ghost predicate Names(fs: seq<Folder>, id: string) {
    id != "" && exists f :: f in fs && f.id == id
  }

  /** A node shows its folder, the folder's notebooks in table order, and below it the folder's child folders in table order. */
  ghost predicate NodeFits(fs: seq<Folder>, nbs: seq<Notebook>, n: Node, f: Folder)
    decreases n, 1
  {
    && n.id == f.id && n.name == f.name
    && Picks(nbs, (x: Notebook) => x.folder == f.id && Names(fs, f.id), n.notebooks)
    && exists cs :: Picks(fs, (g: Folder) => g.parent == f.id && Names(fs, f.id), cs) && NodesFit(fs, nbs, n.children, cs)
  }

  ghost predicate NodesFit(fs: seq<Folder>, nbs: seq<Notebook>, ns: seq<Node>, cs: seq<Folder>)
    decreases ns, 0
  {
    |ns| == |cs| && forall i :: 0 <= i < |ns| ==> NodeFits(fs, nbs, ns[i], cs[i])
  }

  /** At the top stand the folders whose parent names no folder; unfiled are the notebooks whose folder names none. */
  ghost predicate TreeFits(fs: seq<Folder>, nbs: seq<Notebook>, roots: seq<Node>, unfiled: seq<Notebook>) {
    && (exists cs :: Picks(fs, (g: Folder) => !Names(fs, g.parent), cs) && NodesFit(fs, nbs, roots, cs))
    && Picks(nbs, (x: Notebook) => !Names(fs, x.folder), unfiled)
  }

  lemma FiledIff(fs: seq<Folder>, id: string)
    ensures Filed(Ids(fs), id) <==> Names(fs, id)
  {
    if Names(fs, id) {
      var f :| f in fs && f.id == id;
    }
  }

  lemma {:induction false} NotebooksPicked(fs: seq<Folder>, nbs: seq<Notebook>, id: string)
    ensures Picks(nbs, (x: Notebook) => x.folder == id && Names(fs, id), NotebooksIn(nbs, Ids(fs), id))
    ensures Picks(nbs, (x: Notebook) => !Names(fs, x.folder), Unfiled(nbs, Ids(fs)))
  {
    var inside, outside := (x: Notebook) => x.folder == id && Names(fs, id), (x: Notebook) => !Names(fs, x.folder);
    if nbs == [] {
      PicksNone(inside);
      PicksNone(outside);
    } else {
      var p, n := nbs[..|nbs| - 1], nbs[|nbs| - 1];
      NotebooksPicked(fs, p, id);
      FiledIff(fs, n.folder);
      PicksNext(p, inside, NotebooksIn(p, Ids(fs), id), n);
      PicksNext(p, outside, Unfiled(p, Ids(fs)), n);
      assert nbs == p + [n];
    }
  }

  lemma {:induction false} FoldersPicked(fs: seq<Folder>, table: seq<Folder>, id: string)
    ensures Picks(table, (g: Folder) => g.parent == id && Names(fs, id), ChildrenOf(table, Ids(fs), id))
    ensures Picks(table, (g: Folder) => !Names(fs, g.parent), Roots(table, Ids(fs)))
  {
    var below, top := (g: Folder) => g.parent == id && Names(fs, id), (g: Folder) => !Names(fs, g.parent);
    if table == [] {
      PicksNone(below);
      PicksNone(top);
    } else {
      var p, f := table[..|table| - 1], table[|table| - 1];
      FoldersPicked(fs, p, id);
      FiledIff(fs, f.parent);
      PicksNext(p, below, ChildrenOf(p, Ids(fs), id), f);
      PicksNext(p, top, Roots(p, Ids(fs)), f);
      assert table == p + [f];
    }
  }

  lemma {:induction false} NodeAtFits(fs: seq<Folder>, nbs: seq<Notebook>, p: seq<Folder>)
    requires UniqueIds(fs) && Chain(fs, p) && p != []
    ensures NodeFits(fs, nbs, NodeAt(fs, nbs, p), p[|p| - 1])
    decreases |fs| - |p|, 1, 0
  {
    ChainBound(fs, p);
    var id := p[|p| - 1].id;
    NotebooksPicked(fs, nbs, id);
    FoldersPicked(fs, fs, id);
    ForestFits(fs, nbs, p, Kids(fs, p));
  }

  lemma {:induction false} ForestFits(fs: seq<Folder>, nbs: seq<Notebook>, p: seq<Folder>, cs: seq<Folder>)
    requires UniqueIds(fs) && Chain(fs, p) && forall c :: c in cs ==> c in Kids(fs, p)
    ensures NodesFit(fs, nbs, Forest(fs, nbs, p, cs), cs)
    decreases |fs| - |p|, 0, |cs|
  {
    if cs != [] {
      var q, c := cs[..|cs| - 1], cs[|cs| - 1];
      assert cs == q + [c];
      ForestSnoc(fs, nbs, p, q, c);
      ChainBound(fs, p + [c]);
      ForestFits(fs, nbs, p, q);
      NodeAtFits(fs, nbs, p + [c]);
      NodesFitSnoc(fs, nbs, Forest(fs, nbs, p, q), q, NodeAt(fs, nbs, p + [c]), c);
    }
  }

  lemma NodesFitSnoc(fs: seq<Folder>, nbs: seq<Notebook>, ns: seq<Node>, cs: seq<Folder>, n: Node, c: Folder)
    requires NodesFit(fs, nbs, ns, cs) && NodeFits(fs, nbs, n, c)
    ensures NodesFit(fs, nbs, ns + [n], cs + [c])
  {
  }

  lemma TreeOfFits(fs: seq<Folder>, nbs: seq<Notebook>)
    requires UniqueIds(fs)
    ensures TreeFits(fs, nbs, TreeOf(fs, nbs), Unfiled(nbs, Ids(fs)))
  {
    NotebooksPicked(fs, nbs, "");
    FoldersPicked(fs, fs, "");
    ForestFits(fs, nbs, [], Kids(fs, []));
  }

  // ---- the builder ----

  function Lookup<T>(m: map<string, seq<T>>, id: string): seq<T> {
    if id in m then m[id] else []
  }

  method BuildForestNoteTree(fs: seq<Folder>, nbs: seq<Notebook>) returns (roots: seq<Node>, unfiled: seq<Notebook>)
    requires UniqueIds(fs)
    ensures TreeFits(fs, nbs, roots, unfiled)
    ensures roots == TreeOf(fs, nbs) && unfiled == Unfiled(nbs, Ids(fs))
  {
    TreeOfFits(fs, nbs);
    var live := LiveIds(fs);
    var nbByFolder;
    nbByFolder, unfiled := FileNotebooks(nbs, live);
    var childFolders, rootFolders := FileFolders(fs, live);
    roots := BuildAll(fs, nbs, nbByFolder, childFolders, [], rootFolders);
  }

  method LiveIds(fs: seq<Folder>) returns (live: set<string>)
    ensures live == Ids(fs)
  {
    live := {};
    for i := 0 to |fs|
      invariant live == Ids(fs[..i])
    {
      live := live + {fs[i].id};
      assert Ids(fs[..i + 1]) == Ids(fs[..i]) + {fs[i].id};
    }
    assert fs[..|fs|] == fs;
  }

  lemma NotebooksInNext(nbs: seq<Notebook>, live: set<string>, i: nat, id: string)
    requires i < |nbs|
    ensures NotebooksIn(nbs[..i + 1], live, id)
            == NotebooksIn(nbs[..i], live, id) + if Filed(live, nbs[i].folder) && nbs[i].folder == id then [nbs[i]] else []
    ensures Unfiled(nbs[..i + 1], live) == Unfiled(nbs[..i], live) + if Filed(live, nbs[i].folder) then [] else [nbs[i]]
  {
    assert nbs[..i + 1][..i] == nbs[..i];
  }

  method FileNotebooks(nbs: seq<Notebook>, live: set<string>)
    returns (nbByFolder: map<string, seq<Notebook>>, unfiled: seq<Notebook>)
    ensures unfiled == Unfiled(nbs, live)
    ensures forall id :: Lookup(nbByFolder, id) == NotebooksIn(nbs, live, id)
  {
    nbByFolder, unfiled := map[], [];
    for i := 0 to |nbs|
      invariant unfiled == Unfiled(nbs[..i], live)
      invariant forall id :: Lookup(nbByFolder, id) == NotebooksIn(nbs[..i], live, id)
    {
      var n := nbs[i];
      ghost var was := nbByFolder;
      if n.folder == "" || n.folder !in live {
        unfiled := unfiled + [n];
      } else {
        nbByFolder := nbByFolder[n.folder := Lookup(nbByFolder, n.folder) + [n]];
      }
      NotebooksInNext(nbs, live, i, n.folder);
      forall id
        ensures Lookup(nbByFolder, id) == NotebooksIn(nbs[..i + 1], live, id)
      {
        NotebooksInNext(nbs, live, i, id);
        assert Lookup(was, id) == NotebooksIn(nbs[..i], live, id);
      }
    }
    assert nbs[..|nbs|] == nbs;
  }

  lemma ChildrenNext(fs: seq<Folder>, live: set<string>, i: nat, id: string)
    requires i < |fs|
    ensures ChildrenOf(fs[..i + 1], live, id)
            == ChildrenOf(fs[..i], live, id) + if Filed(live, fs[i].parent) && fs[i].parent == id then [fs[i]] else []
    ensures Roots(fs[..i + 1], live) == Roots(fs[..i], live) + if Filed(live, fs[i].parent) then [] else [fs[i]]
  {
    assert fs[..i + 1][..i] == fs[..i];
  }

  method FileFolders(fs: seq<Folder>, live: set<string>)
    returns (childFolders: map<string, seq<Folder>>, rootFolders: seq<Folder>)
    ensures rootFolders == Roots(fs, live)
    ensures forall id :: Lookup(childFolders, id) == ChildrenOf(fs, live, id)
  {
    childFolders, rootFolders := map[], [];
    for i := 0 to |fs|
      invariant rootFolders == Roots(fs[..i], live)
      invariant forall id :: Lookup(childFolders, id) == ChildrenOf(fs[..i], live, id)
    {
      var f := fs[i];
      ghost var was := childFolders;
      if f.parent == "" || f.parent !in live {
        rootFolders := rootFolders + [f];
      } else {
        childFolders := childFolders[f.parent := Lookup(childFolders, f.parent) + [f]];
      }
      ChildrenNext(fs, live, i, f.parent);
      forall id
        ensures Lookup(childFolders, id) == ChildrenOf(fs[..i + 1], live, id)
      {
        ChildrenNext(fs, live, i, id);
        assert Lookup(was, id) == ChildrenOf(fs[..i], live, id);
      }
    }
    assert fs[..|fs|] == fs;
  }

  /** The two maps say what the tables say. */
  ghost predicate Indexed(fs: seq<Folder>, nbs: seq<Notebook>, nbByFolder: map<string, seq<Notebook>>, childFolders: map<string, seq<Folder>>) {
    forall id :: Lookup(nbByFolder, id) == NotebooksIn(nbs, Ids(fs), id) && Lookup(childFolders, id) == ChildrenOf(fs, Ids(fs), id)
  }

  /** The subtree of the folder at the end of a chain. */
  method Build(ghost fs: seq<Folder>, ghost nbs: seq<Notebook>, nbByFolder: map<string, seq<Notebook>>,
               childFolders: map<string, seq<Folder>>, ghost p: seq<Folder>, f: Folder) returns (node: Node)
    requires UniqueIds(fs) && Chain(fs, p) && p != [] && p[|p| - 1] == f && Indexed(fs, nbs, nbByFolder, childFolders)
    ensures node == NodeAt(fs, nbs, p)
    decreases |fs| - |p|, 1
  {
    ChainBound(fs, p);
    var kids := Lookup(childFolders, f.id);
    assert kids == Kids(fs, p);
    var children := BuildAll(fs, nbs, nbByFolder, childFolders, p, kids);
    node := Node(f.id, f.name, Lookup(nbByFolder, f.id), children);
  }

  /** The subtrees of the first i folders below a chain. */
  ghost function ForestTo(fs: seq<Folder>, nbs: seq<Notebook>, p: seq<Folder>, i: nat): seq<Node>
    requires UniqueIds(fs) && Chain(fs, p) && i <= |Kids(fs, p)|
  {
    Forest(fs, nbs, p, Kids(fs, p)[..i])
  }

  lemma ForestNext(fs: seq<Folder>, nbs: seq<Notebook>, p: seq<Folder>, i: nat)
    requires UniqueIds(fs) && Chain(fs, p) && i < |Kids(fs, p)|
    ensures var c := Kids(fs, p)[i];
            Chain(fs, p + [c]) && |p| < |fs| && ForestTo(fs, nbs, p, i + 1) == ForestTo(fs, nbs, p, i) + [NodeAt(fs, nbs, p + [c])]
  {
    var cs := Kids(fs, p);
    assert cs[..i + 1][..i] == cs[..i] && cs[i] in cs;
    KidsExtend(fs, p, cs[i]);
    ChainBound(fs, p + [cs[i]]);
  }

  lemma ForestEnds(fs: seq<Folder>, nbs: seq<Notebook>, p: seq<Folder>)
    requires UniqueIds(fs) && Chain(fs, p)
    ensures ForestTo(fs, nbs, p, 0) == [] && ForestTo(fs, nbs, p, |Kids(fs, p)|) == Forest(fs, nbs, p, Kids(fs, p))
  {
    var cs := Kids(fs, p);
    assert cs[..|cs|] == cs && cs[..0] == [];
  }

  /** The subtree of each folder in turn. */
  method BuildAll(ghost fs: seq<Folder>, ghost nbs: seq<Notebook>, nbByFolder: map<string, seq<Notebook>>,
                  childFolders: map<string, seq<Folder>>, ghost p: seq<Folder>, cs: seq<Folder>) returns (nodes: seq<Node>)
    requires UniqueIds(fs) && Chain(fs, p) && cs == Kids(fs, p) && Indexed(fs, nbs, nbByFolder, childFolders)
    ensures nodes == Forest(fs, nbs, p, cs)
    decreases |fs| - |p|, 0
  {
    nodes := [];
    ForestEnds(fs, nbs, p);
    for i := 0 to |cs|
      invariant nodes == ForestTo(fs, nbs, p, i)
    {
      ForestNext(fs, nbs, p, i);
      var node := Build(fs, nbs, nbByFolder, childFolders, p + [cs[i]], cs[i]);
      nodes := nodes + [node];
    }
  }

  // ---- how often a folder appears ----

  function CountId(n: Node, id: string): nat
    decreases n, 1
  {
    (if n.id == id then 1 else 0) + CountIdAll(n.children, id)
  }

  function CountIdAll(ns: seq<Node>, id: string): nat
    decreases ns, 0, |ns|
  {
    if ns == [] then 0 else CountIdAll(ns[..|ns| - 1], id) + CountId(ns[|ns| - 1], id)
  }

  ghost predicate Prefix(p: seq<Folder>, q: seq<Folder>) {
    |p| <= |q| && q[..|p|] == p
  }

  lemma NodeCounts(fs: seq<Folder>, nbs: seq<Notebook>, p: seq<Folder>, id: string)
    requires UniqueIds(fs) && Chain(fs, p) && p != []
    ensures CountId(NodeAt(fs, nbs, p), id)
            == (if p[|p| - 1].id == id then 1 else 0) + CountIdAll(Forest(fs, nbs, p, Kids(fs, p)), id)
  {
  }

  lemma ForestSnoc(fs: seq<Folder>, nbs: seq<Notebook>, p: seq<Folder>, cs: seq<Folder>, c: Folder)
    requires UniqueIds(fs) && Chain(fs, p) && (forall x :: x in cs + [c] ==> x in Kids(fs, p))
    ensures (forall x :: x in cs ==> x in Kids(fs, p)) && Chain(fs, p + [c])
    ensures Forest(fs, nbs, p, cs + [c]) == Forest(fs, nbs, p, cs) + [NodeAt(fs, nbs, p + [c])]
  {
    assert forall x :: x in cs ==> x in cs + [c];
    assert c in cs + [c];
    KidsExtend(fs, p, c);
    assert (cs + [c])[..|cs|] == cs && (cs + [c])[|cs|] == c;
  }

  lemma CountSnoc(ns: seq<Node>, n: Node, id: string)
    ensures CountIdAll(ns + [n], id) == CountIdAll(ns, id) + CountId(n, id)
  {
    assert (ns + [n])[..|ns|] == ns;
  }

  lemma ForestCounts(fs: seq<Folder>, nbs: seq<Notebook>, p: seq<Folder>, cs: seq<Folder>, c: Folder, id: string)
    requires UniqueIds(fs) && Chain(fs, p) && (forall x :: x in cs + [c] ==> x in Kids(fs, p))
    ensures (forall x :: x in cs ==> x in Kids(fs, p)) && Chain(fs, p + [c])
    ensures CountIdAll(Forest(fs, nbs, p, cs + [c]), id)
            == CountIdAll(Forest(fs, nbs, p, cs), id) + CountId(NodeAt(fs, nbs, p + [c]), id)
  {
    ForestSnoc(fs, nbs, p, cs, c);
    CountSnoc(Forest(fs, nbs, p, cs), NodeAt(fs, nbs, p + [c]), id);
  }

  /** Below the chain p, the folder at the end of chain q appears once if p leads to it, and otherwise never. */
  lemma {:induction false} CountNode(fs: seq<Folder>, nbs: seq<Notebook>, p: seq<Folder>, q: seq<Folder>)
    requires UniqueIds(fs) && Chain(fs, p) && p != [] && Chain(fs, q) && q != []
    ensures CountId(NodeAt(fs, nbs, p), q[|q| - 1].id) == if Prefix(p, q) then 1 else 0
    decreases |fs| - |p|, 1, 0
  {
    ChainBound(fs, p);
    NodeCounts(fs, nbs, p, q[|q| - 1].id);
    CountForest(fs, nbs, p, q, |Kids(fs, p)|);
    ForestEnds(fs, nbs, p);
    assert Kids(fs, p)[..|Kids(fs, p)|] == Kids(fs, p);
    EndsOrGoesOn(fs, p, q);
  }

  /** A chain that p leads along ends with p or goes on below it, and not both. */
  lemma EndsOrGoesOn(fs: seq<Folder>, p: seq<Folder>, q: seq<Folder>)
    requires UniqueIds(fs) && Chain(fs, p) && p != [] && Chain(fs, q) && q != []
    ensures (if p[|p| - 1].id == q[|q| - 1].id then 1 else 0) + (if GoesOn(p, q, Kids(fs, p)) then 1 else 0) == if Prefix(p, q) then 1 else 0
  {
    SameEnd(fs, p, q);
    if Prefix(p, q) && |p| < |q| {
      NextOnChain(fs, p, q);
    }
    if Prefix(p, q) && |p| == |q| {
      assert p == q;
    }
  }

  lemma SameEnd(fs: seq<Folder>, p: seq<Folder>, q: seq<Folder>)
    requires UniqueIds(fs) && Chain(fs, p) && p != [] && Chain(fs, q) && q != []
    ensures p[|p| - 1].id == q[|q| - 1].id <==> p == q
  {
    var f, g := p[|p| - 1], q[|q| - 1];
    if f.id == g.id {
      assert f in fs && g in fs;
      ClimbTogether(fs, p, q, |p| - 1, |q| - 1);
    }
  }

  lemma NextOnChain(fs: seq<Folder>, p: seq<Folder>, q: seq<Folder>)
    requires Chain(fs, p) && Chain(fs, q) && Prefix(p, q) && |p| < |q|
    ensures q[|p|] in Kids(fs, p)
  {
    var r := p + [q[|p|]];
    assert r == q[..|p| + 1];
    forall i | 0 <= i < |r|
      ensures r[i] == q[i]
    {
    }
    KidsExtend(fs, p, q[|p|]);
  }

  lemma KidsUnique(fs: seq<Folder>, p: seq<Folder>)
    requires UniqueIds(fs)
    ensures UniqueIds(Kids(fs, p))
  {
    if p == [] {
      RootsUnique(fs, Ids(fs));
    } else {
      ChildrenUnique(fs, Ids(fs), p[|p| - 1].id);
    }
  }

  /** The chain q goes on from p with one of the folders cs. */
  ghost predicate GoesOn(p: seq<Folder>, q: seq<Folder>, cs: seq<Folder>) {
    Prefix(p, q) && |p| < |q| && q[|p|] in cs
  }

  lemma GoesOnSnoc(p: seq<Folder>, q: seq<Folder>, cs: seq<Folder>, c: Folder)
    requires c !in cs
    ensures (if GoesOn(p, q, cs + [c]) then 1 else 0) == (if GoesOn(p, q, cs) then 1 else 0) + if Prefix(p + [c], q) then 1 else 0
  {
  }

  /** The i-th folder below a chain is not among the first i, so it adds at most one. */
  lemma GoesOnNext(fs: seq<Folder>, p: seq<Folder>, q: seq<Folder>, i: nat)
    requires UniqueIds(fs) && i < |Kids(fs, p)|
    ensures var cs := Kids(fs, p);
            (if GoesOn(p, q, cs[..i + 1]) then 1 else 0) == (if GoesOn(p, q, cs[..i]) then 1 else 0) + if Prefix(p + [cs[i]], q) then 1 else 0
  {
    var cs := Kids(fs, p);
    KidsUnique(fs, p);
    assert cs[i] !in cs[..i] by {
      forall j | 0 <= j < i
        ensures cs[j] != cs[i]
      {
        assert cs[j].id != cs[i].id;
      }
    }
    GoesOnSnoc(p, q, cs[..i], cs[i]);
    assert cs[..i + 1] == cs[..i] + [cs[i]];
  }

  lemma {:induction false} CountForest(fs: seq<Folder>, nbs: seq<Notebook>, p: seq<Folder>, q: seq<Folder>, i: nat)
    requires UniqueIds(fs) && Chain(fs, p) && Chain(fs, q) && q != [] && i <= |Kids(fs, p)|
    ensures CountIdAll(ForestTo(fs, nbs, p, i), q[|q| - 1].id) == if GoesOn(p, q, Kids(fs, p)[..i]) then 1 else 0
    decreases |fs| - |p|, 0, i
  {
    if i == 0 {
      ForestEnds(fs, nbs, p);
    } else {
      KidsAreChains(fs, p, i - 1);
      CountForest(fs, nbs, p, q, i - 1);
      CountNode(fs, nbs, p + [Kids(fs, p)[i - 1]], q);
      CountAdds(fs, nbs, p, q, i - 1);
    }
  }

  lemma KidsAreChains(fs: seq<Folder>, p: seq<Folder>, i: nat)
    requires UniqueIds(fs) && Chain(fs, p) && i < |Kids(fs, p)|
    ensures Chain(fs, p + [Kids(fs, p)[i]]) && |p| < |fs|
  {
    KidsExtend(fs, p, Kids(fs, p)[i]);
    ChainBound(fs, p + [Kids(fs, p)[i]]);
  }

  lemma CountAdds(fs: seq<Folder>, nbs: seq<Notebook>, p: seq<Folder>, q: seq<Folder>, i: nat)
    requires UniqueIds(fs) && Chain(fs, p) && q != [] && i < |Kids(fs, p)| && Chain(fs, p + [Kids(fs, p)[i]])
    requires CountIdAll(ForestTo(fs, nbs, p, i), q[|q| - 1].id) == if GoesOn(p, q, Kids(fs, p)[..i]) then 1 else 0
    requires CountId(NodeAt(fs, nbs, p + [Kids(fs, p)[i]]), q[|q| - 1].id) == if Prefix(p + [Kids(fs, p)[i]], q) then 1 else 0
    ensures CountIdAll(ForestTo(fs, nbs, p, i + 1), q[|q| - 1].id) == if GoesOn(p, q, Kids(fs, p)[..i + 1]) then 1 else 0
  {
    CountNext(fs, nbs, p, i, q[|q| - 1].id);
    GoesOnNext(fs, p, q, i);
  }

  lemma CountNext(fs: seq<Folder>, nbs: seq<Notebook>, p: seq<Folder>, i: nat, id: string)
    requires UniqueIds(fs) && Chain(fs, p) && i < |Kids(fs, p)|
    ensures var c := Kids(fs, p)[i];
            && Chain(fs, p + [c]) && |p| < |fs|
            && CountIdAll(ForestTo(fs, nbs, p, i + 1), id) == CountIdAll(ForestTo(fs, nbs, p, i), id) + CountId(NodeAt(fs, nbs, p + [c]), id)
  {
    ForestNext(fs, nbs, p, i);
    CountSnoc(ForestTo(fs, nbs, p, i), NodeAt(fs, nbs, p + [Kids(fs, p)[i]]), id);
  }

  /** A folder is reachable when some chain from a root ends in it. */
  ghost predicate Reachable(fs: seq<Folder>, id: string) {
    exists q :: ReachedBy(fs, q, id)
  }

  ghost predicate ReachedBy(fs: seq<Folder>, q: seq<Folder>, id: string) {
    Chain(fs, q) && q != [] && q[|q| - 1].id == id
  }

  lemma {:induction false} UnreachedNode(fs: seq<Folder>, nbs: seq<Notebook>, p: seq<Folder>, id: string)
    requires UniqueIds(fs) && Chain(fs, p) && p != [] && !Reachable(fs, id)
    ensures CountId(NodeAt(fs, nbs, p), id) == 0
    decreases |fs| - |p|, 1, 0
  {
    ChainBound(fs, p);
    assert !ReachedBy(fs, p, id);
    NodeCounts(fs, nbs, p, id);
    UnreachedForest(fs, nbs, p, id, Kids(fs, p));
  }

  lemma {:induction false} UnreachedForest(fs: seq<Folder>, nbs: seq<Notebook>, p: seq<Folder>, id: string, cs: seq<Folder>)
    requires UniqueIds(fs) && Chain(fs, p) && !Reachable(fs, id) && forall c :: c in cs ==> c in Kids(fs, p)
    ensures CountIdAll(Forest(fs, nbs, p, cs), id) == 0
    decreases |fs| - |p|, 0, |cs|
  {
    if cs != [] {
      var init, c := cs[..|cs| - 1], cs[|cs| - 1];
      assert cs == init + [c];
      ForestCounts(fs, nbs, p, init, c, id);
      UnreachedForest(fs, nbs, p, id, init);
      ChainBound(fs, p + [c]);
      UnreachedNode(fs, nbs, p + [c], id);
    }
  }

  /** Each folder appears exactly once if a root reaches it, and otherwise not at all. */
  lemma FolderOnce(fs: seq<Folder>, nbs: seq<Notebook>, id: string)
    requires UniqueIds(fs)
    ensures CountIdAll(TreeOf(fs, nbs), id) == if Reachable(fs, id) then 1 else 0
  {
    if Reachable(fs, id) {
      var q :| ReachedBy(fs, q, id);
      CountForest(fs, nbs, [], q, |Kids(fs, [])|);
      ForestEnds(fs, nbs, []);
      assert Kids(fs, [])[..|Kids(fs, [])|] == Kids(fs, []);
      assert Prefix([], q);
      NextOnChain(fs, [], q);
    } else {
      UnreachedForest(fs, nbs, [], id, Kids(fs, []));
    }
  }

  // ---- how often a notebook appears ----

  function CountIn(nbs: seq<Notebook>, nb: Notebook): nat {
    if nbs == [] then 0 else CountIn(nbs[..|nbs| - 1], nb) + if nbs[|nbs| - 1] == nb then 1 else 0
  }

  lemma CountInSnoc(nbs: seq<Notebook>, x: Notebook, nb: Notebook)
    ensures CountIn(nbs + [x], nb) == CountIn(nbs, nb) + if x == nb then 1 else 0
    ensures CountIn(nbs + [], nb) == CountIn(nbs, nb)
  {
    assert (nbs + [x])[..|nbs|] == nbs;
    assert nbs + [] == nbs;
  }

  function CountNb(n: Node, nb: Notebook): nat
    decreases n, 1
  {
    CountIn(n.notebooks, nb) + CountNbAll(n.children, nb)
  }

  function CountNbAll(ns: seq<Node>, nb: Notebook): nat
    decreases ns, 0, |ns|
  {
    if ns == [] then 0 else CountNbAll(ns[..|ns| - 1], nb) + CountNb(ns[|ns| - 1], nb)
  }

  lemma {:induction false} NotebooksInCount(nbs: seq<Notebook>, live: set<string>, id: string, nb: Notebook)
    ensures CountIn(NotebooksIn(nbs, live, id), nb) == if Filed(live, nb.folder) && nb.folder == id then CountIn(nbs, nb) else 0
  {
    if nbs != [] {
      NotebooksInCount(nbs[..|nbs| - 1], live, id, nb);
      CountInSnoc(NotebooksIn(nbs[..|nbs| - 1], live, id), nbs[|nbs| - 1], nb);
    }
  }

  lemma {:induction false} UnfiledCount(nbs: seq<Notebook>, live: set<string>, nb: Notebook)
    ensures CountIn(Unfiled(nbs, live), nb) == if Filed(live, nb.folder) then 0 else CountIn(nbs, nb)
  {
    if nbs != [] {
      UnfiledCount(nbs[..|nbs| - 1], live, nb);
      CountInSnoc(Unfiled(nbs[..|nbs| - 1], live), nbs[|nbs| - 1], nb);
    }
  }

  /** m taken k times. */
  function Times(k: nat, m: nat): nat {
    if k == 0 then 0 else Times(k - 1, m) + m
  }

  lemma {:induction false} Distribute(x: nat, y: nat, m: nat)
    ensures Times(x + y, m) == Times(x, m) + Times(y, m)
  {
    if y > 0 {
      Distribute(x, y - 1, m);
    }
  }

  /** Every node of a folder with this notebook's folder id holds the notebook k times, and no other node holds it. */
  ghost predicate Owns(n: Node, nb: Notebook, k: nat)
    decreases n, 1
  {
    CountIn(n.notebooks, nb) == (if n.id == nb.folder then k else 0) && OwnsAll(n.children, nb, k)
  }

  ghost predicate OwnsAll(ns: seq<Node>, nb: Notebook, k: nat)
    decreases ns, 0, |ns|
  {
    ns == [] || (OwnsAll(ns[..|ns| - 1], nb, k) && Owns(ns[|ns| - 1], nb, k))
  }

  /** In such a tree the notebook appears k times as often as its folder. */
  lemma {:induction false} OwnsCount(n: Node, nb: Notebook, k: nat)
    requires Owns(n, nb, k)
    ensures CountNb(n, nb) == Times(CountId(n, nb.folder), k)
    decreases n, 1
  {
    OwnsCountAll(n.children, nb, k);
    Distribute(1, CountIdAll(n.children, nb.folder), k);
    assert Times(1, k) == Times(0, k) + k;
  }

  lemma {:induction false} OwnsCountAll(ns: seq<Node>, nb: Notebook, k: nat)
    requires OwnsAll(ns, nb, k)
    ensures CountNbAll(ns, nb) == Times(CountIdAll(ns, nb.folder), k)
    decreases ns, 0, |ns|
  {
    if ns != [] {
      var init, n := ns[..|ns| - 1], ns[|ns| - 1];
      OwnsCountAll(init, nb, k);
      OwnsCount(n, nb, k);
      Distribute(CountIdAll(init, nb.folder), CountId(n, nb.folder), k);
    }
  }

  lemma {:induction false} NodeOwns(fs: seq<Folder>, nbs: seq<Notebook>, p: seq<Folder>, nb: Notebook, k: nat)
    requires UniqueIds(fs) && Chain(fs, p) && p != [] && k == if Filed(Ids(fs), nb.folder) then CountIn(nbs, nb) else 0
    ensures Owns(NodeAt(fs, nbs, p), nb, k)
    decreases |fs| - |p|, 1, 0
  {
    ChainBound(fs, p);
    NotebooksInCount(nbs, Ids(fs), p[|p| - 1].id, nb);
    ForestOwns(fs, nbs, p, nb, Kids(fs, p), k);
  }

  lemma {:induction false} ForestOwns(fs: seq<Folder>, nbs: seq<Notebook>, p: seq<Folder>, nb: Notebook, cs: seq<Folder>, k: nat)
    requires UniqueIds(fs) && Chain(fs, p) && forall c :: c in cs ==> c in Kids(fs, p)
    requires k == if Filed(Ids(fs), nb.folder) then CountIn(nbs, nb) else 0
    ensures OwnsAll(Forest(fs, nbs, p, cs), nb, k)
    decreases |fs| - |p|, 0, |cs|
  {
    if cs != [] {
      var init, c := cs[..|cs| - 1], cs[|cs| - 1];
      assert cs == init + [c];
      ForestSnoc(fs, nbs, p, init, c);
      ForestOwns(fs, nbs, p, nb, init, k);
      ChainBound(fs, p + [c]);
      NodeOwns(fs, nbs, p + [c], nb, k);
    }
  }

  lemma {:induction false} TimesZero(x: nat)
    ensures Times(x, 0) == 0
  {
    if x > 0 {
      TimesZero(x - 1);
    }
  }

  /**
   Conservation: a notebook appears as often as it was given, in the tree or unfiled, exactly when
   it names no live folder or its folder chain reaches a root; otherwise it appears nowhere.
   */
  lemma NotebookConserved(fs: seq<Folder>, nbs: seq<Notebook>, nb: Notebook)
    requires UniqueIds(fs)
    ensures CountNbAll(TreeOf(fs, nbs), nb) + CountIn(Unfiled(nbs, Ids(fs)), nb)
            == if !Filed(Ids(fs), nb.folder) || Reachable(fs, nb.folder) then CountIn(nbs, nb) else 0
  {
    var k := if Filed(Ids(fs), nb.folder) then CountIn(nbs, nb) else 0;
    ForestOwns(fs, nbs, [], nb, Kids(fs, []), k);
    OwnsCountAll(TreeOf(fs, nbs), nb, k);
    TimesZero(CountIdAll(TreeOf(fs, nbs), nb.folder));
    assert Times(1, k) == Times(0, k) + k;
    UnfiledCount(nbs, Ids(fs), nb);
    FolderOnce(fs, nbs, nb.folder);
  }

  /** A cycle of two folders is never reached, and the notebooks in it vanish from the answer. */
  lemma CycleHidesNotebook(a: Folder, b: Folder, nb: Notebook)
    requires a.id != b.id && a.id != "" && b.id != "" && a.parent == b.id && b.parent == a.id && nb.folder == a.id
    ensures TreeOf([a, b], [nb]) == [] && Unfiled([nb], Ids([a, b])) == []
  {
    var fs := [a, b];
    assert a in fs && b in fs;
    assert fs[..1] == [a] && [a][..0] == [] && [nb][..0] == [];
    assert Roots([a], Ids(fs)) == [];
    assert Kids(fs, []) == [];
    assert Filed(Ids(fs), nb.folder);
  }
}
