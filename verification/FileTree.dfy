/** The workspace file tree of apps/desktop/src/main/workspace-files.ts: a depth-first walk capped at 500 entries. */
module FileTree {
  import StableSort

  /** What `readdirSync` finds; links are not followed, so they count as files. */
  datatype Node = File(name: string) | Dir(name: string, listing: Listing)

  datatype Listing = Unreadable | Readable(nodes: seq<Node>)

  /** `path` holds the components below the root; `shown` is what is displayed. */
  datatype Entry = Entry(shown: string, path: seq<string>, depth: nat, isDir: bool)

  const IGNORED_DIRS := {"node_modules", ".git", "dist", "build", ".vite", ".aurict"}
  const MAX_FILE_ENTRIES := 500

  type Compare = StableSort.Compare

  predicate StartsWithDot(name: string) {
    name != "" && name[0] == '.'
  }

  /** The two filters. */
  predicate Kept(node: Node) {
    (!StartsWithDot(node.name) || node.name == ".github") && !(node.Dir? && node.name in IGNORED_DIRS)
  }

  function Keep(nodes: seq<Node>): seq<Node> {
    if nodes == [] then []
    else if Kept(nodes[0]) then [nodes[0]] + Keep(nodes[1..])
    else Keep(nodes[1..])
  }

  /** Directories before files, then by name. */
  function Before(compare: Compare): (Node, Node) -> bool {
    (x: Node, y: Node) => if x.Dir? != y.Dir? then x.Dir? else compare(x.name, y.name) <= 0
  }

  /** The entries of a directory as the walk goes through them; none if it cannot be read. */
  function Listed(compare: Compare, listing: Listing): seq<Node> {
    match listing
    case Unreadable => []
    case Readable(nodes) => StableSort.Sort(Before(compare), Keep(nodes))
  }

  lemma {:induction false} KeepIsFilter(nodes: seq<Node>, n: Node)
    ensures n in Keep(nodes) <==> n in nodes && Kept(n)
  {
    if nodes != [] {
      KeepIsFilter(nodes[1..], n);
      assert n in nodes <==> n == nodes[0] || n in nodes[1..];
    }
  }

  lemma ListedAreKept(compare: Compare, listing: Listing, n: Node)
    ensures n in Listed(compare, listing) <==> listing.Readable? && n in listing.nodes && Kept(n)
  {
    if listing.Readable? {
      StableSort.SortKeepsElements(Before(compare), Keep(listing.nodes), n);
      KeepIsFilter(listing.nodes, n);
    }
  }

  // ---------------------------------------------------------------- how deep a tree is

  function Height(listing: Listing): nat {
    match listing
    case Unreadable => 0
    case Readable(nodes) => 1 + Highest(nodes)
  }

  function Highest(nodes: seq<Node>): nat {
    if nodes == [] then 0
    else
      var rest := Highest(nodes[1..]);
      if nodes[0].Dir? && Height(nodes[0].listing) > rest then Height(nodes[0].listing) else rest
  }

  lemma {:induction false} HighestBounds(nodes: seq<Node>, n: Node)
    requires n in nodes && n.Dir?
    ensures Height(n.listing) <= Highest(nodes)
  {
    if n != nodes[0] {
      HighestBounds(nodes[1..], n);
    }
  }

  lemma {:induction false} HighestIsMonotone(part: seq<Node>, nodes: seq<Node>)
    requires forall n :: n in part ==> n in nodes
    ensures Highest(part) <= Highest(nodes)
  {
    if part != [] {
      HighestIsMonotone(part[1..], nodes);
      if part[0].Dir? {
        HighestBounds(nodes, part[0]);
      }
    }
  }

  lemma ListedIsLower(compare: Compare, listing: Listing)
    requires listing.Readable?
    ensures Highest(Listed(compare, listing)) < Height(listing)
  {
    forall n | n in Listed(compare, listing)
      ensures n in listing.nodes
    {
      ListedAreKept(compare, listing, n);
    }
    HighestIsMonotone(Listed(compare, listing), listing.nodes);
  }

  // ---------------------------------------------------------------- the uncapped pre-order

  function EntryOf(node: Node, prefix: seq<string>): Entry {
    Entry(if node.Dir? then node.name + "/" else node.name, prefix + [node.name], |prefix|, node.Dir?)
  }

  /** Everything below a directory whose own path is `prefix`. */
  function Preorder(compare: Compare, listing: Listing, prefix: seq<string>): seq<Entry>
    decreases Height(listing), 0, 0
  {
    if listing.Unreadable? then []
    else
      ListedIsLower(compare, listing);
      Flatten(compare, Listed(compare, listing), prefix)
  }

  function Flatten(compare: Compare, nodes: seq<Node>, prefix: seq<string>): seq<Entry>
    decreases Highest(nodes), 2, |nodes|, 1
  {
    if nodes == [] then [] else FirstAndRest(compare, nodes, prefix)
  }

  function FirstAndRest(compare: Compare, nodes: seq<Node>, prefix: seq<string>): seq<Entry>
    requires nodes != []
    decreases Highest(nodes), 2, |nodes|, 0
  {
    Subtree(compare, nodes, prefix) + Flatten(compare, nodes[1..], prefix)
  }

  /** The first of the nodes and everything below it. */
  function Subtree(compare: Compare, nodes: seq<Node>, prefix: seq<string>): seq<Entry>
    requires nodes != []
    decreases Highest(nodes), 1, 0
  {
    [EntryOf(nodes[0], prefix)]
    + if nodes[0].Dir? then Preorder(compare, nodes[0].listing, prefix + [nodes[0].name]) else []
  }

  // ---------------------------------------------------------------- the walk

  function Cap(entries: seq<Entry>): seq<Entry> {
    if |entries| <= MAX_FILE_ENTRIES then entries else entries[..MAX_FILE_ENTRIES]
  }

  lemma CapIsFinal(a: seq<Entry>, b: seq<Entry>)
    ensures Cap(Cap(a) + b) == Cap(a + b)
  {
  }

  lemma FullStaysFull(a: seq<Entry>, b: seq<Entry>)
    requires |a| == MAX_FILE_ENTRIES
    ensures Cap(a + b) == a
  {
  }

  lemma NothingBelow(a: seq<Entry>)
    requires |a| <= MAX_FILE_ENTRIES
    ensures Cap(a + []) == a
  {
    assert a + [] == a;
  }

  lemma Regroup(a: seq<Entry>, e: Entry, below: seq<Entry>, rest: seq<Entry>)
    ensures a + [e] + below + rest == a + (([e] + below) + rest)
  {
  }

  function Below(compare: Compare, node: Node, prefix: seq<string>): seq<Entry> {
    if node.Dir? then Preorder(compare, node.listing, prefix + [node.name]) else []
  }

  lemma FlattenStep(compare: Compare, nodes: seq<Node>, i: nat, prefix: seq<string>, below: seq<Entry>)
    requires i < |nodes| && below == Below(compare, nodes[i], prefix)
    ensures Flatten(compare, nodes[i..], prefix)
            == [EntryOf(nodes[i], prefix)] + below + Flatten(compare, nodes[i + 1..], prefix)
  {
    var rest := nodes[i..];
    assert rest[1..] == nodes[i + 1..];
    assert Flatten(compare, rest, prefix) == FirstAndRest(compare, rest, prefix);
    assert Subtree(compare, rest, prefix) == [EntryOf(nodes[i], prefix)] + below;
  }

  lemma FlattenHead(compare: Compare, nodes: seq<Node>, prefix: seq<string>)
    requires nodes != []
    ensures Flatten(compare, nodes, prefix)
            == [EntryOf(nodes[0], prefix)] + Below(compare, nodes[0], prefix) + Flatten(compare, nodes[1..], prefix)
  {
    assert nodes[0..] == nodes;
    FlattenStep(compare, nodes, 0, prefix, Below(compare, nodes[0], prefix));
  }

  /** One pass of the loop: add the entry, then what is below it, and go on with the rest. */
  lemma WalkStep(compare: Compare, nodes: seq<Node>, i: nat, prefix: seq<string>,
                 start: seq<Entry>, reached: seq<Entry>)
    requires i < |nodes|
    requires reached == Cap(start + [EntryOf(nodes[i], prefix)] + Below(compare, nodes[i], prefix))
    ensures Cap(reached + Flatten(compare, nodes[i + 1..], prefix)) == Cap(start + Flatten(compare, nodes[i..], prefix))
  {
    var e, below := EntryOf(nodes[i], prefix), Below(compare, nodes[i], prefix);
    var rest := Flatten(compare, nodes[i + 1..], prefix);
    FlattenStep(compare, nodes, i, prefix, below);
    CapIsFinal(start + [e] + below, rest);
    Regroup(start, e, below, rest);
  }

  class Walker {
    const compare: Compare
    var entries: seq<Entry>

    constructor (compare: Compare)
      ensures entries == [] && this.compare == compare
    {
      this.compare := compare;
      entries := [];
    }

    /** `walk`: adds what is below a directory, in pre-order, until the cap is reached. */
    method Walk(listing: Listing, prefix: seq<string>)
      requires |entries| <= MAX_FILE_ENTRIES
      modifies this
      ensures entries == Cap(old(entries) + Preorder(compare, listing, prefix))
      decreases Height(listing), 0
    {
      if |entries| >= MAX_FILE_ENTRIES {
        FullStaysFull(entries, Preorder(compare, listing, prefix));
        return;
      }
      if listing.Unreadable? {
        NothingBelow(entries);
        return;
      }
      ListedIsLower(compare, listing);
      WalkEntries(Listed(compare, listing), prefix);
    }

    /** The loop of `walk`. */
    method WalkEntries(dirents: seq<Node>, prefix: seq<string>)
      requires |entries| <= MAX_FILE_ENTRIES
      modifies this
      ensures entries == Cap(old(entries) + Flatten(compare, dirents, prefix))
      decreases Highest(dirents), 1
    {
      var i := 0;
      assert dirents[0..] == dirents;
      while i < |dirents|
        invariant i <= |dirents| && |entries| <= MAX_FILE_ENTRIES
        invariant Cap(entries + Flatten(compare, dirents[i..], prefix))
                  == Cap(old(entries) + Flatten(compare, dirents, prefix))
      {
        if |entries| >= MAX_FILE_ENTRIES {
          FullStaysFull(entries, Flatten(compare, dirents[i..], prefix));
          return;
        }
        var entry := dirents[i];
        ghost var start := entries;
        entries := entries + [EntryOf(entry, prefix)];
        if entry.Dir? {
          HighestBounds(dirents, entry);
          Walk(entry.listing, prefix + [entry.name]);
        } else {
          NothingBelow(entries);
        }
        WalkStep(compare, dirents, i, prefix, start, entries);
        i := i + 1;
      }
      NothingBelow(entries);
    }
  }

  /** `readFileTree` lists exactly the first 500 entries of the whole tree. */
  method ReadFileTree(compare: Compare, root: Listing) returns (entries: seq<Entry>)
    ensures entries == Cap(Preorder(compare, root, []))
    ensures var whole := Preorder(compare, root, []);
            if |whole| <= 500 then entries == whole else |entries| == 500 && entries < whole
  {
    var walker := new Walker(compare);
    walker.Walk(root, []);
    entries := walker.entries;
  }

  // ---------------------------------------------------------------- what the listing looks like

  function Name(e: Entry): string {
    if e.path == [] then "" else e.path[|e.path| - 1]
  }

  /** Each entry lies below `base` and is shown by its name, with a slash behind a directory; its parent, unless that is
      `base` itself, is a directory listed before it. */
  ghost predicate ParentsFirst(es: seq<Entry>, base: seq<string>) {
    forall k :: 0 <= k < |es| ==> ParentBefore(es, base, k)
  }

  ghost predicate ParentBefore(es: seq<Entry>, base: seq<string>, k: nat)
    requires k < |es|
  {
    && base < es[k].path && es[k].depth == |es[k].path| - 1
    && es[k].shown == Name(es[k]) + (if es[k].isDir then "/" else "")
    && (|es[k].path| > |base| + 1 ==> IsListedDir(es[..k], es[k].path[..|es[k].path| - 1]))
  }

  predicate IsListedDir(es: seq<Entry>, path: seq<string>) {
    exists j :: 0 <= j < |es| && es[j].isDir && es[j].path == path
  }

  /** The first entry has depth `d`, none has less, and the depth rises by at most one from entry to entry. */
  predicate RisesByOne(es: seq<Entry>, d: nat) {
    && (forall k :: 0 <= k < |es| ==> es[k].depth >= d)
    && (es != [] ==> es[0].depth == d)
    && (forall k :: 0 < k < |es| ==> es[k].depth <= es[k - 1].depth + 1)
  }

  lemma ListedDirShifts(a: seq<Entry>, b: seq<Entry>, path: seq<string>)
    requires IsListedDir(b, path)
    ensures IsListedDir(a + b, path)
  {
    var j :| 0 <= j < |b| && b[j].isDir && b[j].path == path;
    assert (a + b)[|a| + j] == b[j];
  }

  lemma ParentsFirstConcat(a: seq<Entry>, b: seq<Entry>, base: seq<string>)
    requires ParentsFirst(a, base) && ParentsFirst(b, base)
    ensures ParentsFirst(a + b, base)
  {
    forall k | 0 <= k < |a + b|
      ensures ParentBefore(a + b, base, k)
    {
      if k < |a| {
        assert ParentBefore(a, base, k);
        assert (a + b)[..k] == a[..k];
      } else {
        assert ParentBefore(b, base, k - |a|);
        assert (a + b)[..k] == a + b[..k - |a|];
        if |(a + b)[k].path| > |base| + 1 {
          ListedDirShifts(a, b[..k - |a|], b[k - |a|].path[..|b[k - |a|].path| - 1]);
        }
      }
    }
  }

  lemma ParentsFirstBelow(e: Entry, below: seq<Entry>, base: seq<string>, name: string)
    requires e.path == base + [name] && e.depth == |base| && e.shown == name + (if e.isDir then "/" else "")
    requires below != [] ==> e.isDir
    requires ParentsFirst(below, base + [name])
    ensures ParentsFirst([e] + below, base)
  {
    var es := [e] + below;
    forall k | 0 <= k < |es|
      ensures ParentBefore(es, base, k)
    {
      if k > 0 {
        assert ParentBefore(below, base + [name], k - 1);
        var path := es[k].path;
        assert base < base + [name] < path;
        assert es[..k] == [e] + below[..k - 1];
        if |path| == |base| + 2 {
          assert path[..|path| - 1] == base + [name];
          assert es[..k][0].path == path[..|path| - 1];
        } else {
          ListedDirShifts([e], below[..k - 1], path[..|path| - 1]);
        }
      }
    }
  }

  lemma RisesConcat(a: seq<Entry>, b: seq<Entry>, d: nat)
    requires RisesByOne(a, d) && RisesByOne(b, d)
    ensures RisesByOne(a + b, d)
  {
  }

  ghost predicate Nested(es: seq<Entry>, base: seq<string>) {
    ParentsFirst(es, base) && RisesByOne(es, |base|)
  }

  lemma NestedStep(e: Entry, below: seq<Entry>, rest: seq<Entry>, base: seq<string>, name: string)
    requires e.path == base + [name] && e.depth == |base| && e.shown == name + (if e.isDir then "/" else "")
    requires below != [] ==> e.isDir
    requires Nested(below, base + [name]) && Nested(rest, base)
    ensures Nested([e] + below + rest, base)
  {
    ParentsFirstBelow(e, below, base, name);
    ParentsFirstConcat([e] + below, rest, base);
    RisesConcat([e] + below, rest, |base|);
  }

  lemma {:induction false} PreorderIsNested(compare: Compare, listing: Listing, prefix: seq<string>)
    ensures Nested(Preorder(compare, listing, prefix), prefix)
    decreases Height(listing), 0, 0
  {
    if listing.Readable? {
      ListedIsLower(compare, listing);
      FlattenIsNested(compare, Listed(compare, listing), prefix);
    }
  }

  lemma {:induction false} BelowIsNested(compare: Compare, node: Node, nodes: seq<Node>, prefix: seq<string>)
    requires node in nodes
    ensures Nested(Below(compare, node, prefix), prefix + [node.name])
    decreases Highest(nodes), 0, 1
  {
    if node.Dir? {
      HighestBounds(nodes, node);
      PreorderIsNested(compare, node.listing, prefix + [node.name]);
    }
  }

  lemma {:induction false} FlattenIsNested(compare: Compare, nodes: seq<Node>, prefix: seq<string>)
    ensures Nested(Flatten(compare, nodes, prefix), prefix)
    decreases Highest(nodes), 1, |nodes|
  {
    if nodes != [] {
      var e, below := EntryOf(nodes[0], prefix), Below(compare, nodes[0], prefix);
      BelowIsNested(compare, nodes[0], nodes, prefix);
      HighestIsMonotone(nodes[1..], nodes);
      FlattenIsNested(compare, nodes[1..], prefix);
      FlattenHead(compare, nodes, prefix);
      NestedStep(e, below, Flatten(compare, nodes[1..], prefix), prefix, nodes[0].name);
    }
  }

  /** In every listing parents come first and the depth rises by at most one, wherever the cap falls. */
  lemma ListingIsNested(compare: Compare, root: Listing)
    ensures ParentsFirst(Cap(Preorder(compare, root, [])), [])
    ensures RisesByOne(Cap(Preorder(compare, root, [])), 0)
  {
    var whole := Preorder(compare, root, []);
    var es := Cap(whole);
    PreorderIsNested(compare, root, []);
    forall k | 0 <= k < |es|
      ensures ParentBefore(es, [], k)
    {
      assert ParentBefore(whole, [], k);
      assert es[..k] == whole[..k];
    }
  }

  // ---------------------------------------------------------------- what is listed

  /** Names beginning with a dot are not shown, nor are the directories of dependencies, builds and tools; `.github` is.
      */
  predicate Hidden(n: Node) {
    || (n.name != "" && n.name[0] == '.' && n.name != ".github")
    || (n.Dir? && n.name in {"node_modules", ".git", "dist", "build", ".vite", ".aurict"})
  }

  /** Following `path` from the directory meets nothing hidden, only readable directories on the way, and at its end a
      directory or a file, as `isDir` says. */
  predicate Visible(listing: Listing, path: seq<string>, isDir: bool)
    decreases |path|, 1
  {
    listing.Readable? && exists n :: n in listing.nodes && !Hidden(n) && LeadsTo(n, path, isDir)
  }

  predicate LeadsTo(n: Node, path: seq<string>, isDir: bool)
    decreases |path|, 0
  {
    && path != [] && n.name == path[0]
    && if |path| == 1 then n.Dir? == isDir else n.Dir? && Visible(n.listing, path[1..], isDir)
  }

  predicate IsListed(es: seq<Entry>, path: seq<string>, isDir: bool) {
    exists k :: 0 <= k < |es| && es[k].path == path && es[k].isDir == isDir
  }

  lemma ListedInEither(a: seq<Entry>, b: seq<Entry>, path: seq<string>, isDir: bool)
    ensures IsListed(a + b, path, isDir) <==> IsListed(a, path, isDir) || IsListed(b, path, isDir)
  {
    if IsListed(a + b, path, isDir) {
      var k :| 0 <= k < |a + b| && (a + b)[k].path == path && (a + b)[k].isDir == isDir;
      assert if k < |a| then a[k] == (a + b)[k] else b[k - |a|] == (a + b)[k];
    }
    if IsListed(a, path, isDir) {
      var k :| 0 <= k < |a| && a[k].path == path && a[k].isDir == isDir;
      assert (a + b)[k] == a[k];
    }
    if IsListed(b, path, isDir) {
      var k :| 0 <= k < |b| && b[k].path == path && b[k].isDir == isDir;
      assert (a + b)[|a| + k] == b[k];
    }
  }

  lemma {:induction false} ListedBelow(
      compare: Compare, node: Node, nodes: seq<Node>, prefix: seq<string>, path: seq<string>, isDir: bool)
    requires path != [] && node in nodes
    ensures IsListed([EntryOf(node, prefix)] + Below(compare, node, prefix), prefix + path, isDir) <==>
            LeadsTo(node, path, isDir)
    decreases Highest(nodes), 0, 1
  {
    var e, below := EntryOf(node, prefix), Below(compare, node, prefix);
    ListedInEither([e], below, prefix + path, isDir);
    SamePath(prefix, node.name, path);
    assert IsListed([e], prefix + path, isDir) <==> path == [node.name] && node.Dir? == isDir by {
      assert [e][0].path == prefix + [node.name];
    }
    if |path| > 1 && path[0] == node.name {
      if node.Dir? {
        HighestBounds(nodes, node);
        ListedIsVisible(compare, node.listing, prefix + [node.name], path[1..], isDir);
      }
    } else {
      BelowIsNested(compare, node, nodes, prefix);
      ListedExtends(below, prefix + [node.name], prefix + path, isDir);
    }
  }

  lemma ListedExtends(es: seq<Entry>, base: seq<string>, path: seq<string>, isDir: bool)
    requires Nested(es, base)
    ensures IsListed(es, path, isDir) ==> base < path
  {
    forall k | 0 <= k < |es|
      ensures base < es[k].path
    {
      assert ParentBefore(es, base, k);
    }
  }

  lemma SamePath(prefix: seq<string>, name: string, path: seq<string>)
    requires path != []
    ensures prefix + [name] == prefix + path <==> path == [name]
    ensures prefix + [name] <= prefix + path <==> path[0] == name
    ensures path[0] == name ==> prefix + [name] + path[1..] == prefix + path
  {
    assert (prefix + path)[|prefix|] == path[0];
    assert (prefix + [name])[|prefix|] == name;
    assert |prefix + [name]| == |prefix + path| ==> path == [path[0]];
    if path[0] == name {
      assert (prefix + path)[..|prefix| + 1] == prefix + [name];
    }
  }

  lemma {:induction false} ListedIsVisible(
      compare: Compare, listing: Listing, prefix: seq<string>, path: seq<string>, isDir: bool)
    requires path != []
    ensures IsListed(Preorder(compare, listing, prefix), prefix + path, isDir) <==> Visible(listing, path, isDir)
    decreases Height(listing), 0, 0
  {
    if listing.Readable? {
      var nodes := Listed(compare, listing);
      ListedIsLower(compare, listing);
      FlattenListsLeads(compare, nodes, prefix, path, isDir);
      ListedAreShown(compare, listing);
    }
  }

  lemma ListedAreShown(compare: Compare, listing: Listing)
    requires listing.Readable?
    ensures forall n :: n in Listed(compare, listing) <==> n in listing.nodes && !Hidden(n)
  {
    forall n
      ensures n in Listed(compare, listing) <==> n in listing.nodes && !Hidden(n)
    {
      ListedAreKept(compare, listing, n);
    }
  }

  lemma {:induction false} FlattenListsLeads(
      compare: Compare, nodes: seq<Node>, prefix: seq<string>, path: seq<string>, isDir: bool)
    requires path != []
    ensures IsListed(Flatten(compare, nodes, prefix), prefix + path, isDir) <==>
            exists n :: n in nodes && LeadsTo(n, path, isDir)
    decreases Highest(nodes), 1, |nodes|
  {
    if nodes != [] {
      FlattenHead(compare, nodes, prefix);
      ListedInEither([EntryOf(nodes[0], prefix)] + Below(compare, nodes[0], prefix),
                     Flatten(compare, nodes[1..], prefix), prefix + path, isDir);
      ListedBelow(compare, nodes[0], nodes, prefix, path, isDir);
      HighestIsMonotone(nodes[1..], nodes);
      FlattenListsLeads(compare, nodes[1..], prefix, path, isDir);
      assert forall n :: n in nodes <==> n == nodes[0] || n in nodes[1..];
    }
  }

  /** Only visible paths are listed, each as the directory or file it leads to, and all of them are unless the cap cuts
      the listing short. */
  lemma ListsTheVisible(compare: Compare, root: Listing, path: seq<string>, isDir: bool)
    requires path != []
    ensures IsListed(Cap(Preorder(compare, root, [])), path, isDir) ==> Visible(root, path, isDir)
    ensures |Preorder(compare, root, [])| <= 500 && Visible(root, path, isDir) ==>
              IsListed(Cap(Preorder(compare, root, [])), path, isDir)
  {
    var whole := Preorder(compare, root, []);
    assert [] + path == path;
    ListedIsVisible(compare, root, [], path, isDir);
    if IsListed(Cap(whole), path, isDir) {
      var k :| 0 <= k < |Cap(whole)| && Cap(whole)[k].path == path && Cap(whole)[k].isDir == isDir;
      assert whole[k] == Cap(whole)[k];
    }
  }

  // ---------------------------------------------------------------- the order among siblings

  /** Within a directory, directories come before files and names ascend. */
  lemma DirectoriesFirst(compare: Compare, listing: Listing)
    requires StableSort.IsCollation(compare)
    ensures var nodes := Listed(compare, listing);
            forall i, j :: 0 <= i < j < |nodes| ==>
              && (nodes[j].Dir? ==> nodes[i].Dir?)
              && (nodes[i].Dir? == nodes[j].Dir? ==> compare(nodes[i].name, nodes[j].name) <= 0)
  {
    if listing.Readable? {
      BeforeIsConsistent(compare);
      StableSort.SortAscends(Before(compare), Keep(listing.nodes));
      var nodes := Listed(compare, listing);
      forall i, j | 0 <= i < j < |nodes|
        ensures (nodes[j].Dir? ==> nodes[i].Dir?)
        ensures nodes[i].Dir? == nodes[j].Dir? ==> compare(nodes[i].name, nodes[j].name) <= 0
      {
        assert Before(compare)(nodes[i], nodes[j]);
      }
    }
  }

  lemma BeforeIsConsistent(compare: Compare)
    requires StableSort.IsCollation(compare)
    ensures StableSort.IsConsistent(Before(compare))
  {
    forall x: Node, y: Node
      ensures Before(compare)(x, y) || Before(compare)(y, x)
    {
      assert compare(x.name, y.name) > 0 ==> compare(y.name, x.name) < 0;
    }
  }

  /** Directories come before files; among either the names ascend. */
  predicate Precedes(compare: Compare, x: Entry, y: Entry) {
    && (y.isDir ==> x.isDir)
    && (x.isDir == y.isDir ==> compare(Name(x), Name(y)) <= 0)
  }

  /** The entries at `i` and `j` are in one directory: equally deep, with nothing less deep between them. */
  predicate Siblings(es: seq<Entry>, i: nat, j: nat)
    requires i < j < |es|
  {
    es[i].depth == es[j].depth && forall k :: i < k < j ==> es[k].depth >= es[i].depth
  }

  ghost predicate SiblingsInOrder(compare: Compare, es: seq<Entry>) {
    forall i, j :: 0 <= i < j < |es| && Siblings(es, i, j) ==> Precedes(compare, es[i], es[j])
  }

  /** Nodes in the order of the walk. */
  ghost predicate NodesInOrder(compare: Compare, nodes: seq<Node>) {
    forall i, j :: 0 <= i < j < |nodes| ==> Before(compare)(nodes[i], nodes[j])
  }

  lemma ListedInOrder(compare: Compare, listing: Listing)
    requires StableSort.IsCollation(compare)
    ensures NodesInOrder(compare, Listed(compare, listing))
  {
    DirectoriesFirst(compare, listing);
  }

  /** The shallowest entries of a directory's listing are its own nodes. */
  lemma {:induction false} TopIsNode(compare: Compare, nodes: seq<Node>, prefix: seq<string>, k: nat) returns (n: Node)
    requires k < |Flatten(compare, nodes, prefix)| && Flatten(compare, nodes, prefix)[k].depth == |prefix|
    ensures n in nodes && Flatten(compare, nodes, prefix)[k] == EntryOf(n, prefix)
    decreases |nodes|
  {
    var below := Below(compare, nodes[0], prefix);
    FlattenHead(compare, nodes, prefix);
    BelowIsNested(compare, nodes[0], nodes, prefix);
    if k == 0 {
      n := nodes[0];
    } else {
      assert k > |below|;
      n := TopIsNode(compare, nodes[1..], prefix, k - 1 - |below|);
    }
  }

  /** Siblings that both lie in the later part are siblings there. */
  lemma SiblingsLater(a: seq<Entry>, b: seq<Entry>, i: nat, j: nat)
    requires |a| <= i < j < |a + b| && Siblings(a + b, i, j)
    ensures Siblings(b, i - |a|, j - |a|) && (a + b)[i] == b[i - |a|] && (a + b)[j] == b[j - |a|]
  {
    forall k | i - |a| < k < j - |a|
      ensures b[k].depth >= b[i - |a|].depth
    {
      assert (a + b)[k + |a|] == b[k];
    }
  }

  lemma SiblingsEarlier(a: seq<Entry>, b: seq<Entry>, i: nat, j: nat)
    requires i < j < |a| && Siblings(a + b, i, j)
    ensures Siblings(a, i, j) && (a + b)[i] == a[i] && (a + b)[j] == a[j]
  {
    forall k | i < k < j
      ensures a[k].depth >= a[i].depth
    {
      assert (a + b)[k] == a[k];
    }
  }

  /** A node and what is below it: the node has no sibling there. */
  lemma SubtreeInOrder(compare: Compare, e: Entry, below: seq<Entry>)
    requires RisesByOne(below, e.depth + 1) && SiblingsInOrder(compare, below)
    ensures SiblingsInOrder(compare, [e] + below) && forall k :: 0 < k <= |below| ==> ([e] + below)[k].depth > e.depth
  {
    forall i, j | 0 <= i < j < |[e] + below| && Siblings([e] + below, i, j)
      ensures Precedes(compare, ([e] + below)[i], ([e] + below)[j])
    {
      assert ([e] + below)[j] == below[j - 1];
      SiblingsLater([e], below, i, j);
    }
  }

  /** Then the nodes after it. */
  lemma SiblingsStep(compare: Compare, e: Entry, tree: seq<Entry>, rest: seq<Entry>, d: nat)
    requires tree != [] && tree[0] == e && e.depth == d && (forall k :: 0 < k < |tree| ==> tree[k].depth > d)
    requires RisesByOne(rest, d) && SiblingsInOrder(compare, tree) && SiblingsInOrder(compare, rest)
    requires forall k :: 0 <= k < |rest| && rest[k].depth == d ==> Precedes(compare, e, rest[k])
    ensures SiblingsInOrder(compare, tree + rest)
  {
    forall i, j | 0 <= i < j < |tree + rest| && Siblings(tree + rest, i, j)
      ensures Precedes(compare, (tree + rest)[i], (tree + rest)[j])
    {
      if j < |tree| {
        SiblingsEarlier(tree, rest, i, j);
      } else if i >= |tree| {
        SiblingsLater(tree, rest, i, j);
      } else {
        AcrossIsTop(tree, rest, d, i, j);
      }
    }
  }

  lemma AcrossIsTop(tree: seq<Entry>, rest: seq<Entry>, d: nat, i: nat, j: nat)
    requires tree != [] && tree[0].depth == d && (forall k :: 0 < k < |tree| ==> tree[k].depth > d)
    requires RisesByOne(rest, d) && i < |tree| <= j < |tree + rest| && Siblings(tree + rest, i, j)
    ensures i == 0 && (tree + rest)[j] == rest[j - |tree|] && rest[j - |tree|].depth == d
  {
    assert (tree + rest)[i] == tree[i] && (tree + rest)[|tree|] == rest[0];
  }

  lemma {:induction false} PreorderInOrder(compare: Compare, listing: Listing, prefix: seq<string>)
    requires StableSort.IsCollation(compare)
    ensures SiblingsInOrder(compare, Preorder(compare, listing, prefix))
    decreases Height(listing), 0, 0
  {
    if listing.Readable? {
      ListedIsLower(compare, listing);
      ListedInOrder(compare, listing);
      FlattenInOrder(compare, Listed(compare, listing), prefix);
    }
  }

  lemma {:induction false} BelowInOrder(compare: Compare, node: Node, nodes: seq<Node>, prefix: seq<string>)
    requires StableSort.IsCollation(compare) && node in nodes
    ensures SiblingsInOrder(compare, Below(compare, node, prefix))
    decreases Highest(nodes), 0, 1
  {
    if node.Dir? {
      HighestBounds(nodes, node);
      PreorderInOrder(compare, node.listing, prefix + [node.name]);
    }
  }

  lemma {:induction false} FlattenInOrder(compare: Compare, nodes: seq<Node>, prefix: seq<string>)
    requires StableSort.IsCollation(compare) && NodesInOrder(compare, nodes)
    ensures SiblingsInOrder(compare, Flatten(compare, nodes, prefix))
    decreases Highest(nodes), 1, |nodes|
  {
    if nodes != [] {
      var e, below := EntryOf(nodes[0], prefix), Below(compare, nodes[0], prefix);
      var rest := Flatten(compare, nodes[1..], prefix);
      BelowInOrder(compare, nodes[0], nodes, prefix);
      BelowIsNested(compare, nodes[0], nodes, prefix);
      HighestIsMonotone(nodes[1..], nodes);
      FlattenInOrder(compare, nodes[1..], prefix);
      FlattenIsNested(compare, nodes[1..], prefix);
      TopFollow(compare, nodes, prefix, rest);
      SubtreeInOrder(compare, e, below);
      SiblingsStep(compare, e, [e] + below, rest, |prefix|);
      FlattenHead(compare, nodes, prefix);
    }
  }

  lemma TopFollow(compare: Compare, nodes: seq<Node>, prefix: seq<string>, rest: seq<Entry>)
    requires nodes != [] && NodesInOrder(compare, nodes) && rest == Flatten(compare, nodes[1..], prefix)
    ensures forall k :: 0 <= k < |rest| && rest[k].depth == |prefix| ==>
                          Precedes(compare, EntryOf(nodes[0], prefix), rest[k])
  {
    forall k | 0 <= k < |rest| && rest[k].depth == |prefix|
      ensures Precedes(compare, EntryOf(nodes[0], prefix), rest[k])
    {
      var n := TopIsNode(compare, nodes[1..], prefix, k);
      assert Before(compare)(nodes[0], n);
    }
  }

  /** In every listing the entries of one directory follow each other with the directories first and the names
      ascending, wherever the cap falls. */
  lemma ListingIsInOrder(compare: Compare, root: Listing)
    requires StableSort.IsCollation(compare)
    ensures SiblingsInOrder(compare, Cap(Preorder(compare, root, [])))
  {
    var whole := Preorder(compare, root, []);
    var es := Cap(whole);
    PreorderInOrder(compare, root, []);
    assert whole == es + whole[|es|..];
    StartInOrder(compare, es, whole[|es|..]);
  }

  lemma StartInOrder(compare: Compare, a: seq<Entry>, b: seq<Entry>)
    requires SiblingsInOrder(compare, a + b)
    ensures SiblingsInOrder(compare, a)
  {
    forall i, j | 0 <= i < j < |a| && Siblings(a, i, j)
      ensures Precedes(compare, a[i], a[j])
    {
      assert forall k :: 0 <= k < |a| ==> (a + b)[k] == a[k];
      assert Siblings(a + b, i, j);
    }
  }

  // ---------------------------------------------------------------- nothing is listed twice

  predicate DistinctNames(nodes: seq<Node>) {
    forall i, j :: 0 <= i < j < |nodes| ==> nodes[i].name != nodes[j].name
  }

  /** As in any file system, no directory has two entries of one name. */
  predicate Tidy(listing: Listing) {
    listing.Readable? ==>
      && DistinctNames(listing.nodes)
      && forall i :: 0 <= i < |listing.nodes| && listing.nodes[i].Dir? ==> Tidy(listing.nodes[i].listing)
  }

  ghost predicate TidyNodes(nodes: seq<Node>) {
    DistinctNames(nodes) && forall n :: n in nodes && n.Dir? ==> Tidy(n.listing)
  }

  lemma {:induction false} KeepIsDistinct(nodes: seq<Node>)
    requires DistinctNames(nodes)
    ensures DistinctNames(Keep(nodes))
  {
    if nodes != [] {
      KeepIsDistinct(nodes[1..]);
      forall n | n in Keep(nodes[1..])
        ensures n.name != nodes[0].name
      {
        KeepIsFilter(nodes[1..], n);
      }
    }
  }

  lemma {:induction false} OnceEach(nodes: seq<Node>, n: Node)
    requires DistinctNames(nodes)
    ensures multiset(nodes)[n] <= 1
  {
    if nodes != [] {
      assert nodes == [nodes[0]] + nodes[1..];
      OnceEach(nodes[1..], n);
      assert nodes[0] !in nodes[1..];
    }
  }

  lemma TwiceInside(nodes: seq<Node>, i: nat, j: nat)
    requires i < j < |nodes| && nodes[i] == nodes[j]
    ensures multiset(nodes)[nodes[i]] >= 2
  {
    assert nodes == nodes[..j] + [nodes[j]] + nodes[j + 1..];
    assert nodes[i] in nodes[..j];
  }

  /** Rearranging keeps the names distinct. */
  lemma RearrangedIsDistinct(nodes: seq<Node>, sorted: seq<Node>)
    requires DistinctNames(nodes) && multiset(sorted) == multiset(nodes)
    ensures DistinctNames(sorted)
  {
    forall i, j | 0 <= i < j < |sorted|
      ensures sorted[i].name != sorted[j].name
    {
      assert sorted[i] in multiset(nodes) && sorted[j] in multiset(nodes);
      OnceEach(nodes, sorted[i]);
      if sorted[i] == sorted[j] {
        TwiceInside(sorted, i, j);
      }
    }
  }

  lemma ListedIsTidy(compare: Compare, listing: Listing)
    requires Tidy(listing)
    ensures TidyNodes(Listed(compare, listing))
  {
    if listing.Readable? {
      KeepIsDistinct(listing.nodes);
      RearrangedIsDistinct(Keep(listing.nodes), Listed(compare, listing));
      forall n | n in Listed(compare, listing) && n.Dir?
        ensures Tidy(n.listing)
      {
        ListedAreKept(compare, listing, n);
      }
    }
  }

  predicate DistinctPaths(es: seq<Entry>) {
    forall i, j :: 0 <= i < j < |es| ==> es[i].path != es[j].path
  }

  /** Every entry is one of the nodes or below it. */
  predicate StartsAt(e: Entry, prefix: seq<string>, name: string) {
    prefix + [name] <= e.path
  }

  lemma {:induction false} StartsAtNode(compare: Compare, nodes: seq<Node>, prefix: seq<string>, k: nat)
      returns (n: Node)
    requires k < |Flatten(compare, nodes, prefix)|
    ensures n in nodes && StartsAt(Flatten(compare, nodes, prefix)[k], prefix, n.name)
    decreases |nodes|
  {
    var below := Below(compare, nodes[0], prefix);
    FlattenHead(compare, nodes, prefix);
    BelowIsNested(compare, nodes[0], nodes, prefix);
    n := nodes[0];
    if 0 < k <= |below| {
      assert ParentBefore(below, prefix + [n.name], k - 1);
    } else if k > |below| {
      n := StartsAtNode(compare, nodes[1..], prefix, k - 1 - |below|);
    }
  }

  lemma OneStart(e: Entry, prefix: seq<string>, a: string, b: string)
    requires StartsAt(e, prefix, a) && StartsAt(e, prefix, b)
    ensures a == b
  {
    assert e.path[|prefix|] == (prefix + [a])[|prefix|] == (prefix + [b])[|prefix|];
  }

  lemma DistinctStep(e: Entry, below: seq<Entry>, rest: seq<Entry>, prefix: seq<string>, name: string)
    requires e.path == prefix + [name] && Nested(below, prefix + [name])
    requires DistinctPaths(below) && DistinctPaths(rest)
    requires forall k :: 0 <= k < |rest| ==> !StartsAt(rest[k], prefix, name)
    ensures DistinctPaths([e] + below + rest)
  {
    var tree := [e] + below;
    forall k | 0 <= k < |below|
      ensures prefix + [name] < below[k].path
    {
      assert ParentBefore(below, prefix + [name], k);
    }
    assert DistinctPaths(tree);
    forall k | 0 <= k < |tree|
      ensures StartsAt(tree[k], prefix, name)
    {
      assert k > 0 ==> tree[k] == below[k - 1];
    }
    DistinctConcat(tree, rest, prefix, name);
  }

  lemma DistinctConcat(tree: seq<Entry>, rest: seq<Entry>, prefix: seq<string>, name: string)
    requires DistinctPaths(tree) && DistinctPaths(rest)
    requires forall k :: 0 <= k < |tree| ==> StartsAt(tree[k], prefix, name)
    requires forall k :: 0 <= k < |rest| ==> !StartsAt(rest[k], prefix, name)
    ensures DistinctPaths(tree + rest)
  {
  }

  lemma {:induction false} PreorderIsDistinct(compare: Compare, listing: Listing, prefix: seq<string>)
    requires Tidy(listing)
    ensures DistinctPaths(Preorder(compare, listing, prefix))
    decreases Height(listing), 0, 0
  {
    if listing.Readable? {
      ListedIsLower(compare, listing);
      ListedIsTidy(compare, listing);
      FlattenIsDistinct(compare, Listed(compare, listing), prefix);
    }
  }

  lemma {:induction false} BelowIsDistinct(compare: Compare, node: Node, nodes: seq<Node>, prefix: seq<string>)
    requires node in nodes && TidyNodes(nodes)
    ensures DistinctPaths(Below(compare, node, prefix))
    decreases Highest(nodes), 0, 1
  {
    if node.Dir? {
      HighestBounds(nodes, node);
      PreorderIsDistinct(compare, node.listing, prefix + [node.name]);
    }
  }

  lemma {:induction false} FlattenIsDistinct(compare: Compare, nodes: seq<Node>, prefix: seq<string>)
    requires TidyNodes(nodes)
    ensures DistinctPaths(Flatten(compare, nodes, prefix))
    decreases Highest(nodes), 1, |nodes|
  {
    if nodes != [] {
      var e, below := EntryOf(nodes[0], prefix), Below(compare, nodes[0], prefix);
      var rest := Flatten(compare, nodes[1..], prefix);
      BelowIsDistinct(compare, nodes[0], nodes, prefix);
      BelowIsNested(compare, nodes[0], nodes, prefix);
      HighestIsMonotone(nodes[1..], nodes);
      FlattenIsDistinct(compare, nodes[1..], prefix);
      forall k | 0 <= k < |rest|
        ensures !StartsAt(rest[k], prefix, nodes[0].name)
      {
        var n := StartsAtNode(compare, nodes[1..], prefix, k);
        if StartsAt(rest[k], prefix, nodes[0].name) {
          OneStart(rest[k], prefix, n.name, nodes[0].name);
        }
      }
      DistinctStep(e, below, rest, prefix, nodes[0].name);
      FlattenHead(compare, nodes, prefix);
    }
  }

  /** Where names are unique within each directory, no path is listed twice. */
  lemma NothingIsListedTwice(compare: Compare, root: Listing)
    requires Tidy(root)
    ensures DistinctPaths(Cap(Preorder(compare, root, [])))
  {
    PreorderIsDistinct(compare, root, []);
  }
}
