/**
 * Path containment: `resolveWithinRoot` of apps/desktop/src/main/workspace-files.ts and `within` of
 * apps/desktop/src/main/artifact-store.ts, both string tests on POSIX paths.
 */
module PathContainment {
  import opened Text

  /** An absolute normalized path as its components; `[]` is "/". */
  type Path = seq<string>

  /** The paths that exist, each with its real path. */
  type FileSystem = map<Path, Path>

  predicate IsName(c: string) {
    c != "" && '/' !in c && c != "." && c != ".."
  }

  predicate Clean(p: Path) {
    forall c :: c in p ==> IsName(c)
  }

  ghost predicate Sound(fs: FileSystem) {
    forall p :: p in fs ==> Clean(p) && Clean(fs[p])
  }

  // ---------------------------------------------------------------- paths as strings

  function Slashed(p: Path): string {
    if p == [] then "" else "/" + p[0] + Slashed(p[1..])
  }

  function PathText(p: Path): string {
    if p == [] then "/" else Slashed(p)
  }

  /** `resolveWithinRoot` adds a separator to the root unless it ends in one. */
  function WithSeparator(s: string): string {
    if s != "" && s[|s| - 1] == '/' then s else s + "/"
  }

  predicate PassesResolve(root: string, candidate: string) {
    candidate == root || StartsWith(candidate, WithSeparator(root))
  }

  /** `within` always adds one. */
  predicate PassesWithin(root: string, candidate: string) {
    candidate == root || StartsWith(candidate, root + "/")
  }

  lemma HeadsAgree(a: string, b: string, s: string, t: string)
    requires '/' !in a && '/' !in b
    requires s != "" && s[0] == '/' && (t == "" || t[0] == '/')
    requires StartsWith(b + t, a + s)
    ensures a == b && StartsWith(t, s)
  {
    var whole := b + t;
    assert whole[..|a + s|] == a + s;
    assert (a + s)[|a|] == s[0];
    assert whole[|a|] == whole[..|a + s|][|a|];
    assert a == whole[..|a|];
    assert t[..|s|] == whole[|b|..|b| + |s|] == s;
  }

  /** Texts that begin with a slashed component agree on it exactly when one starts with the other. */
  lemma FirstComponent(a: string, b: string, s: string, t: string)
    requires '/' !in a && '/' !in b
    requires s != "" && s[0] == '/' && (t == "" || t[0] == '/')
    ensures StartsWith("/" + b + t, "/" + a + s) <==> a == b && StartsWith(t, s)
  {
    var u, v := "/" + b + t, "/" + a + s;
    assert u[1..] == b + t && v[1..] == a + s;
    if StartsWith(u, v) {
      assert u[..|v|][1..] == (b + t)[..|a + s|];
      HeadsAgree(a, b, s, t);
    }
    if a == b && StartsWith(t, s) {
      assert u[..|v|] == "/" + a + t[..|s|];
    }
  }

  lemma CleanTail(p: Path)
    requires Clean(p) && p != []
    ensures Clean(p[1..]) && '/' !in p[0]
  {
    assert p[0] in p;
  }

  lemma {:induction false} ProperPrefix(p: Path, q: Path)
    requires Clean(p) && Clean(q)
    ensures StartsWith(Slashed(q), Slashed(p) + "/") <==> p < q
  {
    if q == [] {
    } else if p == [] {
      assert Slashed(q)[..1] == "/";
    } else {
      CleanTail(p);
      CleanTail(q);
      ProperPrefix(p[1..], q[1..]);
      PrefixByParts(p, q);
      assert Slashed(p) + "/" == "/" + p[0] + (Slashed(p[1..]) + "/");
      FirstComponent(p[0], q[0], Slashed(p[1..]) + "/", Slashed(q[1..]));
    }
  }

  lemma PrefixByParts(p: Path, q: Path)
    requires p != [] && q != []
    ensures p < q <==> p[0] == q[0] && p[1..] < q[1..]
  {
    assert p == [p[0]] + p[1..] && q == [q[0]] + q[1..];
  }

  lemma {:induction false} SlashedAppend(p: Path, c: string)
    ensures Slashed(p + [c]) == Slashed(p) + "/" + c
  {
    if p == [] {
      assert [] + [c] == [c];
      assert Slashed([c]) == "/" + c + Slashed([]);
    } else {
      assert (p + [c])[1..] == p[1..] + [c];
      SlashedAppend(p[1..], c);
    }
  }

  lemma TextPrefix(p: Path, q: Path)
    requires Clean(p) && Clean(q) && Slashed(p) == Slashed(q)
    ensures p <= q
  {
    SlashedAppend(q, "x");
    var longer := q + ["x"];
    assert Slashed(longer)[..|Slashed(q)| + 1] == Slashed(q) + "/";
    ProperPrefix(p, longer);
    assert longer[..|q|] == q;
  }

  lemma {:induction false} SlashedEnds(p: Path)
    requires Clean(p) && p != []
    ensures Slashed(p) != "" && Slashed(p)[0] == '/' && Slashed(p)[|Slashed(p)| - 1] != '/' && Slashed(p) != "/"
  {
    assert p[0] in p;
    if |p| > 1 {
      SlashedEnds(p[1..]);
    } else {
      assert Slashed(p[1..]) == "";
    }
  }

  lemma SameText(p: Path, q: Path)
    requires Clean(p) && Clean(q)
    ensures PathText(p) == PathText(q) <==> p == q
  {
    if p != [] {
      SlashedEnds(p);
    }
    if q != [] {
      SlashedEnds(q);
    }
    if p != [] && q != [] && Slashed(p) == Slashed(q) {
      TextPrefix(p, q);
      TextPrefix(q, p);
    }
  }

  /** The string test of `resolveWithinRoot` holds exactly when the root's components are a prefix. */
  lemma ResolveTestIsContainment(root: Path, candidate: Path)
    requires Clean(root) && Clean(candidate)
    ensures PassesResolve(PathText(root), PathText(candidate)) <==> root <= candidate
  {
    SameText(root, candidate);
    if root == [] {
      if candidate != [] {
        SlashedEnds(candidate);
        assert Slashed(candidate)[..1] == "/";
      }
    } else {
      SlashedEnds(root);
      if candidate == [] {
        assert |Slashed(root) + "/"| > 1;
      } else {
        ProperPrefix(root, candidate);
      }
    }
  }

  /** The test of `within` agrees except below the root directory itself, where it finds nothing. */
  lemma WithinTestIsContainment(root: Path, candidate: Path)
    requires Clean(root) && Clean(candidate)
    ensures PassesWithin(PathText(root), PathText(candidate)) <==>
            root <= candidate && (root != [] || candidate == [])
  {
    ResolveTestIsContainment(root, candidate);
    SameText(root, candidate);
    if root != [] {
      SlashedEnds(root);
    } else if candidate != [] {
      SlashedEnds(candidate);
      SecondIsNoSlash(candidate);
      assert "//"[1] == '/';
    }
  }

  lemma SecondIsNoSlash(p: Path)
    requires Clean(p) && p != []
    ensures |Slashed(p)| > 1 && Slashed(p)[1] != '/'
  {
    assert IsName(p[0]) && p[0][0] in p[0];
    assert Slashed(p)[1] == p[0][0];
  }

  // ---------------------------------------------------------------- path.resolve

  function Parent(p: Path): Path {
    if p == [] then [] else p[..|p| - 1]
  }

  function Follow(at: Path, parts: seq<string>): Path
    decreases |parts|
  {
    if parts == [] then at else Follow(Enter(at, parts[0]), parts[1..])
  }

  function Enter(at: Path, part: string): Path {
    if part == "" || part == "." then at else if part == ".." then Parent(at) else at + [part]
  }

  /** `path.resolve(base, relative)` */
  function Resolve(base: Path, relative: string): Path {
    Follow(if StartsWith(relative, "/") then [] else base, Text.Split(relative, '/'))
  }

  lemma {:induction false} FollowStaysClean(at: Path, parts: seq<string>)
    requires Clean(at) && forall p :: p in parts ==> '/' !in p
    ensures Clean(Follow(at, parts))
    decreases |parts|
  {
    if parts != [] {
      assert parts[0] in parts;
      FollowStaysClean(Enter(at, parts[0]), parts[1..]);
    }
  }

  lemma ResolveIsClean(base: Path, relative: string)
    requires Clean(base)
    ensures Clean(Resolve(base, relative))
  {
    Text.SplitHasNoSeparator(relative, '/');
    FollowStaysClean(if StartsWith(relative, "/") then [] else base, Text.Split(relative, '/'));
  }

  lemma {:induction false} FollowNames(at: Path, names: seq<string>)
    requires Clean(names)
    ensures Follow(at, names) == at + names
    decreases |names|
  {
    if names == [] {
      assert at + names == at;
    } else {
      assert names[0] in names;
      FollowNames(at + [names[0]], names[1..]);
      assert at + names == at + [names[0]] + names[1..];
    }
  }

  /** The relative path of anything below a directory, as the file tree lists it, resolves back to it. */
  lemma RelativeResolvesBack(base: Path, below: Path)
    requires Clean(below)
    ensures Resolve(base, Text.Join(below, '/')) == base + below
  {
    var relative := Text.Join(below, '/');
    if below == [] {
      assert Text.Split("", '/') == [""];
      assert Follow(base, [""]) == Follow(base, [""][1..]);
      assert base + below == base;
    } else {
      Text.SplitJoin(below, '/');
      FollowNames(base, below);
      assert IsName(below[0]) && below[0][0] in below[0];
      assert relative[0] == below[0][0];
    }
  }

  // ---------------------------------------------------------------- dots

  function Ups(k: nat): seq<string> {
    if k == 0 then [] else [".."] + Ups(k - 1)
  }

  /** The directory `k` levels up; there is nothing above "/". */
  function Above(base: Path, k: nat): Path {
    if k <= |base| then base[..|base| - k] else []
  }

  lemma {:induction false} UpsAreDots(k: nat)
    ensures |Ups(k)| == k && forall p :: p in Ups(k) ==> p == ".."
  {
    if k > 0 {
      UpsAreDots(k - 1);
    }
  }

  lemma {:induction false} FollowAppend(at: Path, a: seq<string>, b: seq<string>)
    ensures Follow(at, a + b) == Follow(Follow(at, a), b)
    decreases |a|
  {
    if a == [] {
      assert a + b == b;
    } else {
      assert (a + b)[1..] == a[1..] + b;
      FollowAppend(Enter(at, a[0]), a[1..], b);
    }
  }

  lemma {:induction false} FollowUps(at: Path, k: nat)
    ensures Follow(at, Ups(k)) == Above(at, k)
    decreases k
  {
    if k == 0 {
      assert at[..|at|] == at;
    } else {
      assert Ups(k)[0] == ".." && Ups(k)[1..] == Ups(k - 1);
      FollowUps(Parent(at), k - 1);
      if k <= |at| {
        assert Parent(at)[..|at| - k] == at[..|at| - k];
      }
    }
  }

  /** Going up `k` levels and then down by names leads to those names below the directory so many levels up, and below
      "/" when there are not so many. */
  lemma ResolveGoesUp(base: Path, k: nat, below: Path)
    requires Clean(below)
    ensures Resolve(base, Text.Join(Ups(k) + below, '/')) == Above(base, k) + below
  {
    var parts := Ups(k) + below;
    if k == 0 {
      assert parts == below && Above(base, 0) == base;
      RelativeResolvesBack(base, below);
    } else {
      UpsAreDots(k);
      assert parts[0] == ".." && Text.Join(parts, '/')[0] == '.';
      Text.SplitJoin(parts, '/');
      FollowAppend(base, Ups(k), below);
      FollowUps(base, k);
      FollowNames(Above(base, k), below);
    }
  }

  /** Such a path stays within the root exactly if it goes back down the way it came up. */
  lemma ClimbsOutUnlessItReturns(root: Path, k: nat, below: Path)
    requires Clean(below)
    ensures root <= Resolve(root, Text.Join(Ups(k) + below, '/')) <==> root[|Above(root, k)|..] <= below
  {
    ResolveGoesUp(root, k, below);
    var up := Above(root, k);
    assert root == up + root[|up|..];
    SamePrefix(up, root[|up|..], below);
  }

  lemma SamePrefix(up: Path, rest: Path, below: Path)
    ensures up + rest <= up + below <==> rest <= below
  {
    if up + rest <= up + below {
      assert rest == (up + rest)[|up|..] == (up + below)[|up|..|up + rest|] == below[..|rest|];
    }
    if rest <= below {
      assert (up + below)[..|up + rest|] == up + below[..|rest|];
    }
  }

  /** An absolute path ignores the base. */
  lemma AbsoluteIgnoresBase(base: Path, below: Path)
    requires Clean(below)
    ensures Resolve(base, "/" + Text.Join(below, '/')) == below
  {
    var names := Text.Join(below, '/');
    var relative := "/" + names;
    assert relative == "" + "/" + names && relative[..1] == "/";
    Text.SplitHead("", names, '/');
    var parts := Text.Split(names, '/');
    assert ([""] + parts)[1..] == parts;
    if below == [] {
      assert Follow([], parts) == Follow([], parts[1..]);
    } else {
      Text.SplitJoin(below, '/');
      FollowNames([], below);
      assert [] + below == below;
    }
  }

  /** Empty components and single dots lead nowhere, and going into a directory and up again leads back, wherever in a
      path that happens. */
  lemma DetoursLeadBack(base: Path, a: seq<string>, name: string, b: seq<string>)
    requires IsName(name)
    ensures Follow(base, a + ["."] + b) == Follow(base, a + [""] + b) == Follow(base, a + b)
    ensures Follow(base, a + [name, ".."] + b) == Follow(base, a + b)
  {
    var at := Follow(base, a);
    FollowAppend(base, a, b);
    Detour(base, a, ["."], b);
    Detour(base, a, [""], b);
    Detour(base, a, [name, ".."], b);
    assert ["."][1..] == [] && [""][1..] == [] && [name, ".."][1..] == [".."] && [".."][1..] == [];
    assert Follow(at, [name, ".."]) == Follow(at + [name], [".."]) == Parent(at + [name]) == at;
  }

  lemma Detour(base: Path, a: seq<string>, detour: seq<string>, b: seq<string>)
    ensures Follow(base, a + detour + b) == Follow(Follow(Follow(base, a), detour), b)
  {
    FollowAppend(base, a + detour, b);
    FollowAppend(base, a, detour);
  }

  // ---------------------------------------------------------------- resolveWithinRoot

  datatype Resolution =
    | Resolved(path: Path)
    | RootMissing
    | EscapesWorkdir
    | Unresolvable
    | OutsideThroughLink

  /** `p[..k]` is the deepest ancestor of `p`, or `p` itself, that exists. */
  ghost predicate IsDeepest(fs: FileSystem, p: Path, k: nat) {
    k <= |p| && p[..k] in fs && forall j :: k < j <= |p| ==> p[..j] !in fs
  }

  /** Nothing on the way to `p` exists, not even "/". */
  ghost predicate NothingExists(fs: FileSystem, p: Path) {
    forall j :: 0 <= j <= |p| ==> p[..j] !in fs
  }

  lemma DeepestIsUnique(fs: FileSystem, p: Path, j: nat, k: nat)
    requires IsDeepest(fs, p, j) && IsDeepest(fs, p, k)
    ensures j == k
  {
  }

  lemma OnlyTheTopIsItsParent(p: Path)
    requires Clean(p)
    ensures PathText(Parent(p)) == PathText(p) <==> p == []
  {
    SameText(Parent(p), p);
  }

  /** The target lies below the root, and so does the real path of its deepest existing ancestor. */
  ghost predicate Contained(fs: FileSystem, realRoot: Path, target: Path) {
    && realRoot <= target
    && exists k: nat :: IsDeepest(fs, target, k) && realRoot <= fs[target[..k]]
  }

  lemma NothingIsDeepest(fs: FileSystem, p: Path)
    requires NothingExists(fs, p)
    ensures forall k: nat :: !IsDeepest(fs, p, k)
  {
  }

  /** `resolveWithinRoot`: the loop climbs to the deepest existing ancestor and ends there or at "/". */
  method ResolveWithinRoot(fs: FileSystem, root: Path, relative: string) returns (r: Resolution)
    requires Sound(fs)
    ensures root !in fs <==> r == RootMissing
    ensures root in fs ==>
              var target := Resolve(fs[root], relative);
              && (r == EscapesWorkdir <==> !(fs[root] <= target))
              && (r == Unresolvable <==> fs[root] <= target && NothingExists(fs, target))
              && (r == Resolved(target) <==> Contained(fs, fs[root], target))
              && (r == OutsideThroughLink <==>
                    fs[root] <= target && !NothingExists(fs, target) && !Contained(fs, fs[root], target))
  {
    if root !in fs {
      return RootMissing;
    }
    var realRoot := fs[root];
    var resolved := Resolve(realRoot, relative);
    ResolveIsClean(realRoot, relative);
    ResolveTestIsContainment(realRoot, resolved);
    if !PassesResolve(PathText(realRoot), PathText(resolved)) {
      return EscapesWorkdir;
    }
    var existing := resolved;
    assert resolved[..|resolved|] == resolved;
    while existing !in fs
      invariant existing == resolved[..|existing|] && |existing| <= |resolved|
      invariant forall j :: |existing| < j <= |resolved| ==> resolved[..j] !in fs
      decreases |existing|
    {
      var parent := Parent(existing);
      OnlyTheTopIsItsParent(existing);
      if PathText(parent) == PathText(existing) {
        assert NothingExists(fs, resolved);
        NothingIsDeepest(fs, resolved);
        return Unresolvable;
      }
      existing := parent;
    }
    assert IsDeepest(fs, resolved, |existing|);
    assert !NothingExists(fs, resolved);
    var realExisting := fs[existing];
    ResolveTestIsContainment(realRoot, realExisting);
    if !PassesResolve(PathText(realRoot), PathText(realExisting)) {
      return OutsideThroughLink;
    }
    return Resolved(resolved);
  }

  // ---------------------------------------------------------------- within

  /** `within` of the artifact store; a path that cannot be resolved is not within anything. */
  predicate Within(fs: FileSystem, candidate: Path, root: Path) {
    root in fs && candidate in fs && PassesWithin(PathText(fs[root]), PathText(fs[candidate]))
  }

  lemma ExistingIsDeepest(fs: FileSystem, p: Path)
    requires p in fs
    ensures IsDeepest(fs, p, |p|)
  {
    assert p[..|p|] == p;
  }

  /** For an existing target, resolving checks its own path and its real path; `within` only the real path. */
  lemma ExistingIsContained(fs: FileSystem, realRoot: Path, target: Path)
    requires target in fs
    ensures Contained(fs, realRoot, target) <==> realRoot <= target && realRoot <= fs[target]
  {
    ExistingIsDeepest(fs, target);
    assert target[..|target|] == target;
    forall k: nat | IsDeepest(fs, target, k)
      ensures k == |target|
    {
      DeepestIsUnique(fs, target, k, |target|);
    }
  }

  /**
   * On any existing target the two tests give the same answer exactly when, for the root "/", the target really is "/",
   * and for any other root, the target does not lie outside it while its real path lies inside.
   */
  lemma BothTestsAgree(fs: FileSystem, root: Path, target: Path)
    requires Sound(fs) && root in fs && target in fs
    ensures (Contained(fs, fs[root], target) <==> Within(fs, target, root)) <==>
            if fs[root] == [] then fs[target] == [] else (fs[root] <= fs[target] ==> fs[root] <= target)
  {
    ExistingIsContained(fs, fs[root], target);
    WithinTestIsContainment(fs[root], fs[target]);
  }

  /** A link outside the root to a place inside: within the root for the artifact store, but not resolved. */
  lemma LinkIntoTheRoot()
    ensures var fs: FileSystem := map[["r"] := ["r"], ["l"] := ["r", "x"], ["r", "x"] := ["r", "x"]];
            && Sound(fs) && Resolve(["r"], "/l") == ["l"]
            && Within(fs, ["l"], ["r"]) && !Contained(fs, ["r"], ["l"])
  {
    var fs: FileSystem := map[["r"] := ["r"], ["l"] := ["r", "x"], ["r", "x"] := ["r", "x"]];
    assert IsName("r") && IsName("l") && IsName("x");
    assert Sound(fs);
    ExistingIsContained(fs, ["r"], ["l"]);
    WithinTestIsContainment(["r"], ["r", "x"]);
    assert ["r", "x"][..1] == ["r"];
    ResolvesRooted();
  }

  lemma ResolvesRooted()
    ensures Resolve(["r"], "/l") == ["l"]
  {
    assert ["", "l"] == [""] + ["l"];
    assert "/" != "" && "/l" == "" + "/" + "l";
    Text.SplitHead("", "l", '/');
    Text.SplitWhole("l", '/');
    assert ["", "l"][1..] == ["l"] && ["l"][1..] == [];
    assert Follow([], ["", "l"]) == Follow([], ["l"]);
    assert Follow([], ["l"]) == Follow(["l"], []);
    assert "/l"[..1] == "/";
  }
}
