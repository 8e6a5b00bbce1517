// The workspace snapshot of a sandboxed run: `cloneWorkspaceForSandbox` in
// src/runtime/docker-sandbox.ts. Paths are absolute, as the names along them; a directory is
// the map of its entries, and symbolic links are copied, never followed.
module SandboxClone {

  type Name = string
  type Path = seq<Name>

  datatype Node = File(content: string) | Link(target: string) | Dir(entries: map<Name, Node>)

  // ----- what is at a path -----

  datatype Kind = Absent | AFile(content: string) | ALink(target: string) | ADir

  function KindOf(node: Node): Kind {
    match node
    case File(content) => AFile(content)
    case Link(target) => ALink(target)
    case Dir(_) => ADir
  }

  function Look(node: Node, q: Path): Kind
    decreases |q|
  {
    if q == [] then KindOf(node)
    else if node.Dir? && q[0] in node.entries then Look(node.entries[q[0]], q[1..])
    else Absent
  }

  // A tree is determined by what is found at each path.
  lemma {:induction false} LooksDetermine(a: Node, b: Node)
    requires forall q :: Look(a, q) == Look(b, q)
    ensures a == b
    decreases a
  {
    assert Look(a, []) == Look(b, []);
    if a.Dir? {
      forall n ensures n in a.entries <==> n in b.entries {
        assert Look(a, [n]) == Look(b, [n]);
        if n in a.entries { assert Look(a, [n]) == Look(a.entries[n], []); }
        if n in b.entries { assert Look(b, [n]) == Look(b.entries[n], []); }
      }
      forall n | n in a.entries ensures a.entries[n] == b.entries[n] {
        forall q ensures Look(a.entries[n], q) == Look(b.entries[n], q) {
          assert ([n] + q)[1..] == q;
          assert Look(a, [n] + q) == Look(b, [n] + q);
        }
        LooksDetermine(a.entries[n], b.entries[n]);
      }
      assert a.entries == b.entries;
    }
  }

  // ----- everything but the excluded paths -----

  predicate Above(path: Path, excludes: set<Path>) {
    exists ex :: ex in excludes && path < ex
  }

  function CopyDirExcluding(dir: Node, at: Path, excludes: set<Path>): (copy: Node)
    requires dir.Dir?
    ensures copy.Dir?
    decreases dir
  {
    Dir(map n | n in dir.entries && at + [n] !in excludes ::
          if dir.entries[n].Dir? && Above(at + [n], excludes)
          then CopyDirExcluding(dir.entries[n], at + [n], excludes)
          else dir.entries[n])
  }

  // At `q` inside the directory `at`, or on the way there, lies an excluded path.
  predicate Pruned(at: Path, excludes: set<Path>, q: Path) {
    exists ex :: ex in excludes && at < ex && ex <= at + q
  }

  lemma Steps(at: Path, q: Path)
    requires q != []
    ensures (at + [q[0]]) + q[1..] == at + q
  {
  }

  lemma PrunedBelow(at: Path, excludes: set<Path>, q: Path)
    requires q != []
    ensures Pruned(at, excludes, q) <==> at + [q[0]] in excludes || Pruned(at + [q[0]], excludes, q[1..])
  {
    Steps(at, q);
    var p := at + [q[0]];
    if Pruned(at, excludes, q) {
      var ex :| ex in excludes && at < ex && ex <= at + q;
      assert p == (at + q)[..|p|];
      assert ex[..|p|] == p;
      if p !in excludes {
        assert |ex| == |p| ==> ex == p;
        assert p < ex && ex <= p + q[1..];
        assert Pruned(p, excludes, q[1..]);
      }
    }
    if p in excludes {
      assert at < p && p <= at + q;
      assert Pruned(at, excludes, q);
    } else if Pruned(p, excludes, q[1..]) {
      var ex :| ex in excludes && p < ex && ex <= p + q[1..];
      assert at < ex by { assert ex[..|at|] == p[..|at|] == at; }
      assert Pruned(at, excludes, q);
    }
  }

  // Copying whole directories where no exclude lies below gives what a per-path filter gives.
  lemma {:induction false} ExcludingExact(dir: Node, at: Path, excludes: set<Path>, q: Path)
    requires dir.Dir?
    ensures Look(CopyDirExcluding(dir, at, excludes), q) == if Pruned(at, excludes, q) then Absent else Look(dir, q)
    decreases |q|
  {
    if q == [] {
      assert !Pruned(at, excludes, q) by { assert at + q == at; }
    } else {
      var p := at + [q[0]];
      PrunedBelow(at, excludes, q);
      if q[0] in dir.entries && p !in excludes {
        var child := dir.entries[q[0]];
        if Above(p, excludes) {
          if child.Dir? {
            ExcludingExact(child, p, excludes, q[1..]);
          } else if q[1..] == [] {
            assert !Pruned(p, excludes, []) by { assert p + [] == p; }
          }
        } else {
          assert !Pruned(p, excludes, q[1..]);
        }
      }
    }
  }

  // ----- what git lists -----

  // One line of git's listing, relative to the workspace. `slash`: the line ends in a
  // separator, as it does for an untracked nested repository.
  datatype Listed = Listed(path: Path, slash: bool)

  // The listed path is excluded or inside an excluded directory other than `/`.
  predicate Skipped(path: Path, excludes: set<Path>) {
    exists ex :: ex in excludes && ex != [] && ex <= path
  }

  // No directory entry's path ends in a separator, so a line that does allows no file.
  function AllowedFiles(listed: seq<Listed>, root: Path, excludes: set<Path>): set<Path> {
    set l | l in listed && !l.slash && !Skipped(root + l.path, excludes) :: root + l.path
  }

  // No path is recognised as lying below a workspace that is the root of the file system.
  function AllowedDirs(listed: seq<Listed>, root: Path, excludes: set<Path>): set<Path> {
    set l, k | l in listed && root != [] && !Skipped(root + l.path, excludes) && 0 < k < |l.path| :: root + l.path[..k]
  }

  function CopyGitDir(dir: Node, at: Path, files: set<Path>, dirs: set<Path>): (copy: Node)
    requires dir.Dir?
    ensures copy.Dir?
    decreases dir
  {
    Dir(map n | n in dir.entries && ((dir.entries[n].Dir? && at + [n] in dirs) || at + [n] in files) ::
          if dir.entries[n].Dir? && at + [n] in dirs
          then CopyGitDir(dir.entries[n], at + [n], files, dirs)
          else dir.entries[n])
  }

  // Every directory strictly between `at` and an allowed path is itself allowed.
  ghost predicate Closed(at: Path, files: set<Path>, dirs: set<Path>) {
    forall d, p {:trigger d in dirs, p in files + dirs} :: p in files + dirs && at < d && d < p ==> d in dirs
  }

  // The directory is entered, and only what is allowed in it is copied.
  predicate Entered(dir: Node, at: Path, dirs: set<Path>, q: Path) {
    q == [] || (at + q in dirs && Look(dir, q) == ADir)
  }

  // What is at `q` is copied with everything below it.
  predicate Whole(dir: Node, at: Path, files: set<Path>, dirs: set<Path>, q: Path) {
    at + q in files && !Entered(dir, at, dirs, q)
  }

  predicate Kept(dir: Node, at: Path, files: set<Path>, dirs: set<Path>, q: Path) {
    Entered(dir, at, dirs, q) || exists k :: 0 < k <= |q| && Whole(dir, at, files, dirs, q[..k])
  }

  lemma ChildEntered(dir: Node, at: Path, dirs: set<Path>, q: Path)
    requires dir.Dir? && q != [] && q[0] in dir.entries
    requires dir.entries[q[0]].Dir? && at + [q[0]] in dirs
    ensures Entered(dir, at, dirs, q) <==> Entered(dir.entries[q[0]], at + [q[0]], dirs, q[1..])
  {
    Steps(at, q);
    if q[1..] == [] {
      assert at + q == at + [q[0]];
      assert Look(dir, q) == KindOf(dir.entries[q[0]]);
    }
  }

  lemma ChildWhole(dir: Node, at: Path, files: set<Path>, dirs: set<Path>, q: Path)
    requires dir.Dir? && q != [] && q[0] in dir.entries
    requires dir.entries[q[0]].Dir? && at + [q[0]] in dirs
    ensures Whole(dir, at, files, dirs, q) <==> Whole(dir.entries[q[0]], at + [q[0]], files, dirs, q[1..])
  {
    Steps(at, q);
    ChildEntered(dir, at, dirs, q);
  }

  lemma ChildKept(dir: Node, at: Path, files: set<Path>, dirs: set<Path>, q: Path)
    requires dir.Dir? && q != [] && q[0] in dir.entries
    requires dir.entries[q[0]].Dir? && at + [q[0]] in dirs
    ensures Kept(dir, at, files, dirs, q) <==> Kept(dir.entries[q[0]], at + [q[0]], files, dirs, q[1..])
  {
    var child, p := dir.entries[q[0]], at + [q[0]];
    ChildEntered(dir, at, dirs, q);
    forall k | 0 < k <= |q|
      ensures Whole(dir, at, files, dirs, q[..k]) <==> Whole(child, p, files, dirs, q[1..][..k - 1])
    {
      assert q[..k][1..] == q[1..][..k - 1];
      ChildWhole(dir, at, files, dirs, q[..k]);
    }
    if k :| 0 < k <= |q| && Whole(dir, at, files, dirs, q[..k]) {
      assert Whole(child, p, files, dirs, q[1..][..k - 1]);
      assert k > 1;
      assert Kept(child, p, files, dirs, q[1..]);
    }
    if k :| 0 < k <= |q[1..]| && Whole(child, p, files, dirs, q[1..][..k]) {
      assert Whole(dir, at, files, dirs, q[..k + 1]);
    }
  }

  // What is kept but not at the first step lies below an allowed directory.
  lemma FirstStep(dir: Node, at: Path, files: set<Path>, dirs: set<Path>, q: Path)
    requires dir.Dir? && q != [] && Closed(at, files, dirs) && Kept(dir, at, files, dirs, q)
    requires at + [q[0]] !in files
    ensures at + [q[0]] in dirs
  {
    var p := at + [q[0]];
    assert at + q[..1] == p;
    if Entered(dir, at, dirs, q) {
      assert at + q in files + dirs;
      if |q| > 1 { assert p < at + q by { Steps(at, q); } }
      else { assert q == [q[0]]; }
    } else {
      var k :| 0 < k <= |q| && Whole(dir, at, files, dirs, q[..k]);
      assert at + q[..k] in files + dirs;
      assert p < at + q[..k] by { Steps(at, q[..k]); }
    }
  }

  lemma {:induction false} GitExact(dir: Node, at: Path, files: set<Path>, dirs: set<Path>, q: Path)
    requires dir.Dir? && Closed(at, files, dirs)
    ensures Look(CopyGitDir(dir, at, files, dirs), q) ==
            if Kept(dir, at, files, dirs, q) then Look(dir, q) else Absent
    decreases |q|
  {
    if q != [] && q[0] in dir.entries {
      var child, p := dir.entries[q[0]], at + [q[0]];
      if child.Dir? && p in dirs {
        assert Closed(p, files, dirs) by {
          forall d, p2 | p2 in files + dirs && p < d && d < p2 ensures d in dirs {
            assert at < d by { assert d[..|at|] == p[..|at|] == at; }
          }
        }
        GitExact(child, p, files, dirs, q[1..]);
        ChildKept(dir, at, files, dirs, q);
      } else if p in files {
        assert q[..1] == [q[0]] && Look(dir, [q[0]]) == KindOf(child);
        assert Whole(dir, at, files, dirs, q[..1]);
      } else if q[1..] == [] {
        assert at + q == p && Look(dir, q) == KindOf(child);
        forall k | 0 < k <= |q| ensures !Whole(dir, at, files, dirs, q[..k]) {
          assert q[..k] == q;
        }
      } else if Kept(dir, at, files, dirs, q) {
        FirstStep(dir, at, files, dirs, q);
      }
    }
  }

  lemma AllowedClosed(listed: seq<Listed>, root: Path, excludes: set<Path>)
    requires root != []
    ensures Closed(root, AllowedFiles(listed, root, excludes), AllowedDirs(listed, root, excludes))
  {
    var files, dirs := AllowedFiles(listed, root, excludes), AllowedDirs(listed, root, excludes);
    forall d, p | p in files + dirs && root < d && d < p ensures d in dirs {
      var l :| l in listed && !Skipped(root + l.path, excludes) && p <= root + l.path;
      var k := |d| - |root|;
      assert d == (root + l.path)[..|d|] == root + l.path[..k];
      assert 0 < k < |l.path|;
    }
  }

  // ----- the snapshot against the listing -----

  function GitCopy(dir: Node, root: Path, listed: seq<Listed>, excludes: set<Path>): (copy: Node)
    requires dir.Dir?
    ensures copy.Dir?
  {
    CopyGitDir(dir, root, AllowedFiles(listed, root, excludes), AllowedDirs(listed, root, excludes))
  }

  // The path, or a directory on the way to it, is an excluded path.
  predicate Hidden(path: Path, excludes: set<Path>) {
    exists k :: 0 < k <= |path| && path[..k] in excludes
  }

  // The policy path by path: what git lists and everything inside it, and the directories on
  // the way there, except at or below an excluded path.
  predicate Wanted(dir: Node, root: Path, listed: seq<Listed>, excludes: set<Path>, q: Path) {
    q == [] ||
    (!Hidden(root + q, excludes) &&
     exists l :: l in listed &&
       (l.path <= q || (Look(dir, q) == ADir && q < l.path && !Hidden(root + l.path, excludes))))
  }

  // No listed path lies inside another.
  predicate PrefixFree(listed: seq<Listed>) {
    (forall l :: l in listed ==> l.path != []) &&
    (forall a, b :: a in listed && b in listed ==> !(a.path < b.path))
  }

  // Something on disk, not excluded, that is listed only with a trailing separator.
  predicate Nested(dir: Node, root: Path, listed: seq<Listed>, excludes: set<Path>) {
    exists l :: l in listed && l.slash && Listed(l.path, false) !in listed && !Hidden(root + l.path, excludes) &&
      Look(dir, l.path) != Absent
  }

  // An excluded path on disk strictly inside a listed directory that is copied.
  predicate ExcludeInsideListed(dir: Node, root: Path, listed: seq<Listed>, excludes: set<Path>) {
    exists l, ex :: l in listed && ex in excludes && !Hidden(root + l.path, excludes) && root + l.path < ex &&
      Look(dir, ex[|root|..]) != Absent
  }

  lemma HiddenIsSkipped(excludes: set<Path>)
    ensures forall p :: Hidden(p, excludes) <==> Skipped(p, excludes)
  {
    forall p ensures Hidden(p, excludes) <==> Skipped(p, excludes) {
      if k :| 0 < k <= |p| && p[..k] in excludes { assert p[..k] <= p; }
      if ex :| ex in excludes && ex != [] && ex <= p { assert p[..|ex|] == ex; }
    }
  }

  lemma SkippedBelow(p: Path, q: Path, excludes: set<Path>)
    requires p <= q
    ensures Skipped(p, excludes) ==> Skipped(q, excludes)
  {
    if ex :| ex in excludes && ex != [] && ex <= p { assert ex <= q; }
  }

  lemma ListedAs(listed: seq<Listed>, root: Path, excludes: set<Path>, q: Path)
    ensures root + q in AllowedFiles(listed, root, excludes) ==> exists l :: l in listed && !l.slash && l.path == q
  {
    if root + q in AllowedFiles(listed, root, excludes) {
      var l :| l in listed && !l.slash && root + l.path == root + q;
      assert l.path == (root + l.path)[|root|..] == (root + q)[|root|..] == q;
    }
  }

  lemma FileOf(listed: seq<Listed>, root: Path, excludes: set<Path>, q: Path)
    ensures root + q in AllowedFiles(listed, root, excludes) <==>
            Listed(q, false) in listed && !Skipped(root + q, excludes)
  {
    ListedAs(listed, root, excludes, q);
    if root + q in AllowedFiles(listed, root, excludes) {
      var l :| l in listed && !l.slash && l.path == q;
      assert l == Listed(q, false);
    }
  }

  lemma DirOf(listed: seq<Listed>, root: Path, excludes: set<Path>, q: Path)
    ensures root + q in AllowedDirs(listed, root, excludes) <==>
            q != [] && root != [] && exists l :: l in listed && q < l.path && !Skipped(root + l.path, excludes)
  {
    if root + q in AllowedDirs(listed, root, excludes) {
      var l, k :| l in listed && !Skipped(root + l.path, excludes) && 0 < k < |l.path| &&
        root + l.path[..k] == root + q;
      assert l.path[..k] == (root + l.path[..k])[|root|..] == (root + q)[|root|..] == q;
    }
    if q != [] && root != [] && exists l :: l in listed && q < l.path && !Skipped(root + l.path, excludes) {
      var l :| l in listed && q < l.path && !Skipped(root + l.path, excludes);
      assert root + q == root + l.path[..|q|];
    }
  }

  // `q` is at or inside a listed path that is copied.
  predicate Inside(root: Path, listed: seq<Listed>, excludes: set<Path>, q: Path) {
    exists l :: l in listed && !l.slash && l.path <= q && !Skipped(root + l.path, excludes)
  }

  lemma WholeOf(dir: Node, root: Path, listed: seq<Listed>, excludes: set<Path>, l: Listed)
    requires PrefixFree(listed) && l in listed && !l.slash && !Skipped(root + l.path, excludes)
    ensures Whole(dir, root, AllowedFiles(listed, root, excludes), AllowedDirs(listed, root, excludes), l.path)
  {
    FileOf(listed, root, excludes, l.path);
    DirOf(listed, root, excludes, l.path);
    assert l == Listed(l.path, false);
  }

  // What is kept: directories on the way to an allowed path, and what is inside one.
  lemma KeptOf(dir: Node, root: Path, listed: seq<Listed>, excludes: set<Path>, q: Path)
    requires PrefixFree(listed)
    ensures var files, dirs := AllowedFiles(listed, root, excludes), AllowedDirs(listed, root, excludes);
            Kept(dir, root, files, dirs, q) <==> Entered(dir, root, dirs, q) || Inside(root, listed, excludes, q)
  {
    var files, dirs := AllowedFiles(listed, root, excludes), AllowedDirs(listed, root, excludes);
    if k :| 0 < k <= |q| && Whole(dir, root, files, dirs, q[..k]) {
      FileOf(listed, root, excludes, q[..k]);
      assert Listed(q[..k], false).path <= q;
    }
    if l :| l in listed && !l.slash && l.path <= q && !Skipped(root + l.path, excludes) {
      WholeOf(dir, root, listed, excludes, l);
      assert q[..|l.path|] == l.path;
      assert Kept(dir, root, files, dirs, q);
    }
  }

  lemma EnteredIsWanted(dir: Node, root: Path, listed: seq<Listed>, excludes: set<Path>, q: Path)
    requires root != []
    ensures Entered(dir, root, AllowedDirs(listed, root, excludes), q) ==> Wanted(dir, root, listed, excludes, q)
  {
    HiddenIsSkipped(excludes);
    DirOf(listed, root, excludes, q);
    if q != [] && Entered(dir, root, AllowedDirs(listed, root, excludes), q) {
      var l :| l in listed && q < l.path && !Skipped(root + l.path, excludes);
      SkippedBelow(root + q, root + l.path, excludes);
    }
  }

  // What is wanted and not kept is not on disk, unless a nested repository is.
  lemma WantedIsKept(dir: Node, root: Path, listed: seq<Listed>, excludes: set<Path>, q: Path)
    requires root != [] && PrefixFree(listed) && !Nested(dir, root, listed, excludes)
    requires Wanted(dir, root, listed, excludes, q) && Look(dir, q) != Absent
    ensures Entered(dir, root, AllowedDirs(listed, root, excludes), q) || Inside(root, listed, excludes, q)
  {
    HiddenIsSkipped(excludes);
    DirOf(listed, root, excludes, q);
    if q != [] {
      var l :| l in listed &&
        (l.path <= q || (Look(dir, q) == ADir && q < l.path && !Skipped(root + l.path, excludes)));
      if l.path <= q {
        SkippedBelow(root + l.path, root + q, excludes);
        if l.slash && Listed(l.path, false) !in listed { AbsentBelow(dir, l.path, q); }
        if Listed(l.path, false) in listed { assert Listed(l.path, false).path <= q; }
      }
    }
  }

  lemma {:induction false} AbsentBelow(node: Node, p: Path, q: Path)
    requires p <= q && Look(node, p) == Absent
    ensures Look(node, q) == Absent
    decreases |p|
  {
    if p != [] && node.Dir? && p[0] in node.entries {
      AbsentBelow(node.entries[p[0]], p[1..], q[1..]);
    }
  }

  ghost predicate FollowsListing(dir: Node, root: Path, listed: seq<Listed>, excludes: set<Path>)
    requires dir.Dir?
  {
    forall q :: Look(GitCopy(dir, root, listed, excludes), q) ==
                if Wanted(dir, root, listed, excludes, q) then Look(dir, q) else Absent
  }

  lemma CopiedThere(dir: Node, root: Path, listed: seq<Listed>, excludes: set<Path>, q: Path)
    requires dir.Dir? && root != [] && PrefixFree(listed)
    ensures Look(GitCopy(dir, root, listed, excludes), q) ==
            if Entered(dir, root, AllowedDirs(listed, root, excludes), q) || Inside(root, listed, excludes, q)
            then Look(dir, q) else Absent
  {
    AllowedClosed(listed, root, excludes);
    GitExact(dir, root, AllowedFiles(listed, root, excludes), AllowedDirs(listed, root, excludes), q);
    KeptOf(dir, root, listed, excludes, q);
  }

  lemma Comparable(a: Path, b: Path, q: Path)
    requires a <= q && b <= q
    ensures a <= b || b < a
  {
    assert a == q[..|a|] && b == q[..|b|];
  }

  lemma Relative(root: Path, p: Path, ex: Path)
    requires root + p < ex
    ensures root + ex[|root|..] == ex && p < ex[|root|..]
  {
    assert root == (root + p)[..|root|] == ex[..|root|];
    assert p == (root + p)[|root|..] == ex[..|root + p|][|root|..];
  }

  lemma NothingThere(dir: Node, root: Path, listed: seq<Listed>, excludes: set<Path>, q: Path)
    requires !ExcludeInsideListed(dir, root, listed, excludes)
    requires Inside(root, listed, excludes, q) && Skipped(root + q, excludes)
    ensures Look(dir, q) == Absent
  {
    HiddenIsSkipped(excludes);
    var l :| l in listed && !l.slash && l.path <= q && !Skipped(root + l.path, excludes);
    var ex :| ex in excludes && ex != [] && ex <= root + q;
    assert root + l.path <= root + q;
    Comparable(ex, root + l.path, root + q);
    Relative(root, l.path, ex);
    var inside := ex[|root|..];
    assert inside <= q by { assert q == (root + q)[|root|..]; }
    AbsentBelow(dir, inside, q);
  }

  // An exclude inside a listed directory is copied, or the directory is a nested repository.
  lemma SomethingThere(dir: Node, root: Path, listed: seq<Listed>, excludes: set<Path>)
    requires ExcludeInsideListed(dir, root, listed, excludes) && !Nested(dir, root, listed, excludes)
    ensures exists q :: q != [] && Inside(root, listed, excludes, q) && Skipped(root + q, excludes) &&
                        Look(dir, q) != Absent
  {
    HiddenIsSkipped(excludes);
    var l, ex :| l in listed && ex in excludes && !Skipped(root + l.path, excludes) && root + l.path < ex &&
      Look(dir, ex[|root|..]) != Absent;
    var q := ex[|root|..];
    Relative(root, l.path, ex);
    if Look(dir, l.path) == Absent { AbsentBelow(dir, l.path, q); }
    var plain := Listed(l.path, false);
    assert plain in listed by { assert !l.slash ==> l == plain; }
    assert plain.path <= q && ex <= root + q;
    assert q != [] && Inside(root, listed, excludes, q) && Skipped(root + q, excludes);
  }

  lemma InsideItself(root: Path, listed: seq<Listed>, excludes: set<Path>, l: Listed)
    requires PrefixFree(listed) && l in listed && Inside(root, listed, excludes, l.path)
    ensures Listed(l.path, false) in listed
  {
    var p :| p in listed && !p.slash && p.path <= l.path && !Skipped(root + p.path, excludes);
    assert p == Listed(l.path, false);
  }

  lemma NestedIsLost(dir: Node, root: Path, listed: seq<Listed>, excludes: set<Path>)
    requires dir.Dir? && root != [] && PrefixFree(listed) && Nested(dir, root, listed, excludes)
    ensures exists q :: Wanted(dir, root, listed, excludes, q) && Look(dir, q) != Absent &&
                        Look(GitCopy(dir, root, listed, excludes), q) == Absent
  {
    HiddenIsSkipped(excludes);
    var l :| l in listed && l.slash && Listed(l.path, false) !in listed && !Skipped(root + l.path, excludes) &&
      Look(dir, l.path) != Absent;
    var q := l.path;
    CopiedThere(dir, root, listed, excludes, q);
    DirOf(listed, root, excludes, q);
    if Inside(root, listed, excludes, q) { InsideItself(root, listed, excludes, l); }
    assert q <= q && Wanted(dir, root, listed, excludes, q);
  }

  // The git copy follows the per-path policy exactly when no exclude lies inside a listed
  // directory and no nested repository is on disk.
  lemma SnapshotExactlyWhen(dir: Node, root: Path, listed: seq<Listed>, excludes: set<Path>)
    requires dir.Dir? && root != [] && PrefixFree(listed)
    ensures FollowsListing(dir, root, listed, excludes) <==>
            !ExcludeInsideListed(dir, root, listed, excludes) && !Nested(dir, root, listed, excludes)
  {
    HiddenIsSkipped(excludes);
    hide Entered, Look;
    if Nested(dir, root, listed, excludes) {
      NestedIsLost(dir, root, listed, excludes);
    } else if ExcludeInsideListed(dir, root, listed, excludes) {
      SomethingThere(dir, root, listed, excludes);
      var q :| q != [] && Inside(root, listed, excludes, q) && Skipped(root + q, excludes) && Look(dir, q) != Absent;
      CopiedThere(dir, root, listed, excludes, q);
      assert !Wanted(dir, root, listed, excludes, q);
    } else {
      forall q ensures Look(GitCopy(dir, root, listed, excludes), q) ==
                       if Wanted(dir, root, listed, excludes, q) then Look(dir, q) else Absent {
        FollowsAt(dir, root, listed, excludes, q);
      }
    }
  }

  lemma FollowsAt(dir: Node, root: Path, listed: seq<Listed>, excludes: set<Path>, q: Path)
    requires dir.Dir? && root != [] && PrefixFree(listed)
    requires !ExcludeInsideListed(dir, root, listed, excludes) && !Nested(dir, root, listed, excludes)
    ensures Look(GitCopy(dir, root, listed, excludes), q) ==
            if Wanted(dir, root, listed, excludes, q) then Look(dir, q) else Absent
  {
    HiddenIsSkipped(excludes);
    CopiedThere(dir, root, listed, excludes, q);
    EnteredIsWanted(dir, root, listed, excludes, q);
    if Look(dir, q) != Absent {
      if Wanted(dir, root, listed, excludes, q) {
        WantedIsKept(dir, root, listed, excludes, q);
      } else if Inside(root, listed, excludes, q) {
        assert Skipped(root + q, excludes);
        NothingThere(dir, root, listed, excludes, q);
      }
    }
  }

  // The runs directory of a workspace whose `.jaiph` is a listed directory is copied along.
  lemma SubmoduleBringsItsRuns(root: Path, runs: Node)
    requires root != []
    ensures var dir := Dir(map[".jaiph" := Dir(map["runs" := runs])]);
            var listed, excludes := [Listed([".jaiph"], false)], {root + [".jaiph", "runs"]};
            ExcludeInsideListed(dir, root, listed, excludes) &&
            Look(GitCopy(dir, root, listed, excludes), [".jaiph", "runs"]) == KindOf(runs)
  {
    hide Look, GitCopy, Entered, Inside;
    var q: Path := [".jaiph", "runs"];
    var dir := Dir(map[".jaiph" := Dir(map["runs" := runs])]);
    var listed, ex := [Listed([".jaiph"], false)], root + q;
    LookAtRuns(runs);
    RunsInside(root);
    HiddenIsSkipped({ex});
    assert ex[|root|..] == q && root + listed[0].path < ex;
    CopiedThere(dir, root, listed, {ex}, q);
  }

  lemma LookAtRuns(runs: Node)
    ensures Look(Dir(map[".jaiph" := Dir(map["runs" := runs])]), [".jaiph", "runs"]) == KindOf(runs)
  {
    var q: Path := [".jaiph", "runs"];
    var dir := Dir(map[".jaiph" := Dir(map["runs" := runs])]);
    assert q[1..] == ["runs"] && q[1..][1..] == [];
    assert Look(dir, q) == Look(dir.entries[".jaiph"], q[1..]);
  }

  lemma RunsInside(root: Path)
    ensures var listed, excludes := [Listed([".jaiph"], false)], {root + [".jaiph", "runs"]};
            PrefixFree(listed) && !Skipped(root + listed[0].path, excludes) &&
            Inside(root, listed, excludes, [".jaiph", "runs"])
  {
    var l: Listed := Listed([".jaiph"], false);
    assert l in [l] && l.path <= [".jaiph", "runs"];
  }

  // What a line allows itself: the path without a separator, or something below a directory.
  predicate AllowedAnyway(dir: Node, root: Path, listed: seq<Listed>, excludes: set<Path>, p: Path) {
    (Listed(p, false) in listed && !Hidden(root + p, excludes)) ||
    (Look(dir, p) == ADir && exists l :: l in listed && p < l.path && !Hidden(root + l.path, excludes))
  }

  // A path on disk that git lists with a trailing separator is dropped exactly when git does
  // not list it without one and lists nothing below it.
  lemma NestedRepositoryDropped(dir: Node, root: Path, listed: seq<Listed>, excludes: set<Path>, p: Path)
    requires dir.Dir? && root != [] && p != [] && Listed(p, true) in listed && Look(dir, p) != Absent
    requires forall l :: l in listed ==> l.path != [] && (!l.slash ==> !(l.path < p))
    ensures Look(GitCopy(dir, root, listed, excludes), p) == Absent <==> !AllowedAnyway(dir, root, listed, excludes, p)
  {
    HiddenIsSkipped(excludes);
    var files, dirs := AllowedFiles(listed, root, excludes), AllowedDirs(listed, root, excludes);
    AllowedClosed(listed, root, excludes);
    GitExact(dir, root, files, dirs, p);
    DirOf(listed, root, excludes, p);
    FileOf(listed, root, excludes, p);
    assert p[..|p|] == p;
    forall k | 0 < k <= |p| ensures root + p[..k] in files ==> k == |p| {
      FileOf(listed, root, excludes, p[..k]);
      assert k < |p| ==> p[..k] < p;
    }
  }

  // ----- the whole clone -----

  datatype Listing = NoGit | Git(listed: seq<Listed>)

  datatype Clone = Cloned(copy: Node) | CopyFailed

  const GIT := ".git"

  // git's own directory comes whole, or without what is excluded inside it.
  function CopyDotGit(node: Node, at: Path, excludes: set<Path>): Clone {
    if !Above(at, excludes) then Cloned(node)
    else if node.Dir? then Cloned(CopyDirExcluding(node, at, excludes))
    else CopyFailed
  }

  function CloneOf(dir: Node, root: Path, excludes: set<Path>, listing: Listing): (r: Clone)
    requires dir.Dir?
  {
    match listing
    case NoGit => Cloned(CopyDirExcluding(dir, root, excludes))
    case Git(listed) =>
      var copy := GitCopy(dir, root, listed, excludes);
      if GIT !in dir.entries then Cloned(copy)
      else
        var own := CopyDotGit(dir.entries[GIT], root + [GIT], excludes);
        if own.CopyFailed? then own else Cloned(Dir(copy.entries[GIT := own.copy]))
  }

  // What the policy leaves at a path.
  predicate Remains(dir: Node, root: Path, excludes: set<Path>, listing: Listing, q: Path) {
    match listing
    case NoGit => !Pruned(root, excludes, q)
    case Git(listed) =>
      if q != [] && q[0] == GIT then !Pruned(root + [GIT], excludes, q[1..])
      else Kept(dir, root, AllowedFiles(listed, root, excludes), AllowedDirs(listed, root, excludes), q)
  }

  // The clone holds, path by path, what the policy leaves; it fails only when `.git` is not a
  // directory and yet lies on the way to an exclude.
  lemma CloneExact(dir: Node, root: Path, excludes: set<Path>, listing: Listing, q: Path)
    requires dir.Dir? && root != []
    requires listing.Git? ==> forall l :: l in listing.listed ==> l.path != [] && l.path[0] != GIT
    ensures CloneOf(dir, root, excludes, listing).CopyFailed? <==>
            listing.Git? && GIT in dir.entries && !dir.entries[GIT].Dir? && Above(root + [GIT], excludes)
    ensures CloneOf(dir, root, excludes, listing).Cloned? ==>
            Look(CloneOf(dir, root, excludes, listing).copy, q) ==
            if Remains(dir, root, excludes, listing, q) then Look(dir, q) else Absent
  {
    match listing
    case NoGit => ExcludingExact(dir, root, excludes, q);
    case Git(listed) =>
      AllowedClosed(listed, root, excludes);
      GitExact(dir, root, AllowedFiles(listed, root, excludes), AllowedDirs(listed, root, excludes), q);
      if GIT in dir.entries && q != [] && q[0] == GIT {
        DotGitExact(dir.entries[GIT], root + [GIT], excludes, q[1..]);
      }
  }

  lemma DotGitExact(node: Node, at: Path, excludes: set<Path>, q: Path)
    ensures var own := CopyDotGit(node, at, excludes);
            own.Cloned? ==> Look(own.copy, q) == if Pruned(at, excludes, q) then Absent else Look(node, q)
  {
    if node.Dir? { ExcludingExact(node, at, excludes, q); }
  }

  // ----- the runs directories -----

  datatype Option<+T> = None | Some(value: T)

  // The default runs directory is always excluded, and the configured one.
  function Excludes(root: Path, runsRoot: Option<Path>): set<Path> {
    {root + [".jaiph", "runs"], if runsRoot.Some? then runsRoot.value else root + [".jaiph", "runs"]}
  }

  // The default runs directory, and the configured one if it lies inside the workspace.
  predicate RunsAt(root: Path, runsRoot: Option<Path>, ex: Path) {
    ex == root + [".jaiph", "runs"] || (runsRoot == Some(ex) && root < ex)
  }

  lemma PrunedByRuns(root: Path, runsRoot: Option<Path>, q: Path)
    ensures Pruned(root, Excludes(root, runsRoot), q) <==> exists ex :: RunsAt(root, runsRoot, ex) && ex <= root + q
  {
    var excludes := Excludes(root, runsRoot);
    if Pruned(root, excludes, q) {
      var ex :| ex in excludes && root < ex && ex <= root + q;
      assert RunsAt(root, runsRoot, ex);
    }
    if ex :| RunsAt(root, runsRoot, ex) && ex <= root + q {
      assert ex in excludes && root < ex;
    }
  }

  // Without git the clone is the workspace but for what lies at or below the runs directories.
  lemma OnlyRunsLeftBehind(dir: Node, root: Path, runsRoot: Option<Path>, q: Path)
    requires dir.Dir?
    ensures var r := CloneOf(dir, root, Excludes(root, runsRoot), NoGit);
            r.Cloned? && Look(r.copy, q) ==
            if exists ex :: RunsAt(root, runsRoot, ex) && ex <= root + q then Absent else Look(dir, q)
  {
    ExcludingExact(dir, root, Excludes(root, runsRoot), q);
    PrunedByRuns(root, runsRoot, q);
  }

  // With git no runs come along either, unless git lists a directory that holds them or they
  // are kept in `.git` itself.
  lemma RunsLeftBehind(dir: Node, root: Path, runsRoot: Option<Path>, listed: seq<Listed>, ex: Path, q: Path)
    requires dir.Dir? && root != [] && RunsAt(root, runsRoot, ex) && ex <= root + q && ex != root + [GIT]
    requires forall l :: l in listed ==> l.path != [] && l.path[0] != GIT && !(root + l.path < ex)
    ensures var r := CloneOf(dir, root, Excludes(root, runsRoot), Git(listed));
            r.Cloned? ==> Look(r.copy, q) == Absent
  {
    hide Look;
    var excludes := Excludes(root, runsRoot);
    CloneExact(dir, root, excludes, Git(listed), q);
    assert root == ex[..|root|] && q != [];
    var first := root + [q[0]];
    Steps(root, q);
    assert first == (root + q)[..|first|] && ex[..|first|] == (root + q)[..|first|];
    assert first <= ex;
    if q[0] == GIT {
      assert ex in excludes && first < ex;
    } else {
      RunsNotKept(dir, root, listed, excludes, ex, q);
    }
  }

  // Runs kept in `.git` itself come along whole.
  lemma RunsInDotGit(dir: Node, root: Path, listed: seq<Listed>, q: Path)
    requires dir.Dir? && GIT in dir.entries
    ensures var r := CloneOf(dir, root, Excludes(root, Some(root + [GIT])), Git(listed));
            r.Cloned? && Look(r.copy, [GIT] + q) == Look(dir, [GIT] + q)
  {
    var excludes := Excludes(root, Some(root + [GIT]));
    forall ex | ex in excludes ensures !(root + [GIT] < ex) {
      assert (root + [GIT])[|root|] == GIT && (root + [".jaiph", "runs"])[|root|] == ".jaiph";
    }
    assert ([GIT] + q)[1..] == q;
  }

  lemma RunsNotKept(dir: Node, root: Path, listed: seq<Listed>, excludes: set<Path>, ex: Path, q: Path)
    requires root != [] && ex in excludes && root < ex && ex <= root + q
    requires forall l :: l in listed ==> !(root + l.path < ex)
    ensures !Kept(dir, root, AllowedFiles(listed, root, excludes), AllowedDirs(listed, root, excludes), q)
  {
    assert Skipped(root + q, excludes);
    DirOf(listed, root, excludes, q);
    forall l | l in listed && q < l.path ensures Skipped(root + l.path, excludes) {
      SkippedBelow(root + q, root + l.path, excludes);
    }
    forall k | 0 < k <= |q|
      ensures !Whole(dir, root, AllowedFiles(listed, root, excludes), AllowedDirs(listed, root, excludes), q[..k])
    {
      FileOf(listed, root, excludes, q[..k]);
      assert root + q[..k] == (root + q)[..|root| + k];
      Comparable(ex, root + q[..k], root + q);
      if Listed(q[..k], false) in listed { assert ex <= root + q[..k]; }
    }
  }

  function AncestorsFrom(root: Path, abs: Path, n: nat): set<Path>
    requires n <= |abs|
  {
    set k | root != [] && |root| < k < n :: abs[..k]
  }

  // The directories on the way to `abs`, walking up until the workspace is reached.
  method AddAncestors(root: Path, abs: Path, start: set<Path>) returns (dirs: set<Path>)
    requires root < abs
    ensures dirs == start + AncestorsFrom(root, abs, |abs|)
  {
    dirs := start;
    var n := |abs| - 1;
    while abs[..n] != root && root != [] && root < abs[..n]
      invariant |root| <= n < |abs|
      invariant dirs + AncestorsFrom(root, abs, n + 1) == start + AncestorsFrom(root, abs, |abs|)
      decreases n
    {
      ghost var before := dirs;
      dirs := dirs + {abs[..n]};
      n := n - 1;
      assert AncestorsFrom(root, abs, n + 2) == AncestorsFrom(root, abs, n + 1) + {abs[..n + 1]};
      assert dirs + AncestorsFrom(root, abs, n + 1) == before + AncestorsFrom(root, abs, n + 2);
    }
    assert root == abs[..|root|];
    assert AncestorsFrom(root, abs, n + 1) == {};
  }

  lemma AllowedSnoc(listed: seq<Listed>, l: Listed, root: Path, excludes: set<Path>)
    requires l.path != []
    ensures AllowedFiles(listed + [l], root, excludes) == AllowedFiles(listed, root, excludes) +
              (if l.slash || Skipped(root + l.path, excludes) then {} else {root + l.path})
    ensures AllowedDirs(listed + [l], root, excludes) == AllowedDirs(listed, root, excludes) +
              (if Skipped(root + l.path, excludes) then {} else AncestorsFrom(root, root + l.path, |root + l.path|))
  {
    var abs := root + l.path;
    forall k | |root| < k < |abs| ensures abs[..k] == root + l.path[..k - |root|] {}
    forall k | 0 < k < |l.path| ensures root + l.path[..k] == abs[..k + |root|] {}
    assert forall x :: x in listed + [l] <==> x in listed || x == l;
    var own := AncestorsFrom(root, abs, |abs|);
    var wide := AllowedDirs(listed + [l], root, excludes);
    forall d | d in wide && d !in AllowedDirs(listed, root, excludes)
      ensures !Skipped(abs, excludes) && d in own
    {
      var k :| root != [] && 0 < k < |l.path| && d == root + l.path[..k] && !Skipped(abs, excludes);
      assert d == abs[..k + |root|];
    }
    if !Skipped(abs, excludes) {
      forall d | d in own ensures d in wide {
        var k :| root != [] && |root| < k < |abs| && d == abs[..k];
        assert d == root + l.path[..k - |root|];
        assert l in listed + [l];
      }
    }
  }

  method AllowedSets(listed: seq<Listed>, root: Path, excludes: set<Path>) returns (files: set<Path>, dirs: set<Path>)
    requires forall l :: l in listed ==> l.path != []
    ensures files == AllowedFiles(listed, root, excludes) && dirs == AllowedDirs(listed, root, excludes)
  {
    files, dirs := {}, {};
    for i := 0 to |listed|
      invariant files == AllowedFiles(listed[..i], root, excludes)
      invariant dirs == AllowedDirs(listed[..i], root, excludes)
    {
      var l := listed[i];
      var abs := root + l.path;
      AllowedSnoc(listed[..i], l, root, excludes);
      assert listed[..i + 1] == listed[..i] + [l];
      if Skipped(abs, excludes) { continue; }
      if !l.slash { files := files + {abs}; }
      dirs := AddAncestors(root, abs, dirs);
    }
    assert listed[..|listed|] == listed;
  }

  method CopyExcludingInto(dir: Node, at: Path, excludes: set<Path>) returns (copy: Node)
    requires dir.Dir?
    ensures copy == CopyDirExcluding(dir, at, excludes)
    decreases dir
  {
    var out: map<Name, Node> := map[];
    var left := dir.entries.Keys;
    ghost var whole := CopyDirExcluding(dir, at, excludes).entries;
    while left != {}
      invariant left <= dir.entries.Keys
      invariant out == map n | n in whole && n !in left :: whole[n]
    {
      var n :| n in left;
      left := left - {n};
      var path, node := at + [n], dir.entries[n];
      if path in excludes { continue; }
      if node.Dir? && Above(path, excludes) {
        var inner := CopyExcludingInto(node, path, excludes);
        out := out[n := inner];
      } else {
        out := out[n := node];
      }
    }
    copy := Dir(out);
    assert out == whole;
  }

  method CopyGitInto(dir: Node, at: Path, files: set<Path>, dirs: set<Path>) returns (copy: Node)
    requires dir.Dir?
    ensures copy == CopyGitDir(dir, at, files, dirs)
    decreases dir
  {
    var out: map<Name, Node> := map[];
    var left := dir.entries.Keys;
    ghost var whole := CopyGitDir(dir, at, files, dirs).entries;
    while left != {}
      invariant left <= dir.entries.Keys
      invariant out == map n | n in whole && n !in left :: whole[n]
    {
      var n :| n in left;
      left := left - {n};
      var path, node := at + [n], dir.entries[n];
      if node.Dir? {
        if path in dirs {
          var inner := CopyGitInto(node, path, files, dirs);
          out := out[n := inner];
        } else if path in files {
          out := out[n := node];
        }
      } else if path in files {
        out := out[n := node];
      }
    }
    copy := Dir(out);
    assert out == whole;
  }

  method CloneWorkspaceForSandbox(dir: Node, root: Path, runsRoot: Option<Path>, listing: Listing) returns (r: Clone)
    requires dir.Dir?
    requires listing.Git? ==> forall l :: l in listing.listed ==> l.path != []
    ensures r == CloneOf(dir, root, Excludes(root, runsRoot), listing)
  {
    var excludes := Excludes(root, runsRoot);
    if listing.NoGit? {
      var all := CopyExcludingInto(dir, root, excludes);
      return Cloned(all);
    }
    var files, dirs := AllowedSets(listing.listed, root, excludes);
    var copy := CopyGitInto(dir, root, files, dirs);
    if GIT !in dir.entries { return Cloned(copy); }
    var own := dir.entries[GIT];
    if Above(root + [GIT], excludes) {
      if !own.Dir? { return CopyFailed; }
      own := CopyExcludingInto(own, root + [GIT], excludes);
    }
    return Cloned(Dir(copy.entries[GIT := own]));
  }
}
