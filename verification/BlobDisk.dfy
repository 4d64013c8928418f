/** The file tree under the base directory of a blob store: directories, files with their contents, and the
    calls made on them. Paths are resolved relative to the base directory, which always exists. */
module BlobDisk {

  type Path = seq<string>

  datatype Node = Dir | File(inode: nat)
  datatype Errno = EEXIST | ENOENT | ENOTDIR | EISDIR

  datatype Disk = Disk(nodes: map<Path, Node>, data: map<nat, string>, next: nat)

  function Parent(p: Path): Path {
    if p == [] then [] else p[..|p| - 1]
  }

  predicate IsDir(d: Disk, p: Path) {
    p in d.nodes && d.nodes[p].Dir?
  }

  predicate IsFile(d: Disk, p: Path) {
    p in d.nodes && d.nodes[p].File?
  }

  /** The parent of every node is a directory, and every file has its own content. */
  ghost predicate WellFormed(d: Disk) {
    && IsDir(d, [])
    && (forall p :: InDirectory(d, p))
    && (forall p :: HasData(d, p))
    && (forall p, q :: OwnData(d, p, q))
  }

  ghost predicate InDirectory(d: Disk, p: Path) {
    p in d.nodes ==> IsDir(d, Parent(p))
  }

  ghost predicate HasData(d: Disk, p: Path) {
    IsFile(d, p) ==> d.nodes[p].inode < d.next && d.nodes[p].inode in d.data
  }

  ghost predicate OwnData(d: Disk, p: Path, q: Path) {
    IsFile(d, p) && IsFile(d, q) && d.nodes[p] == d.nodes[q] ==> p == q
  }

  /** A file lies on the way to `p`. */
  predicate Blocked(d: Disk, p: Path) {
    exists k :: 0 <= k < |p| && IsFile(d, p[..k])
  }

  /** Why the directory of `p` cannot be entered. */
  function LookupError(d: Disk, p: Path): Errno {
    if Blocked(d, p) then ENOTDIR else ENOENT
  }

  /** What the files hold. */
  ghost function Contents(d: Disk): map<Path, string> {
    map p | p in d.nodes && d.nodes[p].File? && d.nodes[p].inode in d.data :: d.data[d.nodes[p].inode]
  }

  // ---------- the calls ----------

  datatype Outcome<+T> = Ok(value: T) | Err(errno: Errno)

  function Mkdirat(d: Disk, p: Path): (Disk, Outcome<()>) {
    if !IsDir(d, Parent(p)) then (d, Err(LookupError(d, p)))
    else if p in d.nodes then (d, Err(EEXIST))
    else (d.(nodes := d.nodes[p := Dir]), Ok(()))
  }

  /** Creates a file that must not exist, and opens it. */
  function CreateExcl(d: Disk, p: Path): (Disk, Outcome<nat>) {
    if !IsDir(d, Parent(p)) then (d, Err(LookupError(d, p)))
    else if p in d.nodes then (d, Err(EEXIST))
    else (WithFile(d, p), Ok(d.next))
  }

  function WithFile(d: Disk, p: Path): Disk {
    Disk(d.nodes[p := File(d.next)], d.data[d.next := ""], d.next + 1)
  }

  function OpenRead(d: Disk, p: Path): Outcome<Node> {
    if !IsDir(d, Parent(p)) then Err(LookupError(d, p))
    else if p !in d.nodes then Err(ENOENT)
    else Ok(d.nodes[p])
  }

  function Unlinkat(d: Disk, p: Path): (Disk, Outcome<()>) {
    if !IsDir(d, Parent(p)) then (d, Err(LookupError(d, p)))
    else if p !in d.nodes then (d, Err(ENOENT))
    else if d.nodes[p].Dir? then (d, Err(EISDIR))
    else (d.(nodes := d.nodes - {p}), Ok(()))
  }

  /** Appends to an open file. */
  function Append(d: Disk, inode: nat, bytes: string): Disk
    requires inode in d.data
  {
    d.(data := d.data[inode := d.data[inode] + bytes])
  }

  // ---------- what the calls do ----------

  /** All directories on the way to `p`, and `p` too unless it is there already. */
  function WithDirs(d: Disk, p: Path): Disk
    decreases |p|
  {
    if p == [] || p in d.nodes then d
    else
      var up := WithDirs(d, Parent(p));
      up.(nodes := up.nodes[p := Dir])
  }

  ghost predicate OnTheWay(q: Path, p: Path) {
    q != [] && q <= p
  }

  /** Exactly the missing nodes on the way are added, as directories; nothing else changes. */
  ghost predicate AddsDirs(d: Disk, p: Path, d': Disk) {
    && d'.data == d.data && d'.next == d.next
    && (forall q :: q in d'.nodes <==> q in d.nodes || OnTheWay(q, p))
    && (forall q :: q in d.nodes ==> d'.nodes[q] == d.nodes[q])
    && (forall q :: q in d'.nodes && q !in d.nodes ==> d'.nodes[q] == Dir)
  }

  lemma {:induction false} WithDirsAdds(d: Disk, p: Path)
    requires WellFormed(d) && !Blocked(d, p)
    ensures AddsDirs(d, p, WithDirs(d, p))
    decreases |p|
  {
    if p == [] {
    } else if p in d.nodes {
      forall q | OnTheWay(q, p) ensures q in d.nodes {
        AncestorsExist(d, p, |q|);
        assert p[..|q|] == q;
      }
    } else {
      NotBlockedAbove(d, p);
      WithDirsAdds(d, Parent(p));
      forall q ensures OnTheWay(q, p) <==> OnTheWay(q, Parent(p)) || q == p {
        if OnTheWay(q, p) && q != p {
          assert q == p[..|q|] == Parent(p)[..|q|];
        }
      }
    }
  }

  lemma NotBlockedAbove(d: Disk, p: Path)
    requires p != [] && !Blocked(d, p)
    ensures !Blocked(d, Parent(p)) && !IsFile(d, Parent(p))
  {
    forall k | 0 <= k < |Parent(p)| ensures !IsFile(d, Parent(p)[..k]) {
      assert Parent(p)[..k] == p[..k];
    }
  }

  lemma {:induction false} AncestorsExist(d: Disk, p: Path, k: nat)
    requires WellFormed(d) && p in d.nodes && k <= |p|
    ensures p[..k] in d.nodes && (k < |p| ==> IsDir(d, p[..k]))
    decreases |p|
  {
    if k < |p| {
      assert InDirectory(d, p);
      assert p[..k] == Parent(p)[..k];
      AncestorsExist(d, Parent(p), k);
      assert Parent(p)[..|p| - 1] == Parent(p);
    } else {
      assert p[..k] == p;
    }
  }

  lemma WithDirsKeepsFiles(d: Disk, p: Path)
    requires WellFormed(d) && !Blocked(d, p)
    ensures WellFormed(WithDirs(d, p)) && Contents(WithDirs(d, p)) == Contents(d)
  {
    WithDirsAdds(d, p);
    var d' := WithDirs(d, p);
    forall q ensures InDirectory(d', q) {
      if q in d.nodes {
        assert InDirectory(d, q);
      } else if q in d'.nodes {
        AddedBelowDir(d, p, d', q);
      }
    }
    SameFiles(d, d');
  }

  /** Once its directories are made, a path exists and all its proper ancestors are directories; no node is
      lost. */
  lemma WithDirsMakesThePath(d: Disk, p: Path)
    requires WellFormed(d) && !Blocked(d, p)
    ensures var d' := WithDirs(d, p);
            && p in d'.nodes
            && (forall k :: 0 <= k < |p| ==> IsDir(d', p[..k]))
            && d.nodes.Keys <= d'.nodes.Keys
            && (forall q :: q in d.nodes ==> d'.nodes[q] == d.nodes[q])
  {
    var d' := WithDirs(d, p);
    WithDirsAdds(d, p);
    WithDirsKeepsFiles(d, p);
    assert p == [] || OnTheWay(p, p);
    forall k | 0 <= k < |p| ensures IsDir(d', p[..k]) {
      AncestorsExist(d', p, k);
    }
  }

  lemma AddedBelowDir(d: Disk, p: Path, d': Disk, q: Path)
    requires WellFormed(d) && !Blocked(d, p) && AddsDirs(d, p, d')
    requires q in d'.nodes && q !in d.nodes
    ensures IsDir(d', Parent(q))
  {
    var up := Parent(q);
    assert q == p[..|q|] && up == p[..|q| - 1];
    assert !IsFile(d, up);
    assert up == [] || OnTheWay(up, p);
  }

  lemma SameFiles(d: Disk, d': Disk)
    requires WellFormed(d) && d'.data == d.data && d'.next == d.next
    requires forall q :: IsFile(d', q) ==> IsFile(d, q)
    requires forall q :: IsFile(d, q) ==> IsFile(d', q) && d'.nodes[q] == d.nodes[q]
    ensures forall q :: HasData(d', q)
    ensures forall q, r :: OwnData(d', q, r)
    ensures Contents(d') == Contents(d)
  {
    forall q ensures HasData(d', q) {
      assert HasData(d, q);
    }
    forall q, r ensures OwnData(d', q, r) {
      assert OwnData(d, q, r);
    }
    forall q ensures IsFile(d', q) <==> IsFile(d, q) {}
  }

  lemma WithFileContents(d: Disk, p: Path)
    requires WellFormed(d) && p !in d.nodes
    ensures Contents(WithFile(d, p)) == Contents(d)[p := ""]
  {
    var d' := WithFile(d, p);
    forall q ensures q in Contents(d') <==> q in Contents(d) || q == p {
      assert HasData(d, q);
    }
    forall q | q in Contents(d) && q != p ensures Contents(d')[q] == Contents(d)[q] {
      assert HasData(d, q);
    }
  }

  lemma WithFileAdds(d: Disk, p: Path)
    requires WellFormed(d) && IsDir(d, Parent(p)) && p !in d.nodes
    ensures WellFormed(WithFile(d, p)) && Contents(WithFile(d, p)) == Contents(d)[p := ""]
  {
    var d' := WithFile(d, p);
    forall q ensures InDirectory(d', q) {
      assert InDirectory(d, q);
    }
    forall q ensures HasData(d', q) {
      assert HasData(d, q);
    }
    forall q, r ensures OwnData(d', q, r) {
      assert OwnData(d, q, r) && HasData(d, q) && HasData(d, r);
    }
    WithFileContents(d, p);
  }

  lemma UnlinkRemoves(d: Disk, p: Path)
    requires WellFormed(d) && IsFile(d, p)
    ensures Unlinkat(d, p) == (d.(nodes := d.nodes - {p}), Ok(()))
    ensures WellFormed(Unlinkat(d, p).0) && Contents(Unlinkat(d, p).0) == Contents(d) - {p}
  {
    var d' := d.(nodes := d.nodes - {p});
    assert InDirectory(d, p);
    forall q ensures InDirectory(d', q) {
      assert InDirectory(d, q);
    }
    forall q ensures HasData(d', q) {
      assert HasData(d, q);
    }
    forall q, r ensures OwnData(d', q, r) {
      assert OwnData(d, q, r);
    }
  }

  /** Why there is nothing at `p`: a file lies on the way, or a name is missing. */
  ghost predicate Missing(d: Disk, p: Path, e: Errno) {
    && p !in d.nodes
    && e == if exists k :: 0 <= k < |p| && p[..k] in d.nodes && d.nodes[p[..k]].File? then ENOTDIR else ENOENT
  }

  /** What is at `p` is opened, and the reason why nothing is there is given. */
  ghost predicate LooksUp(d: Disk, p: Path, r: Outcome<Node>) {
    match r
    case Ok(node) => p in d.nodes && d.nodes[p] == node
    case Err(e) => Missing(d, p, e)
  }

  lemma NotBlockedBelowDir(d: Disk, p: Path)
    requires WellFormed(d) && IsDir(d, Parent(p))
    ensures !Blocked(d, p)
  {
    forall k | 0 <= k < |p| ensures !IsFile(d, p[..k]) {
      assert p[..k] == Parent(p)[..k];
      AncestorsExist(d, Parent(p), k);
      assert Parent(p)[..|p| - 1] == Parent(p);
    }
  }

  lemma OpenReadFinds(d: Disk, p: Path)
    requires WellFormed(d)
    ensures LooksUp(d, p, OpenRead(d, p))
  {
    assert InDirectory(d, p);
    if IsDir(d, Parent(p)) {
      NotBlockedBelowDir(d, p);
    }
  }

  /** What a deletion did under `p`: it succeeds exactly on a file, and then only that file is gone; else there is
      a directory, or nothing. */
  ghost predicate Removed(d: Disk, p: Path, d': Disk, r: Outcome<()>) {
    && (r.Ok? <==> IsFile(d, p))
    && (r.Err? ==> if p in d.nodes then d.nodes[p] == Dir && r.errno == EISDIR else Missing(d, p, r.errno))
    && WellFormed(d')
    && Contents(d') == Contents(d) - {p}
    && d'.nodes == (if r.Ok? then d.nodes - {p} else d.nodes)
  }

  lemma UnlinkatRemoves(d: Disk, p: Path)
    requires WellFormed(d)
    ensures Removed(d, p, Unlinkat(d, p).0, Unlinkat(d, p).1)
  {
    if IsFile(d, p) {
      assert InDirectory(d, p);
      UnlinkRemoves(d, p);
    } else {
      assert Contents(d) - {p} == Contents(d);
      assert InDirectory(d, p);
      if IsDir(d, Parent(p)) {
        NotBlockedBelowDir(d, p);
      }
    }
  }

  lemma UnlinkatKeeps(d: Disk, p: Path)
    requires WellFormed(d)
    ensures WellFormed(Unlinkat(d, p).0) && Contents(Unlinkat(d, p).0) == Contents(d) - {p}
    ensures Unlinkat(d, p).0.nodes == d.nodes || Unlinkat(d, p).0.nodes == d.nodes - {p}
  {
    UnlinkatRemoves(d, p);
  }

  /** A directory made changes no file; the path is there afterwards unless its own directory is not. */
  lemma MkdiratKeeps(d: Disk, p: Path)
    requires WellFormed(d) && IsDir(d, Parent(p))
    ensures var (d', r) := Mkdirat(d, p);
            && WellFormed(d') && Contents(d') == Contents(d)
            && (r == Ok(()) || r == Err(EEXIST)) && p in d'.nodes
            && (forall q :: q in d.nodes ==> q in d'.nodes && d'.nodes[q] == d.nodes[q])
  {
    if p !in d.nodes {
      var d' := d.(nodes := d.nodes[p := Dir]);
      forall q ensures InDirectory(d', q) {
        assert InDirectory(d, q);
      }
      SameFiles(d, d');
    }
  }

  lemma AppendExtends(d: Disk, p: Path, bytes: string)
    requires WellFormed(d) && IsFile(d, p)
    ensures HasData(d, p)
    ensures var d' := Append(d, d.nodes[p].inode, bytes);
            WellFormed(d') && p in Contents(d) && Contents(d') == Contents(d)[p := Contents(d)[p] + bytes]
  {
    assert HasData(d, p);
    var d' := Append(d, d.nodes[p].inode, bytes);
    forall q ensures InDirectory(d', q) {
      assert InDirectory(d, q);
    }
    forall q ensures HasData(d', q) {
      assert HasData(d, q);
    }
    forall q, r ensures OwnData(d', q, r) {
      assert OwnData(d, q, r);
    }
    forall q | q in Contents(d) && q != p ensures Contents(d')[q] == Contents(d)[q] {
      assert OwnData(d, q, p);
    }
  }
}
