/** The repository of a blob store (internal/cmd-blob-store-fs/repository.go) and the upload handler
    (internal/cmd-blob-store-fs/handlers.go). */
module BlobRepo {
  import opened BlobNames
  import opened BlobDisk
  import BlobIds
  import opened Wrappers

  /** A builder: the open file and the name it was created under, which `Commit` returns. */
  datatype Upload = Upload(name: string, inode: nat)

  /** The exclusive creation of `p`, with the directories it lacks. */
  function Created(d: Disk, p: Path): (Disk, Outcome<nat>) {
    if Blocked(d, p) then (d, Err(ENOTDIR))
    else if p in d.nodes then (d, Err(EEXIST))
    else (WithFile(WithDirs(d, Parent(p)), p), Ok(d.next))
  }

  /** What a reader gets under a name: the content of the file it leads to, if any. */
  ghost function ReadAs(d: Disk, name: string): Option<string> {
    if RelPath(name).None? then None
    else
      match OpenRead(d, Components(RelPath(name).value))
      case Ok(File(inode)) => if inode in d.data then Some(d.data[inode]) else None
      case _ => None
  }

  /** A blob cannot be created exactly when its name is taken, or when a file has the name of its directory. */
  lemma CreatedUnlessTaken(d: Disk, id: string)
    requires WellFormed(d) && IsId(id)
    ensures Created(d, PathOf(id)).1
         == if PathOf(id) in d.nodes then Err(EEXIST)
            else if IsFile(d, [id[..4]]) then Err(ENOTDIR)
            else Ok(d.next)
  {
    var p := PathOf(id);
    assert p[..0] == [] && p[..1] == Parent(p) == [id[..4]];
    assert InDirectory(d, p);
    if p in d.nodes {
      NotBlockedBelowDir(d, p);
    }
  }

  /** A creation either changes nothing or adds one empty file and leaves all others as they are. */
  lemma CreatedAdds(d: Disk, p: Path)
    requires WellFormed(d)
    ensures var (d', r) := Created(d, p);
            && WellFormed(d')
            && (r.Err? ==> d' == d)
            && (r.Ok? ==> p !in d.nodes && d'.nodes[p] == File(r.value) && Contents(d') == Contents(d)[p := ""])
            && (forall q :: IsFile(d, q) ==> q in d'.nodes && d'.nodes[q] == d.nodes[q])
  {
    if !Blocked(d, p) && p !in d.nodes {
      var up := Parent(p);
      assert p != [];
      NotBlockedAbove(d, p);
      WithDirsAdds(d, up);
      WithDirsKeepsFiles(d, up);
      assert p !in WithDirs(d, up).nodes;
      assert up == [] || OnTheWay(up, up);
      WithFileAdds(WithDirs(d, up), p);
    }
  }

  /** The location of an id reads as the file of that id, and so does the id itself. */
  lemma ReadAsLocation(d: Disk, id: string)
    requires WellFormed(d) && IsId(id)
    ensures ReadAs(d, Location(id)) == if PathOf(id) in Contents(d) then Some(Contents(d)[PathOf(id)]) else None
    ensures ReadAs(d, id) == ReadAs(d, Location(id))
  {
    LocationResolves(id);
    assert InDirectory(d, PathOf(id)) && HasData(d, PathOf(id));
  }

  /** The names under which the blob `id` can be read. */
  predicate Names(name: string, id: string) {
    IsId(id) && (name == id || name == Location(id))
  }

  /** The content of what was opened. */
  ghost function ContentOpened(d: Disk, r: Option<Outcome<Node>>): Option<string> {
    match r
    case Some(Ok(File(inode))) => if inode in d.data then Some(d.data[inode]) else None
    case _ => None
  }

  /** The file of the blob is what was opened, if there is one. */
  ghost predicate OpensFileOf(d: Disk, id: string, r: Option<Outcome<Node>>)
    requires IsId(id)
  {
    && (PathOf(id) in Contents(d) <==> r.Some? && r.value.Ok? && r.value.value.File?)
    && (PathOf(id) in Contents(d) ==>
          d.nodes[PathOf(id)] == r.value.value && ContentOpened(d, r) == Some(Contents(d)[PathOf(id)]))
  }

  lemma NamedFileIsOpened(d: Disk, name: string, id: string)
    requires WellFormed(d) && Names(name, id)
    ensures RelPath(name).Some? && OpensFileOf(d, id, Some(OpenRead(d, Components(RelPath(name).value))))
  {
    LocationResolves(id);
    assert InDirectory(d, PathOf(id)) && HasData(d, PathOf(id));
  }

  lemma LocationLeadsToFile(name: string)
    ensures forall id :: IsId(id) && name == Location(id) ==> Components(name) == PathOf(id)
  {
    forall id | IsId(id) && name == Location(id) ensures Components(name) == PathOf(id) {
      LocationResolves(id);
    }
  }

  class Repo {
    var disk: Disk

    constructor (disk: Disk)
      ensures this.disk == disk
    {
      this.disk := disk;
    }

    method Mkdirat(p: Path) returns (r: Outcome<()>)
      modifies this
      ensures (disk, r) == BlobDisk.Mkdirat(old(disk), p)
    {
      var (d, o) := BlobDisk.Mkdirat(disk, p);
      disk, r := d, o;
    }

    method Openat(p: Path) returns (r: Outcome<nat>)
      modifies this
      ensures (disk, r) == CreateExcl(old(disk), p)
    {
      var (d, o) := CreateExcl(disk, p);
      disk, r := d, o;
    }

    method Unlinkat(p: Path) returns (r: Outcome<()>)
      modifies this
      ensures (disk, r) == BlobDisk.Unlinkat(old(disk), p)
    {
      var (d, o) := BlobDisk.Unlinkat(disk, p);
      disk, r := d, o;
    }

    /** Makes a directory, and first the directories above it that are missing. It fails exactly when a file
        lies on the way, and then changes nothing. */
    method Mkdir(p: Path, retry: bool) returns (r: Outcome<()>)
      requires WellFormed(disk)
      modifies this
      ensures WellFormed(disk)
      ensures r == if Blocked(old(disk), p) then Err(ENOTDIR) else Ok(())
      ensures disk == if Blocked(old(disk), p) then old(disk) else WithDirs(old(disk), p)
      decreases |p|, if Parent(p) in disk.nodes then 0 else 1
    {
      ghost var before := disk;
      r := Mkdirat(p);
      if IsDir(before, Parent(p)) {
        NotBlockedBelowDir(before, p);
        WithDirsOneLevel(before, p);
        WithDirsKeepsFiles(before, p);
      }
      if r.Ok? || r.errno == EEXIST {
        return Ok(());
      }
      if r.errno == ENOENT {
        NotBlockedAbove(before, p);
        WithDirsAdds(before, Parent(p));
        r := Mkdir(Parent(p), true);
        if r.Ok? {
          WithDirsTwoSteps(before, p);
          r := Mkdir(p, false);
          return;
        }
      }
    }

    method CreateOrRetry(p: Path, retry: bool) returns (r: Outcome<nat>)
      requires WellFormed(disk)
      modifies this
      ensures (disk, r) == if retry || IsDir(old(disk), Parent(p)) then Created(old(disk), p)
                           else (old(disk), Err(LookupError(old(disk), p)))
      decreases retry
    {
      ghost var before := disk;
      r := Openat(p);
      if IsDir(before, Parent(p)) {
        NotBlockedBelowDir(before, p);
        assert WithDirs(before, Parent(p)) == before;
      } else {
        assert InDirectory(before, p);
      }
      if r.Err? {
        if retry && r.errno == ENOENT {
          NotBlockedAbove(before, p);
          var made := Mkdir(Parent(p), true);
          match made {
            case Ok(_) =>
              DirsThenFile(before, p);
              r := CreateOrRetry(p, false);
              return;
            case Err(e) =>
              return Err(e);
          }
        }
        return Err(r.errno);
      }
    }

    method Create(nanos: nat, random: nat) returns (r: Outcome<Upload>)
      requires WellFormed(disk) && random < RANDOM_LIMIT
      modifies this
      ensures IsId(NextId(nanos, random))
      ensures var (d, o) := Created(old(disk), PathOf(NextId(nanos, random)));
              disk == d
              && r == match o case Err(e) => Err(e) case Ok(i) => Ok(Upload(Location(NextId(nanos, random)), i))
    {
      var cid := NextId(nanos, random);
      IdDeterminesTickAndRandom(nanos, random, nanos, random);
      LocationResolves(cid);
      var pathFinal := RelPath(cid).value;
      var f := CreateOrRetry(Components(pathFinal), true);
      match f {
        case Err(e) => return Err(e);
        case Ok(i) => return Ok(Upload(pathFinal, i));
      }
    }

    /** `None` stands for the panic on a name shorter than four bytes. Under the location of an id, or the id
        itself, it opens the file of that id. */
    method Open(realid: string) returns (r: Option<Outcome<Node>>)
      requires WellFormed(disk)
      ensures r.None? <==> |realid| < 4
      ensures |realid| >= 4 ==> LooksUp(disk, Components(realid[..4] + "/" + realid[4..]), r.value)
      ensures ReadAs(disk, realid) == ContentOpened(disk, r)
      ensures r.Some? && r.value.Ok? && r.value.value.File? ==> ReadAs(disk, realid).Some?
      ensures forall id :: Names(realid, id) ==> OpensFileOf(disk, id, r)
    {
      var relpath := RelPath(realid);
      match relpath {
        case None => return None;
        case Some(p) =>
          r := Some(OpenRead(disk, Components(p)));
          OpenReadFinds(disk, Components(p));
          assert HasData(disk, Components(p));
          forall id | Names(realid, id) ensures OpensFileOf(disk, id, r) {
            NamedFileIsOpened(disk, realid, id);
          }
      }
    }

    /** Succeeds exactly if the name leads, uncut, to a file; only that file is gone. The kernel knows no empty
        name. */
    method Delete(relpath: string) returns (r: Outcome<()>)
      requires WellFormed(disk)
      modifies this
      ensures relpath == "" ==> r == Err(ENOENT) && disk == old(disk)
      ensures relpath != "" ==> Removed(old(disk), Components(relpath), disk, r)
      ensures forall id :: IsId(id) && relpath == Location(id) ==> Removed(old(disk), PathOf(id), disk, r)
    {
      if relpath == "" {
        return Err(ENOENT);
      }
      UnlinkatRemoves(disk, Components(relpath));
      r := Unlinkat(Components(relpath));
      LocationLeadsToFile(relpath);
    }

    /** Writes to the open file of an upload. */
    method Write(f: Upload, bytes: string)
      requires f.inode in disk.data
      modifies this
      ensures disk == Append(old(disk), f.inode, bytes)
    {
      disk := Append(disk, f.inode, bytes);
    }

    /** Removes the file that the builder was created under. */
    method Abort(f: Upload) returns (r: Outcome<()>)
      requires WellFormed(disk)
      modifies this
      ensures Removed(old(disk), Components(f.name), disk, r)
      ensures forall id :: IsId(id) && f.name == Location(id) ==> Removed(old(disk), PathOf(id), disk, r)
    {
      UnlinkatRemoves(disk, Components(f.name));
      r := Unlinkat(Components(f.name));
      LocationLeadsToFile(f.name);
    }

    method Commit(f: Upload) returns (name: string)
      ensures name == f.name
    {
      name := f.name;
    }
  }

  lemma WithDirsOneLevel(d: Disk, p: Path)
    requires IsDir(d, Parent(p)) && IsDir(d, [])
    ensures WithDirs(d, p) == if p in d.nodes then d else d.(nodes := d.nodes[p := Dir])
  {
    assert WithDirs(d, Parent(p)) == d;
  }

  /** Making the parent first, then the directory, is making the directory. */
  lemma WithDirsTwoSteps(d: Disk, p: Path)
    requires WellFormed(d) && p != [] && !IsDir(d, Parent(p)) && !Blocked(d, p)
    ensures var up := WithDirs(d, Parent(p));
            && WellFormed(up) && IsDir(up, Parent(p)) && !Blocked(up, p)
            && WithDirs(up, p) == WithDirs(d, p)
  {
    var up := WithDirs(d, Parent(p));
    NotBlockedAbove(d, p);
    WithDirsAdds(d, Parent(p));
    WithDirsKeepsFiles(d, Parent(p));
    assert OnTheWay(Parent(p), Parent(p));
    NotBlockedBelowDir(up, p);
    WithDirsOneLevel(up, p);
    assert InDirectory(d, p);
  }

  lemma DirsThenFile(d: Disk, p: Path)
    requires WellFormed(d) && p != [] && !IsDir(d, Parent(p)) && !Blocked(d, p)
    ensures var up := WithDirs(d, Parent(p));
            WellFormed(up) && IsDir(up, Parent(p)) && Created(up, p) == Created(d, p)
  {
    var up := WithDirs(d, Parent(p));
    WithDirsTwoSteps(d, p);
    NotBlockedAbove(d, p);
    WithDirsAdds(d, Parent(p));
    assert InDirectory(d, p);
    assert p !in up.nodes;
    assert WithDirs(up, Parent(p)) == up;
  }

  // ---------- the upload handler ----------

  datatype Response = BadRequest | Refused(errno: Errno) | Broken | Stored(location: string)

  /** A file created, then written: one more file, holding the bytes. */
  lemma CreatedThenWritten(d: Disk, p: Path, bytes: string)
    requires WellFormed(d) && Created(d, p).1.Ok?
    ensures p !in d.nodes && Created(d, p).1.value in Created(d, p).0.data
    ensures var d' := Append(Created(d, p).0, Created(d, p).1.value, bytes);
            WellFormed(d') && IsFile(d', p) && Contents(d') == Contents(d)[p := bytes]
  {
    CreatedAdds(d, p);
    AppendExtends(Created(d, p).0, p, bytes);
    SetTwice(Contents(d), p, "", bytes);
  }

  lemma SetTwice(m: map<Path, string>, p: Path, a: string, b: string)
    ensures m[p := a][p := m[p := a][p] + b] == m[p := a + b]
    ensures "" + b == b
  {
  }

  lemma SetThenRemoved(m: map<Path, string>, p: Path, a: string)
    requires p !in m
    ensures m[p := a] - {p} == m
  {
  }

  /** An upload: `bytes` were copied before the input ended, or failed. Only a stored blob leaves a trace: it
      is read back under the location sent, and no other blob changes. */
  method HandleBlobPut(repo: Repo, encoded: string, nanos: nat, random: nat, bytes: string, copyFails: bool)
      returns (r: Response)
    requires WellFormed(repo.disk) && random < RANDOM_LIMIT
    modifies repo
    ensures WellFormed(repo.disk)
    ensures r.BadRequest? <==> BlobIds.Decode(encoded).None?
    ensures r.Broken? ==> copyFails
    ensures !r.Stored? ==> Contents(repo.disk) == old(Contents(repo.disk))
    ensures r.Stored? ==>
              && IsId(NextId(nanos, random)) && r.location == Location(NextId(nanos, random))
              && PathOf(NextId(nanos, random)) !in old(repo.disk).nodes
              && Contents(repo.disk) == old(Contents(repo.disk))[PathOf(NextId(nanos, random)) := bytes]
              && ReadAs(repo.disk, r.location) == Some(bytes)
    ensures IsId(NextId(nanos, random))
    ensures var p := PathOf(NextId(nanos, random));
            BlobIds.Decode(encoded).Some? ==>
              r == if p in old(repo.disk).nodes then Refused(EEXIST)
                   else if IsFile(old(repo.disk), p[..1]) then Refused(ENOTDIR)
                   else if copyFails then Broken
                   else Stored(Location(NextId(nanos, random)))
    ensures r.Refused? ==> repo.disk == old(repo.disk)
  {
    ghost var before := repo.disk;
    IdDeterminesTickAndRandom(nanos, random, nanos, random);
    var id := BlobIds.DecodeBlobId(encoded);
    if id.None? {
      return BadRequest;
    }
    var f := repo.Create(nanos, random);
    CreatedAdds(before, PathOf(NextId(nanos, random)));
    CreatedUnlessTaken(before, NextId(nanos, random));
    assert PathOf(NextId(nanos, random))[..1] == [NextId(nanos, random)[..4]];
    if f.Err? {
      return Refused(f.errno);
    }
    CreatedThenWritten(before, PathOf(NextId(nanos, random)), bytes);
    LocationResolves(NextId(nanos, random));
    repo.Write(f.value, bytes);
    if copyFails {
      SetThenRemoved(Contents(before), PathOf(NextId(nanos, random)), bytes);
      var _ := repo.Abort(f.value);
      return Broken;
    } else {
      var final := repo.Commit(f.value);
      ReadAsLocation(repo.disk, NextId(nanos, random));
      return Stored(final);
    }
  }

  // ---------- the download handler ----------

  /** `Panicked` on a short name; a directory is opened but cannot be copied. */
  datatype Download = Panicked | NotOpened(errno: Errno) | IsDirectory | NoContent | Content(bytes: string)

  /** Under any name of a blob, a download sends what its file holds, without a body if that is nothing, and
      no content at all if there is no such file: then it gives the reason why nothing is there, or meets a
      directory. */
  method HandleBlobGet(repo: Repo, blobid: string) returns (r: Download)
    requires WellFormed(repo.disk)
    ensures r.Panicked? <==> |blobid| < 4
    ensures |blobid| >= 4 ==>
              var p := Components(blobid[..4] + "/" + blobid[4..]);
              && (r.IsDirectory? <==> IsDir(repo.disk, p))
              && (r.NotOpened? <==> p !in repo.disk.nodes)
              && (r.NotOpened? ==> Missing(repo.disk, p, r.errno))
    ensures match ReadAs(repo.disk, blobid)
            case Some(bytes) => r == if bytes == "" then NoContent else Content(bytes)
            case None => !r.NoContent? && !r.Content?
    ensures forall id :: Names(blobid, id) ==>
              (r.NoContent? || r.Content? <==> PathOf(id) in Contents(repo.disk))
              && (r.Content? ==> r.bytes == Contents(repo.disk)[PathOf(id)])
              && (r.NoContent? ==> Contents(repo.disk)[PathOf(id)] == "")
  {
    var f := repo.Open(blobid);
    match f {
      case None => return Panicked;
      case Some(Err(e)) => return NotOpened(e);
      case Some(Ok(Dir)) => return IsDirectory;
      case Some(Ok(File(inode))) =>
        var bytes := repo.disk.data[inode];
        return if |bytes| == 0 then NoContent else Content(bytes);
    }
  }

  // ---------- the deletion handler ----------

  /** The status of an error: not found, conflict, or internal error. */
  function ErrorCode(e: Errno): nat {
    match e
    case ENOENT => 404
    case EEXIST => 409
    case _ => 500
  }

  /** 204 exactly if the name leads to a file, which is gone then; 404 exactly if a name on the way, or the last
      one, is missing; 500 for a directory, or below a file. */
  method HandleBlobDel(repo: Repo, blobid: string) returns (code: nat)
    requires WellFormed(repo.disk)
    modifies repo
    ensures WellFormed(repo.disk) && Contents(repo.disk) == old(Contents(repo.disk)) - {Components(blobid)}
    ensures code == 204 <==> IsFile(old(repo.disk), Components(blobid))
    ensures code == 404 <==> blobid == "" || Missing(old(repo.disk), Components(blobid), ENOENT)
    ensures code in {204, 404, 500}
  {
    ghost var before := repo.disk;
    var r := repo.Delete(blobid);
    EmptyNameIsNoFile(before);
    match r {
      case Ok(_) => return 204;
      case Err(e) => return ErrorCode(e);
    }
  }

  lemma EmptyNameIsNoFile(d: Disk)
    requires WellFormed(d)
    ensures Components("") == [] && !IsFile(d, []) && Contents(d) - {[]} == Contents(d)
  {
    assert [""][1..] == [];
  }
}
