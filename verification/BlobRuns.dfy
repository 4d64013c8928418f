/** A blob store over time: uploads in flight, each call on the file tree a step of its own, in any interleaving;
    commits, aborts and deletions (internal/cmd-blob-store-fs/repository.go). */
module BlobRuns {
  import opened BlobNames
  import opened BlobDisk
  import opened BlobRepo
  import opened Wrappers

  /** An upload in flight: about to create its file (for the first time, or again), about to make the directory
      it lacks, or writing. */
  datatype Flight =
    | Opening(id: string, retry: bool)
    | Making(id: string)
    | Writing(upload: Upload, id: string, sent: string)

  /** `committed` is what clients were promised: for the id of each committed blob, what was uploaded.
      `foreign` are the other files found when the store was opened, left by interrupted uploads. */
  datatype State = State(disk: Disk, foreign: map<Path, string>, flights: map<nat, Flight>,
                         committed: map<string, string>)

  datatype Action =
    | Begin(token: nat, nanos: nat, random: nat)
    | Open(token: nat)
    | MakeDir(token: nat)
    | Send(token: nat, bytes: string)
    | Commit(token: nat)
    | Abort(token: nat)
    | Remove(id: string)

  /** The upload `t` writes to the file of the blob `id`. */
  ghost predicate Writes(s: State, t: nat, id: string) {
    t in s.flights && s.flights[t].Writing? && s.flights[t].id == id
  }

  ghost predicate Enabled(s: State, a: Action) {
    match a
    case Begin(t, _, random) => t !in s.flights && random < RANDOM_LIMIT
    case Open(t) => t in s.flights && s.flights[t].Opening? && IsId(s.flights[t].id)
    case MakeDir(t) => t in s.flights && s.flights[t].Making? && IsId(s.flights[t].id)
    case Send(t, _) => t in s.flights && s.flights[t].Writing? && s.flights[t].upload.inode in s.disk.data
    case Commit(t) => t in s.flights && s.flights[t].Writing?
    case Abort(t) => t in s.flights && s.flights[t].Writing?
    case Remove(id) => IsId(id) && forall t :: !Writes(s, t, id)
  }

  /** The directory of a blob. */
  function DirOf(id: string): Path
    requires IsId(id)
  {
    [id[..4]]
  }

  ghost function Next(s: State, a: Action): State
    requires Enabled(s, a)
  {
    match a
    case Begin(t, nanos, random) => s.(flights := s.flights[t := Opening(NextId(nanos, random), true)])
    case Open(t) => OpenNext(s, t, s.flights[t].id, s.flights[t].retry)
    case MakeDir(t) => MakeDirNext(s, t, s.flights[t].id)
    case Send(t, bytes) =>
      var f := s.flights[t];
      s.(disk := Append(s.disk, f.upload.inode, bytes), flights := s.flights[t := f.(sent := f.sent + bytes)])
    case Commit(t) =>
      var f := s.flights[t];
      s.(flights := s.flights - {t}, committed := s.committed[f.id := f.sent])
    case Abort(t) =>
      s.(disk := Unlinkat(s.disk, Components(s.flights[t].upload.name)).0, flights := s.flights - {t})
    case Remove(id) =>
      s.(disk := Unlinkat(s.disk, Components(Location(id))).0,
         committed := s.committed - {id}, foreign := s.foreign - {PathOf(id)})
  }

  /** The exclusive creation; if the directory is missing, it is made once; any other error ends the upload. */
  ghost function OpenNext(s: State, t: nat, id: string, retry: bool): State
    requires IsId(id)
  {
    var (d, r) := CreateExcl(s.disk, PathOf(id));
    match r
    case Ok(inode) => s.(disk := d, flights := s.flights[t := Writing(Upload(Location(id), inode), id, "")])
    case Err(e) => s.(flights := if retry && e == ENOENT then s.flights[t := Making(id)] else s.flights - {t})
  }

  /** That the directory exists already is no error. */
  ghost function MakeDirNext(s: State, t: nat, id: string): State
    requires IsId(id)
  {
    var (d, r) := Mkdirat(s.disk, DirOf(id));
    s.(disk := d,
       flights := if r == Ok(()) || r == Err(EEXIST) then s.flights[t := Opening(id, false)] else s.flights - {t})
  }

  // ---------- the invariant ----------

  /** The file of a blob holds `content`. */
  ghost predicate FileHolds(d: Disk, id: string, content: string) {
    IsId(id) && PathOf(id) in Contents(d) && Contents(d)[PathOf(id)] == content
  }

  ghost predicate FlightOk(s: State, t: nat) {
    t in s.flights ==>
      match s.flights[t]
      case Opening(id, retry) => IsId(id) && (!retry ==> DirOf(id) in s.disk.nodes)
      case Making(id) => IsId(id)
      case Writing(upload, id, sent) => WritingOk(s, upload, id, sent)
  }

  ghost predicate WritingOk(s: State, upload: Upload, id: string, sent: string) {
    && FileHolds(s.disk, id, sent)
    && id !in s.committed
    && PathOf(id) !in s.foreign
    && upload == Upload(Location(id), s.disk.nodes[PathOf(id)].inode)
  }

  /** No two uploads write to the same file. */
  ghost predicate OwnId(s: State, t: nat, u: nat, id: string) {
    Writes(s, t, id) && Writes(s, u, id) ==> t == u
  }

  ghost predicate CommittedOk(s: State, id: string) {
    id in s.committed ==> FileHolds(s.disk, id, s.committed[id]) && PathOf(id) !in s.foreign
  }

  ghost predicate ForeignOk(s: State, p: Path) {
    p in s.foreign ==> p in Contents(s.disk) && Contents(s.disk)[p] == s.foreign[p]
  }

  /** The file belongs to a committed blob or to an upload in flight, or was there before. */
  ghost predicate Owned(s: State, p: Path) {
    || p in s.foreign
    || (exists id :: id in s.committed && IsId(id) && p == PathOf(id))
    || (exists t, id :: Writes(s, t, id) && IsId(id) && p == PathOf(id))
  }

  ghost predicate FileOwned(s: State, p: Path) {
    p in Contents(s.disk) ==> Owned(s, p)
  }

  ghost predicate Inv(s: State) {
    && WellFormed(s.disk)
    && (forall t :: FlightOk(s, t))
    && (forall t, u, id :: OwnId(s, t, u, id))
    && (forall id :: CommittedOk(s, id))
    && (forall p :: ForeignOk(s, p))
    && (forall p :: FileOwned(s, p))
  }

  /** A store opened on a directory: each file is a blob committed earlier, or was left by something else. */
  ghost predicate IsInitial(s: State) {
    && WellFormed(s.disk)
    && s.flights == map[]
    && (forall id :: CommittedOk(s, id))
    && (forall p :: ForeignOk(s, p))
    && (forall p :: FileOwned(s, p))
  }

  // ---------- steps that touch no file ----------

  /** Nothing is removed and no file changes. */
  ghost predicate Quiet(s: State, s': State) {
    && s'.committed == s.committed && s'.foreign == s.foreign
    && WellFormed(s'.disk) && Contents(s'.disk) == Contents(s.disk)
    && forall p :: NodeStays(s.disk, s'.disk, p)
  }

  ghost predicate NodeStays(d: Disk, d': Disk, p: Path) {
    p in d.nodes ==> p in d'.nodes && d'.nodes[p] == d.nodes[p]
  }

  /** But for the upload `token`, the flights are as before. */
  ghost predicate OtherFlights(s: State, s': State, token: nat) {
    forall t :: t != token ==> SameFlight(s, s', t)
  }

  ghost predicate SameFlight(s: State, s': State, t: nat) {
    (t in s'.flights <==> t in s.flights) && (t in s.flights ==> s'.flights[t] == s.flights[t])
  }

  ghost predicate NotWriting(s: State, t: nat) {
    t in s.flights ==> !s.flights[t].Writing?
  }

  lemma QuietKeeps(s: State, s': State, token: nat)
    requires Inv(s) && Quiet(s, s') && OtherFlights(s, s', token)
    requires NotWriting(s, token) && NotWriting(s', token) && FlightOk(s', token)
    ensures Inv(s')
  {
    forall t ensures FlightOk(s', t) {
      if t != token {
        assert SameFlight(s, s', t);
        QuietFlight(s, s', t);
      }
    }
    forall t, id ensures Writes(s', t, id) <==> Writes(s, t, id) {
      assert t != token ==> SameFlight(s, s', t);
    }
    forall t, u, id ensures OwnId(s', t, u, id) {
      assert OwnId(s, t, u, id);
    }
    forall id ensures CommittedOk(s', id) {
      assert CommittedOk(s, id);
    }
    forall p ensures ForeignOk(s', p) {
      assert ForeignOk(s, p);
    }
    forall p ensures FileOwned(s', p) {
      assert FileOwned(s, p);
    }
  }

  lemma QuietFlight(s: State, s': State, t: nat)
    requires Inv(s) && Quiet(s, s') && SameFlight(s, s', t)
    ensures FlightOk(s', t)
  {
    assert FlightOk(s, t);
    if t in s.flights {
      match s.flights[t] {
        case Opening(id, retry) => assert NodeStays(s.disk, s'.disk, DirOf(id));
        case Making(_) =>
        case Writing(_, id, _) => assert NodeStays(s.disk, s'.disk, PathOf(id));
      }
    }
  }

  lemma BeginKeeps(s: State, a: Action)
    requires Inv(s) && Enabled(s, a) && a.Begin?
    ensures Inv(Next(s, a))
  {
    IdDeterminesTickAndRandom(a.nanos, a.random, a.nanos, a.random);
    QuietKeeps(s, Next(s, a), a.token);
  }

  lemma MakeDirKeeps(s: State, a: Action)
    requires Inv(s) && Enabled(s, a) && a.MakeDir?
    ensures Inv(Next(s, a))
    ensures Next(s, a).flights == s.flights[a.token := Opening(s.flights[a.token].id, false)]
  {
    MkdiratKeeps(s.disk, DirOf(s.flights[a.token].id));
    QuietKeeps(s, Next(s, a), a.token);
  }

  /** Why a file cannot be created: its name is taken, its directory is missing, or a file has the name of the
      directory. */
  lemma CreationErrors(d: Disk, id: string)
    requires WellFormed(d) && IsId(id)
    ensures CreateExcl(d, PathOf(id)).1
         == if PathOf(id) in d.nodes then Err(EEXIST)
            else if DirOf(id) !in d.nodes then Err(ENOENT)
            else if IsFile(d, DirOf(id)) then Err(ENOTDIR)
            else Ok(d.next)
    ensures PathOf(id) in d.nodes ==> IsDir(d, DirOf(id))
  {
    var p := PathOf(id);
    assert Parent(p) == DirOf(id);
    assert p[..0] == [] && p[..1] == DirOf(id);
    assert InDirectory(d, p);
  }

  lemma OpenKeeps(s: State, a: Action)
    requires Inv(s) && Enabled(s, a) && a.Open?
    ensures Inv(Next(s, a))
  {
    var id := s.flights[a.token].id;
    CreationErrors(s.disk, id);
    if CreateExcl(s.disk, PathOf(id)).1.Ok? {
      assert Parent(PathOf(id)) == DirOf(id);
      WithFileAdds(s.disk, PathOf(id));
      CreatedKeeps(s, Next(s, a), a.token, id);
    } else {
      QuietKeeps(s, Next(s, a), a.token);
    }
  }

  // ---------- steps that touch one file ----------

  ghost predicate SameBut<K(!new), V>(m: map<K, V>, m': map<K, V>, k: K) {
    forall i :: i != k ==> SameEntry(m, m', i)
  }

  ghost predicate SameEntry<K, V>(m: map<K, V>, m': map<K, V>, i: K) {
    (i in m' <==> i in m) && (i in m ==> m'[i] == m[i])
  }

  /** The step touches nothing but the blob `id`, its file and one upload. */
  ghost predicate OneBlob(s: State, s': State, id: string, token: nat) {
    && IsId(id) && WellFormed(s'.disk)
    && SameBut(s.disk.nodes, s'.disk.nodes, PathOf(id))
    && SameBut(Contents(s.disk), Contents(s'.disk), PathOf(id))
    && SameBut(s.committed, s'.committed, id)
    && SameBut(s.foreign, s'.foreign, PathOf(id))
    && OtherFlights(s, s', token)
  }

  lemma OtherFilesHold(s: State, s': State, id: string, token: nat, other: string, content: string)
    requires OneBlob(s, s', id, token) && IsId(other) && id != other
    ensures FileHolds(s'.disk, other, content) <==> FileHolds(s.disk, other, content)
    ensures SameEntry(s.disk.nodes, s'.disk.nodes, PathOf(other)) && SameEntry(s.foreign, s'.foreign, PathOf(other))
  {
    LocationInjective(id, other);
    assert SameEntry(Contents(s.disk), Contents(s'.disk), PathOf(other));
    assert SameEntry(s.disk.nodes, s'.disk.nodes, PathOf(other));
  }

  /** An upload that does not write to the blob is as well off as before. */
  lemma OtherFlightOk(s: State, s': State, id: string, token: nat, t: nat)
    requires Inv(s) && OneBlob(s, s', id, token) && t != token && !Writes(s, t, id)
    ensures FlightOk(s', t)
  {
    assert FlightOk(s, t) && SameFlight(s, s', t);
    if t in s.flights {
      match s.flights[t] {
        case Opening(i, retry) => assert SameEntry(s.disk.nodes, s'.disk.nodes, DirOf(i));
        case Making(_) =>
        case Writing(_, i, sent) =>
          OtherFilesHold(s, s', id, token, i, sent);
          assert SameEntry(s.committed, s'.committed, i);
      }
    }
  }

  lemma OtherCommittedOk(s: State, s': State, id: string, token: nat, i: string)
    requires Inv(s) && OneBlob(s, s', id, token) && i != id
    ensures CommittedOk(s', i)
  {
    assert CommittedOk(s, i) && SameEntry(s.committed, s'.committed, i);
    if i in s.committed {
      OtherFilesHold(s, s', id, token, i, s.committed[i]);
    }
  }

  lemma OtherForeignOk(s: State, s': State, id: string, token: nat, p: Path)
    requires Inv(s) && OneBlob(s, s', id, token) && p != PathOf(id)
    ensures ForeignOk(s', p)
  {
    assert ForeignOk(s, p) && SameEntry(s.foreign, s'.foreign, p) && SameEntry(Contents(s.disk), Contents(s'.disk), p);
  }

  /** A file other than that of the blob keeps its owner, if the upload that moves wrote to the blob, if to any. */
  lemma OtherFileOwned(s: State, s': State, id: string, token: nat, p: Path)
    requires Inv(s) && OneBlob(s, s', id, token) && p != PathOf(id)
    requires NotWriting(s, token) || Writes(s, token, id)
    ensures FileOwned(s', p)
  {
    assert FileOwned(s, p) && SameEntry(s.foreign, s'.foreign, p) && SameEntry(Contents(s.disk), Contents(s'.disk), p);
    if p in Contents(s.disk) {
      if i :| i in s.committed && IsId(i) && p == PathOf(i) {
        assert SameEntry(s.committed, s'.committed, i);
      } else if t, i :| Writes(s, t, i) && IsId(i) && p == PathOf(i) {
        assert SameFlight(s, s', t) && Writes(s', t, i);
      }
    }
  }

  lemma OwnIdKept(s: State, s': State, id: string, token: nat, t: nat, u: nat, i: string)
    requires Inv(s) && OneBlob(s, s', id, token)
    requires NotWriting(s', token) || Writes(s', token, id)
    requires forall t :: t != token ==> !Writes(s, t, id)
    ensures OwnId(s', t, u, i)
  {
    assert OwnId(s, t, u, i);
    if t != token {
      assert SameFlight(s, s', t) && (Writes(s', t, i) ==> Writes(s, t, i));
    }
    if u != token {
      assert SameFlight(s, s', u) && (Writes(s', u, i) ==> Writes(s, u, i));
    }
  }

  /** A step that touches one blob keeps the invariant if it does for that blob. */
  lemma OneBlobKeeps(s: State, s': State, id: string, token: nat)
    requires Inv(s) && OneBlob(s, s', id, token)
    requires NotWriting(s, token) || Writes(s, token, id)
    requires NotWriting(s', token) || Writes(s', token, id)
    requires forall t :: t != token ==> !Writes(s, t, id)
    requires FlightOk(s', token) && CommittedOk(s', id) && ForeignOk(s', PathOf(id)) && FileOwned(s', PathOf(id))
    ensures Inv(s')
  {
    forall t ensures FlightOk(s', t) {
      if t != token {
        OtherFlightOk(s, s', id, token, t);
      }
    }
    forall t, u, i ensures OwnId(s', t, u, i) {
      OwnIdKept(s, s', id, token, t, u, i);
    }
    forall i ensures CommittedOk(s', i) {
      if i != id {
        OtherCommittedOk(s, s', id, token, i);
      }
    }
    forall p ensures ForeignOk(s', p) {
      if p != PathOf(id) {
        OtherForeignOk(s, s', id, token, p);
      }
    }
    forall p ensures FileOwned(s', p) {
      if p != PathOf(id) {
        OtherFileOwned(s, s', id, token, p);
      }
    }
  }

  lemma NobodyWritesWithoutFile(s: State, id: string, t: nat)
    requires Inv(s) && IsId(id) && !IsFile(s.disk, PathOf(id))
    ensures !Writes(s, t, id) && id !in s.committed && PathOf(id) !in s.foreign
  {
    assert FlightOk(s, t) && CommittedOk(s, id) && ForeignOk(s, PathOf(id));
  }

  /** The upload `token` has just created the file of the blob `id`. */
  ghost predicate JustCreated(s: State, s': State, token: nat, id: string) {
    && IsId(id) && PathOf(id) !in s.disk.nodes
    && s'.disk == WithFile(s.disk, PathOf(id))
    && WellFormed(s'.disk) && Contents(s'.disk) == Contents(s.disk)[PathOf(id) := ""]
    && s'.flights == s.flights[token := Writing(Upload(Location(id), s.disk.next), id, "")]
    && s'.committed == s.committed && s'.foreign == s.foreign
  }

  lemma CreatedIsOneBlob(s: State, s': State, token: nat, id: string)
    requires JustCreated(s, s', token, id)
    ensures OneBlob(s, s', id, token)
  {
    SetIsSameBut(Contents(s.disk), PathOf(id), "");
    SetIsSameBut(s.disk.nodes, PathOf(id), File(s.disk.next));
  }

  lemma SetIsSameBut<K(!new), V>(m: map<K, V>, k: K, v: V)
    ensures SameBut(m, m[k := v], k)
  {
  }

  lemma CreatedIsWriting(s: State, s': State, token: nat, id: string)
    requires JustCreated(s, s', token, id) && id !in s.committed && PathOf(id) !in s.foreign
    ensures FlightOk(s', token) && Writes(s', token, id)
  {
    assert s'.disk.nodes[PathOf(id)] == File(s.disk.next);
  }

  lemma CreatedKeeps(s: State, s': State, token: nat, id: string)
    requires Inv(s) && NotWriting(s, token) && JustCreated(s, s', token, id)
    ensures Inv(s')
  {
    forall t ensures !Writes(s, t, id) {
      NobodyWritesWithoutFile(s, id, t);
    }
    NobodyWritesWithoutFile(s, id, token);
    CreatedIsOneBlob(s, s', token, id);
    CreatedIsWriting(s, s', token, id);
    OneBlobKeeps(s, s', id, token);
  }

  /** Only the upload itself writes to its file. */
  lemma OnlyWriter(s: State, token: nat, id: string)
    requires Inv(s) && Writes(s, token, id)
    ensures IsId(id) && IsFile(s.disk, PathOf(id))
    ensures WritingOk(s, s.flights[token].upload, id, s.flights[token].sent)
    ensures forall t :: t != token ==> !Writes(s, t, id)
  {
    assert FlightOk(s, token);
    forall t | t != token ensures !Writes(s, t, id) {
      assert OwnId(s, t, token, id);
    }
  }

  lemma SendKeeps(s: State, a: Action)
    requires Inv(s) && Enabled(s, a) && a.Send?
    ensures Inv(Next(s, a))
  {
    var f := s.flights[a.token];
    OnlyWriter(s, a.token, f.id);
    AppendExtends(s.disk, PathOf(f.id), a.bytes);
    SentKeeps(s, Next(s, a), a.token, f, a.bytes);
  }

  lemma SentKeeps(s: State, s': State, token: nat, f: Flight, bytes: string)
    requires Inv(s) && token in s.flights && s.flights[token] == f && f.Writing? && IsId(f.id)
    requires WellFormed(s'.disk) && s'.disk.nodes == s.disk.nodes
    requires Contents(s'.disk) == Contents(s.disk)[PathOf(f.id) := f.sent + bytes]
    requires s'.flights == s.flights[token := f.(sent := f.sent + bytes)]
    requires s'.committed == s.committed && s'.foreign == s.foreign
    ensures Inv(s')
  {
    OnlyWriter(s, token, f.id);
    assert Writes(s', token, f.id);
    OneBlobKeeps(s, s', f.id, token);
  }

  lemma CommitKeeps(s: State, a: Action)
    requires Inv(s) && Enabled(s, a) && a.Commit?
    ensures Inv(Next(s, a))
  {
    var f := s.flights[a.token];
    OnlyWriter(s, a.token, f.id);
    assert f.id in Next(s, a).committed;
    OneBlobKeeps(s, Next(s, a), f.id, a.token);
  }

  /** The file of the blob `id` is gone, and so is its owner. */
  lemma GoneKeeps(s: State, s': State, id: string, token: nat)
    requires Inv(s) && IsId(id) && WellFormed(s'.disk)
    requires s'.disk.nodes == s.disk.nodes || s'.disk.nodes == s.disk.nodes - {PathOf(id)}
    requires Contents(s'.disk) == Contents(s.disk) - {PathOf(id)}
    requires s'.committed == s.committed - {id} && s'.foreign == s.foreign - {PathOf(id)}
    requires s'.flights == s.flights - {token} && (token in s.flights ==> Writes(s, token, id))
    requires forall t :: t != token ==> !Writes(s, t, id)
    ensures Inv(s')
  {
    OneBlobKeeps(s, s', id, token);
  }

  lemma AbortKeeps(s: State, a: Action)
    requires Inv(s) && Enabled(s, a) && a.Abort?
    ensures IsId(s.flights[a.token].id)
    ensures Inv(Next(s, a)) && Contents(Next(s, a).disk) == Contents(s.disk) - {PathOf(s.flights[a.token].id)}
  {
    var id := s.flights[a.token].id;
    OnlyWriter(s, a.token, id);
    LocationResolves(id);
    UnlinkatKeeps(s.disk, PathOf(id));
    assert s.committed - {id} == s.committed && s.foreign - {PathOf(id)} == s.foreign;
    GoneKeeps(s, Next(s, a), id, a.token);
  }

  /** A number that no flight has. */
  lemma FreeToken(flights: map<nat, Flight>) returns (t: nat)
    ensures t !in flights
  {
    t := AboveAll(flights.Keys);
  }

  lemma {:induction false} AboveAll(ts: set<nat>) returns (t: nat)
    ensures forall u :: u in ts ==> u < t
  {
    if ts == {} {
      t := 0;
    } else {
      var u :| u in ts;
      var v := AboveAll(ts - {u});
      t := if v > u then v else u + 1;
      forall w | w in ts ensures w < t {
        assert w == u || w in ts - {u};
      }
    }
  }

  lemma NoneToRemove<K, V>(m: map<K, V>, k: K)
    requires k !in m
    ensures m - {k} == m
  {
  }

  lemma RemoveKeeps(s: State, a: Action)
    requires Inv(s) && Enabled(s, a) && a.Remove?
    ensures Inv(Next(s, a)) && Contents(Next(s, a).disk) == Contents(s.disk) - {PathOf(a.id)}
  {
    LocationResolves(a.id);
    UnlinkatKeeps(s.disk, PathOf(a.id));
    var token := FreeToken(s.flights);
    NoneToRemove(s.flights, token);
    GoneKeeps(s, Next(s, a), a.id, token);
  }

  lemma InvNext(s: State, a: Action)
    requires Inv(s) && Enabled(s, a)
    ensures Inv(Next(s, a))
  {
    match a {
      case Begin(_, _, _) => BeginKeeps(s, a);
      case Open(_) => OpenKeeps(s, a);
      case MakeDir(_) => MakeDirKeeps(s, a);
      case Send(_, _) => SendKeeps(s, a);
      case Commit(_) => CommitKeeps(s, a);
      case Abort(_) => AbortKeeps(s, a);
      case Remove(_) => RemoveKeeps(s, a);
    }
  }

  // ---------- whole runs ----------

  ghost predicate IsRun(first: State, actions: seq<Action>, s: State)
    decreases |actions|
  {
    if actions == [] then s == first
    else
      var n := |actions| - 1;
      exists r :: IsRun(first, actions[..n], r) && Enabled(r, actions[n]) && s == Next(r, actions[n])
  }

  lemma {:induction false} RunsKeepInv(first: State, actions: seq<Action>, s: State)
    requires IsInitial(first) && IsRun(first, actions, s)
    ensures Inv(s)
    decreases |actions|
  {
    if actions == [] {
      forall t ensures FlightOk(s, t) {}
      forall t, u, id ensures OwnId(s, t, u, id) {}
    } else {
      var n := |actions| - 1;
      var r :| IsRun(first, actions[..n], r) && Enabled(r, actions[n]) && s == Next(r, actions[n]);
      RunsKeepInv(first, actions[..n], r);
      InvNext(r, actions[n]);
    }
  }

  /** At any point of any run, a committed blob reads under its location as what was uploaded. */
  lemma CommittedIsReadable(first: State, actions: seq<Action>, s: State, id: string)
    requires IsInitial(first) && IsRun(first, actions, s) && id in s.committed
    ensures IsId(id) && ReadAs(s.disk, Location(id)) == Some(s.committed[id])
  {
    RunsKeepInv(first, actions, s);
    assert CommittedOk(s, id);
    ReadAsLocation(s.disk, id);
  }

  /** What was promised for a blob changes only when that blob is removed; a commit promises what was sent,
      under an id that was free. */
  lemma PromisesAreKept(first: State, actions: seq<Action>, s: State, a: Action, id: string)
    requires IsInitial(first) && IsRun(first, actions, s) && Enabled(s, a)
    ensures id in s.committed && a != Remove(id) ==>
              id in Next(s, a).committed && Next(s, a).committed[id] == s.committed[id]
    ensures id !in s.committed && id in Next(s, a).committed ==>
              a.Commit? && s.flights[a.token].id == id && Next(s, a).committed[id] == s.flights[a.token].sent
    ensures a.Commit? ==> s.flights[a.token].id !in s.committed
  {
    RunsKeepInv(first, actions, s);
    if a.Commit? {
      assert FlightOk(s, a.token);
    }
  }

  /** All that the upload `t` sends in these actions, in order. */
  function SentBy(actions: seq<Action>, t: nat): string {
    if actions == [] then ""
    else
      var n := |actions| - 1;
      SentBy(actions[..n], t) + (match actions[n] case Send(u, bytes) => if u == t then bytes else "" case _ => "")
  }

  /** If the upload is in flight, it is for this id and has sent this much. */
  ghost predicate FlightIs(s: State, t: nat, id: string, sent: string) {
    t in s.flights ==>
      match s.flights[t]
      case Opening(i, _) => i == id && sent == ""
      case Making(i) => i == id && sent == ""
      case Writing(_, i, x) => i == id && x == sent
  }

  predicate Begins(a: Action, t: nat) {
    a.Begin? && a.token == t
  }

  lemma FlightStep(s: State, a: Action, t: nat, id: string, sent: string)
    requires Enabled(s, a) && !Begins(a, t) && FlightIs(s, t, id, sent)
    ensures FlightIs(Next(s, a), t, id, match a case Send(u, bytes) => if u == t then sent + bytes else sent case _ => sent)
  {
  }

  /** Since it began, an upload keeps its id and has sent what its actions say. */
  lemma {:induction false} FlightFollowsActions(first: State, before: seq<Action>, t: nat, nanos: nat, random: nat,
                                                during: seq<Action>, s: State)
    requires random < RANDOM_LIMIT && IsRun(first, before + [Begin(t, nanos, random)] + during, s)
    requires forall i :: 0 <= i < |during| ==> !Begins(during[i], t)
    ensures FlightIs(s, t, NextId(nanos, random), SentBy(during, t))
    decreases |during|
  {
    var actions := before + [Begin(t, nanos, random)] + during;
    var n := |actions| - 1;
    var r :| IsRun(first, actions[..n], r) && Enabled(r, actions[n]) && s == Next(r, actions[n]);
    if during != [] {
      var m := |during| - 1;
      assert actions[..n] == before + [Begin(t, nanos, random)] + during[..m] && actions[n] == during[m];
      FlightFollowsActions(first, before, t, nanos, random, during[..m], r);
      FlightStep(r, during[m], t, NextId(nanos, random), SentBy(during[..m], t));
    }
  }

  /** These actions lead to states where the blob is committed with this content. */
  ghost predicate Promised(first: State, actions: seq<Action>, id: string, content: string) {
    forall s :: IsRun(first, actions, s) ==> id in s.committed && s.committed[id] == content
  }

  /** The commit of an upload makes its id committed, with all that the upload sent. */
  lemma CommitPromises(first: State, before: seq<Action>, t: nat, nanos: nat, random: nat, during: seq<Action>)
    requires random < RANDOM_LIMIT && forall i :: 0 <= i < |during| ==> !Begins(during[i], t)
    ensures Promised(first, before + [Begin(t, nanos, random)] + during + [Commit(t)],
                     NextId(nanos, random), SentBy(during, t))
  {
    var id, sending := NextId(nanos, random), before + [Begin(t, nanos, random)] + during;
    var actions := sending + [Commit(t)];
    forall s | IsRun(first, actions, s) ensures id in s.committed && s.committed[id] == SentBy(during, t) {
      assert actions[..|sending|] == sending;
      var r :| IsRun(first, sending, r) && Enabled(r, Commit(t)) && s == Next(r, Commit(t));
      FlightFollowsActions(first, before, t, nanos, random, during, r);
    }
  }

  lemma {:induction false} PromiseLasts(first: State, actions: seq<Action>, after: seq<Action>, id: string, content: string)
    requires IsInitial(first) && Promised(first, actions, id, content) && Remove(id) !in after
    ensures Promised(first, actions + after, id, content)
    decreases |after|
  {
    if after == [] {
      assert actions + after == actions;
    } else {
      var m, whole := |after| - 1, actions + after;
      assert whole[..|whole| - 1] == actions + after[..m];
      PromiseLasts(first, actions, after[..m], id, content);
      forall s | IsRun(first, whole, s) ensures id in s.committed && s.committed[id] == content {
        var r :| IsRun(first, actions + after[..m], r) && Enabled(r, after[m]) && s == Next(r, after[m]);
        PromisesAreKept(first, actions + after[..m], r, after[m], id);
      }
    }
  }

  /** From the first to the last: an upload that begins, sends and commits, among any other actions, can be read
      back under the location of the id drawn when it began, byte for byte as it was sent, until that blob is
      removed. */
  lemma UploadIsReadBack(first: State, before: seq<Action>, t: nat, nanos: nat, random: nat, during: seq<Action>,
                         after: seq<Action>, s: State)
    requires IsInitial(first) && random < RANDOM_LIMIT
    requires IsRun(first, before + [Begin(t, nanos, random)] + during + [Commit(t)] + after, s)
    requires forall i :: 0 <= i < |during| ==> !Begins(during[i], t)
    requires Remove(NextId(nanos, random)) !in after
    ensures NextId(nanos, random) in s.committed && s.committed[NextId(nanos, random)] == SentBy(during, t)
    ensures IsId(NextId(nanos, random)) && ReadAs(s.disk, Location(NextId(nanos, random))) == Some(SentBy(during, t))
  {
    var id, committing := NextId(nanos, random), before + [Begin(t, nanos, random)] + during + [Commit(t)];
    CommitPromises(first, before, t, nanos, random, during);
    PromiseLasts(first, committing, after, id, SentBy(during, t));
    CommittedIsReadable(first, committing + after, s, id);
  }

  /** An upload in flight can always make its next call, or send more, commit or abort, and a committed blob can
      always be removed. */
  lemma NothingIsStuck(first: State, actions: seq<Action>, s: State, t: nat, bytes: string, id: string)
    requires IsInitial(first) && IsRun(first, actions, s)
    ensures t in s.flights ==>
              || Enabled(s, Open(t)) || Enabled(s, MakeDir(t))
              || (Enabled(s, Send(t, bytes)) && Enabled(s, Commit(t)) && Enabled(s, Abort(t)))
    ensures id in s.committed ==> Enabled(s, Remove(id)) && IsFile(s.disk, Components(Location(id)))
  {
    RunsKeepInv(first, actions, s);
    assert FlightOk(s, t);
    if t in s.flights && s.flights[t].Writing? {
      OnlyWriter(s, t, s.flights[t].id);
      assert HasData(s.disk, PathOf(s.flights[t].id));
    }
    if id in s.committed {
      assert CommittedOk(s, id);
      LocationResolves(id);
      forall u ensures !Writes(s, u, id) {
        assert FlightOk(s, u);
      }
    }
  }

  /** Any action that is enabled extends the run. */
  lemma RunExtends(first: State, actions: seq<Action>, s: State, a: Action)
    requires IsRun(first, actions, s) && Enabled(s, a)
    ensures IsRun(first, actions + [a], Next(s, a))
  {
    assert (actions + [a])[..|actions|] == actions;
  }

  /** A removed blob is gone: its location leads to nothing, no other file changes. */
  lemma RemovedIsGone(first: State, actions: seq<Action>, s: State, id: string, s': State)
    requires IsInitial(first) && IsRun(first, actions, s)
    requires Enabled(s, Remove(id)) && s' == Next(s, Remove(id))
    ensures id !in s'.committed && ReadAs(s'.disk, Location(id)) == None
    ensures Contents(s'.disk) == Contents(s.disk) - {PathOf(id)}
  {
    RunsKeepInv(first, actions, s);
    RemoveKeeps(s, Remove(id));
    ReadAsLocation(s'.disk, id);
  }

  /** The files are those of the committed blobs, of the uploads in flight and of interrupted ones, no more and no
      less: an upload that was aborted, or refused, or a blob that was removed, leaves none behind. */
  lemma FilesAreTheBlobs(first: State, actions: seq<Action>, s: State, p: Path)
    requires IsInitial(first) && IsRun(first, actions, s)
    ensures IsFile(s.disk, p) ==> Owned(s, p)
    ensures Owned(s, p) ==> IsFile(s.disk, p)
  {
    RunsKeepInv(first, actions, s);
    assert HasData(s.disk, p) && FileOwned(s, p) && ForeignOk(s, p);
    if id :| id in s.committed && IsId(id) && p == PathOf(id) {
      assert CommittedOk(s, id);
    }
    if t, id :| Writes(s, t, id) && IsId(id) && p == PathOf(id) {
      assert FlightOk(s, t);
    }
  }

  lemma LeftoverStays(s: State, a: Action, p: Path)
    requires Enabled(s, a) && p in s.foreign && (a.Remove? ==> PathOf(a.id) != p)
    ensures p in Next(s, a).foreign && Next(s, a).foreign[p] == s.foreign[p]
  {
  }

  /** What was there before stays as it is until it is removed. */
  lemma {:induction false} LeftoversStay(first: State, actions: seq<Action>, s: State, p: Path)
    requires IsInitial(first) && IsRun(first, actions, s)
    requires p in first.foreign && forall id :: IsId(id) && PathOf(id) == p ==> Remove(id) !in actions
    ensures p in s.foreign && s.foreign[p] == first.foreign[p]
    ensures p in Contents(s.disk) && Contents(s.disk)[p] == first.foreign[p]
    decreases |actions|
  {
    RunsKeepInv(first, actions, s);
    assert ForeignOk(s, p);
    if actions != [] {
      var n := |actions| - 1;
      var r :| IsRun(first, actions[..n], r) && Enabled(r, actions[n]) && s == Next(r, actions[n]);
      LeftoversStay(first, actions[..n], r, p);
      assert actions[n] in actions;
      LeftoverStays(r, actions[n], p);
    }
  }

  /** A creation is refused exactly when the name is taken, or a file has the name of its directory. A directory
      once made is there for the second attempt, whatever the other uploads do, so that three calls are enough. */
  lemma CreationEnds(first: State, actions: seq<Action>, s: State, t: nat, s': State)
    requires IsInitial(first) && IsRun(first, actions, s)
    requires Enabled(s, Open(t)) && s' == Next(s, Open(t))
    ensures t !in s'.flights
       <==> PathOf(s.flights[t].id) in s.disk.nodes || IsFile(s.disk, DirOf(s.flights[t].id))
    ensures t in s'.flights && !s.flights[t].retry ==> s'.flights[t].Writing?
  {
    RunsKeepInv(first, actions, s);
    assert FlightOk(s, t);
    CreationErrors(s.disk, s.flights[t].id);
  }

  /** Making the directory never fails, even if another upload has just made it. */
  lemma DirectoryIsMade(first: State, actions: seq<Action>, s: State, t: nat, s': State)
    requires IsInitial(first) && IsRun(first, actions, s)
    requires Enabled(s, MakeDir(t)) && s' == Next(s, MakeDir(t))
    ensures s'.flights == s.flights[t := Opening(s.flights[t].id, false)]
    ensures DirOf(s.flights[t].id) in s'.disk.nodes && Contents(s'.disk) == Contents(s.disk)
  {
    RunsKeepInv(first, actions, s);
    MakeDirKeeps(s, MakeDir(t));
    MkdiratKeeps(s.disk, DirOf(s.flights[t].id));
  }

  /** The steps of a creation, with no other step between them. */
  ghost function Alone(s: State, t: nat, nanos: nat, random: nat): State
    requires t !in s.flights && random < RANDOM_LIMIT
  {
    IdDeterminesTickAndRandom(nanos, random, nanos, random);
    var tried := OpenNext(s, t, NextId(nanos, random), true);
    if t in tried.flights && tried.flights[t].Making?
    then OpenNext(MakeDirNext(tried, t, NextId(nanos, random)), t, NextId(nanos, random), false)
    else tried
  }

  /** They do what the creation does as a whole. */
  lemma AloneIsCreated(s: State, t: nat, nanos: nat, random: nat)
    requires WellFormed(s.disk) && t !in s.flights && random < RANDOM_LIMIT
    ensures IsId(NextId(nanos, random))
    ensures var id, s' := NextId(nanos, random), Alone(s, t, nanos, random);
            var (d, r) := Created(s.disk, PathOf(id));
            && s'.disk == d
            && s'.flights == match r
                             case Ok(inode) => s.flights[t := Writing(Upload(Location(id), inode), id, "")]
                             case Err(_) => s.flights
  {
    IdDeterminesTickAndRandom(nanos, random, nanos, random);
    var id := NextId(nanos, random);
    CreationErrors(s.disk, id);
    CreatedInTwoSteps(s.disk, id);
  }

  lemma CreatedInTwoSteps(d: Disk, id: string)
    requires WellFormed(d) && IsId(id)
    ensures DirOf(id) in d.nodes ==> Created(d, PathOf(id)) == CreateExcl(d, PathOf(id))
    ensures DirOf(id) !in d.nodes ==>
              && Created(d, PathOf(id)) == CreateExcl(Mkdirat(d, DirOf(id)).0, PathOf(id))
              && Created(d, PathOf(id)).1.Ok? && Mkdirat(d, DirOf(id)).1 == Ok(())
  {
    var p := PathOf(id);
    assert Parent(p) == DirOf(id) && Parent(DirOf(id)) == [];
    assert p[..0] == [] && p[..1] == DirOf(id);
    assert InDirectory(d, p);
    if DirOf(id) in d.nodes {
      assert IsDir(d, DirOf(id)) ==> !Blocked(d, p);
    } else {
      WithDirsOneLevel(d, DirOf(id));
      assert !Blocked(d, p);
    }
  }

  /** An abort removes the file of its own upload and alters no other. */
  lemma AbortIsClean(first: State, actions: seq<Action>, s: State, t: nat, s': State)
    requires IsInitial(first) && IsRun(first, actions, s)
    requires Enabled(s, Abort(t)) && s' == Next(s, Abort(t))
    ensures IsId(s.flights[t].id) && Contents(s'.disk) == Contents(s.disk) - {PathOf(s.flights[t].id)}
    ensures s'.committed == s.committed && s'.foreign == s.foreign
  {
    RunsKeepInv(first, actions, s);
    AbortKeeps(s, Abort(t));
  }
}
