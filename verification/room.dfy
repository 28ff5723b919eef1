/** `make_room` over an abstract backup tree, `do_backup`, and the result
    combination of the program's entry point. The available space is an
    oracle re-read on every round; the archive `tar` writes has a length
    given by another oracle. */
module Room {
  import opened Common
  import opened Order
  import opened Fs
  import opened Names
  import opened Catalog
  import opened Eviction
  import opened Mount

  /** The backup directory of one world, `/media/backup/world/<name>`. */
  datatype World = World(name: string, snapshots: seq<Entry>)

  /** The backup root: its world directories in listing order. */
  type Tree = seq<World>

  /** Where a snapshot sits: the index of its world and its own index. */
  datatype Loc = Loc(world: nat, entry: nat)

  predicate ValidLoc(t: Tree, l: Loc)
  {
    l.world < |t| && l.entry < |t[l.world].snapshots|
  }

  function At(t: Tree, l: Loc): Entry
    requires ValidLoc(t, l)
  {
    t[l.world].snapshots[l.entry]
  }

  /** An uncompressed snapshot: a directory two levels below the root. */
  predicate Uncompressed(t: Tree, l: Loc)
  {
    ValidLoc(t, l) && At(t, l).node.Dir?
  }

  function SizeAt(t: Tree, l: Loc): nat
    requires ValidLoc(t, l)
  {
    DirSize(At(t, l).node)
  }

  /** Listing order: worlds in order, and entries in order within a world. */
  predicate Before(a: Loc, b: Loc)
  {
    a.world < b.world || (a.world == b.world && a.entry < b.entry)
  }

  /** The uncompressed snapshots among the first `n` entries of world `w`. */
  function WorldCandidates(t: Tree, w: nat, n: nat): (c: seq<Loc>)
    requires w < |t| && n <= |t[w].snapshots|
    ensures forall i :: 0 <= i < |c| ==> Uncompressed(t, c[i]) && c[i].world == w && c[i].entry < n
    ensures forall i, j :: 0 <= i < j < |c| ==> c[i].entry < c[j].entry
    ensures forall e :: 0 <= e < n && t[w].snapshots[e].node.Dir? ==> Loc(w, e) in c
  {
    if n == 0 then []
    else
      var init := WorldCandidates(t, w, n - 1);
      init + (if t[w].snapshots[n - 1].node.Dir? then [Loc(w, n - 1)] else [])
  }

  /** The uncompressed snapshots of the first `k` worlds, in listing order. */
  function Candidates(t: Tree, k: nat): (c: seq<Loc>)
    requires k <= |t|
    ensures forall i :: 0 <= i < |c| ==> Uncompressed(t, c[i]) && c[i].world < k
    ensures forall i, j :: 0 <= i < j < |c| ==> Before(c[i], c[j])
    ensures forall l :: Uncompressed(t, l) && l.world < k ==> l in c
  {
    if k == 0 then []
    else
      var init := Candidates(t, k - 1);
      var last := WorldCandidates(t, k - 1, |t[k - 1].snapshots|);
      assert forall l :: Uncompressed(t, l) && l.world == k - 1 ==> l == Loc(k - 1, l.entry);
      init + last
  }

  /** The sizes of the snapshots at the given locations. */
  function Sizes(t: Tree, c: seq<Loc>): (sizes: seq<nat>)
    requires forall i :: 0 <= i < |c| ==> ValidLoc(t, c[i])
    ensures |sizes| == |c|
    ensures forall i :: 0 <= i < |c| ==> sizes[i] == SizeAt(t, c[i])
  {
    seq(|c|, i requires 0 <= i < |c| => SizeAt(t, c[i]))
  }

  /** The first least size among the candidates is the first least size
      among all uncompressed snapshots. */
  lemma FirstLeastCandidate(t: Tree, m: nat)
    requires m < |Candidates(t, |t|)|
    requires forall j :: 0 <= j < |Candidates(t, |t|)| ==>
               SizeAt(t, Candidates(t, |t|)[m]) <= SizeAt(t, Candidates(t, |t|)[j])
    requires forall j :: 0 <= j < m ==> SizeAt(t, Candidates(t, |t|)[m]) < SizeAt(t, Candidates(t, |t|)[j])
    ensures forall l :: Uncompressed(t, l) ==> SizeAt(t, Candidates(t, |t|)[m]) <= SizeAt(t, l)
    ensures forall l :: Uncompressed(t, l) && Before(l, Candidates(t, |t|)[m]) ==>
              SizeAt(t, Candidates(t, |t|)[m]) < SizeAt(t, l)
  {
  }

  /** The scan of `make_room`: the uncompressed snapshot of least size over
      all worlds, the first in listing order among equals. */
  function SmallestUncompressed(t: Tree): (r: Option<Loc>)
    ensures r.None? <==> forall l :: !Uncompressed(t, l)
    ensures r.Some? ==> Uncompressed(t, r.value)
    ensures r.Some? ==> forall l :: Uncompressed(t, l) ==> SizeAt(t, r.value) <= SizeAt(t, l)
    ensures r.Some? ==> forall l :: Uncompressed(t, l) && Before(l, r.value) ==> SizeAt(t, r.value) < SizeAt(t, l)
  {
    var c := Candidates(t, |t|);
    if |c| == 0 then None
    else
      var sizes := Sizes(t, c);
      NatOrderIsTotal();
      var m := FirstMin(sizes, NatLess);
      FirstLeastCandidate(t, m);
      Some(c[m])
  }

  /** Number of uncompressed entries in a listing. */
  function DirCount(s: seq<Entry>): nat
  {
    if |s| == 0 then 0 else (if s[0].node.Dir? then 1 else 0) + DirCount(s[1..])
  }

  lemma {:induction false} DirCountAppend(a: seq<Entry>, b: seq<Entry>)
    ensures DirCount(a + b) == DirCount(a) + DirCount(b)
  {
    if |a| == 0 {
      assert a + b == b;
    } else {
      assert (a + b)[1..] == a[1..] + b;
      DirCountAppend(a[1..], b);
    }
  }

  lemma DirCountMiddle(a: seq<Entry>, e: Entry, b: seq<Entry>)
    ensures DirCount(a + [e] + b) == DirCount(a) + (if e.node.Dir? then 1 else 0) + DirCount(b)
  {
    DirCountAppend(a + [e], b);
    DirCountAppend(a, [e]);
    assert [e][1..] == [];
  }

  /** The listing without the entries called `name`: what removing that
      path leaves. */
  function Without(s: seq<Entry>, name: string): (r: seq<Entry>)
    ensures forall x :: x in r <==> x in s && x.name != name
    ensures |r| <= |s|
    ensures name in NamesOf(s) ==> |r| < |s|
  {
    if |s| == 0 then []
    else
      var rest := Without(s[1..], name);
      assert s == [s[0]] + s[1..];
      assert name in NamesOf(s) && s[0].name != name ==> name in NamesOf(s[1..]) by {
        if name in NamesOf(s) && s[0].name != name {
          var x :| x in s && x.name == name;
          assert x in s[1..];
        }
      }
      if s[0].name == name then rest else [s[0]] + rest
  }

  /** Removing a name no directory has keeps the directory count. */
  lemma {:induction false} WithoutKeepsDirs(s: seq<Entry>, name: string)
    requires forall x :: x in s && x.name == name ==> !x.node.Dir?
    ensures DirCount(Without(s, name)) == DirCount(s)
  {
    if |s| > 0 {
      assert forall x :: x in s[1..] ==> x in s;
      WithoutKeepsDirs(s[1..], name);
      if s[0].name != name {
        assert Without(s, name) == [s[0]] + Without(s[1..], name);
      }
    }
  }

  /** A listing with one world's entries replaced. */
  function Replace(t: Tree, w: nat, s: seq<Entry>): (r: Tree)
    requires w < |t|
  {
    t[w := World(t[w].name, s)]
  }

  function ArchiveName(name: string): string
  {
    name + ArchiveSuffix
  }

  /** A directory in the listing already has this name. */
  predicate DirNamed(s: seq<Entry>, name: string)
  {
    exists x :: x in s && x.name == name && x.node.Dir?
  }

  /** The listing after `tar -czf <name>.tar.gz <name>` and `remove_dir_all`
      of the directory at index `i`: the archive takes the directory's
      place, and an earlier entry of the archive's name is overwritten. */
  function PackListing(s: seq<Entry>, i: nat, archiveLen: Node -> nat): (r: seq<Entry>)
    requires i < |s| && s[i].node.Dir?
  {
    var archive := ArchiveName(s[i].name);
    Without(s[..i], archive) + [Entry(archive, File(archiveLen(s[i].node)))] + Without(s[i + 1..], archive)
  }

  /** After packing, the listing holds the archive, and otherwise only
      entries it held before under other names; every other entry whose
      name differs from the archive's is still there. */
  lemma PackListingContents(s: seq<Entry>, i: nat, archiveLen: Node -> nat)
    requires i < |s| && s[i].node.Dir?
    ensures var packed := Entry(ArchiveName(s[i].name), File(archiveLen(s[i].node)));
      && packed in PackListing(s, i, archiveLen)
      && forall x :: x in PackListing(s, i, archiveLen) ==> x == packed || (x in s && x.name != packed.name)
    ensures forall j :: 0 <= j < |s| && j != i && s[j].name != ArchiveName(s[i].name) ==> s[j] in PackListing(s, i, archiveLen)
  {
    var archive := ArchiveName(s[i].name);
    forall j | 0 <= j < |s| && j != i && s[j].name != archive
      ensures s[j] in PackListing(s, i, archiveLen)
    {
      if j < i {
        assert s[j] in s[..i];
      } else {
        assert s[j] in s[i + 1..];
      }
    }
  }

  /** Compression of the uncompressed snapshot at `l`; `tar` fails when a
      directory already has the archive's name. */
  function Compress(t: Tree, l: Loc, archiveLen: Node -> nat): (r: Result<Tree>)
    requires Uncompressed(t, l)
    ensures r.Err? <==> DirNamed(t[l.world].snapshots, ArchiveName(At(t, l).name))
    ensures r.Err? ==> r.error == Io
    ensures r.Ok? ==> && |r.value| == |t| && r.value[l.world].name == t[l.world].name
                      && r.value[l.world].snapshots == PackListing(t[l.world].snapshots, l.entry, archiveLen)
    ensures r.Ok? ==> forall w :: 0 <= w < |t| && w != l.world ==> r.value[w] == t[w]
  {
    var s := t[l.world].snapshots;
    if DirNamed(s, ArchiveName(s[l.entry].name)) then Err(Io)
    else Ok(Replace(t, l.world, PackListing(s, l.entry, archiveLen)))
  }

  /** The name `remove_dir_all` or `remove_file` deletes disappears from the
      world's listing; the rest of the tree stays. */
  function Evict(t: Tree, w: nat, name: string): (r: Tree)
    requires w < |t|
    ensures |r| == |t| && r[w].name == t[w].name
    ensures forall x :: x in r[w].snapshots <==> x in t[w].snapshots && x.name != name
    ensures forall v :: 0 <= v < |t| && v != w ==> r[v] == t[v]
  {
    Replace(t, w, Without(t[w].snapshots, name))
  }

  /** The first world directory with the given name. */
  function FindWorld(t: Tree, world: string): (r: Option<nat>)
    ensures r.Some? ==> r.value < |t| && t[r.value].name == world
    ensures r.Some? ==> forall i :: 0 <= i < r.value ==> t[i].name != world
    ensures r.None? ==> forall i :: 0 <= i < |t| ==> t[i].name != world
  {
    if |t| == 0 then None
    else if t[0].name == world then Some(0)
    else
      match FindWorld(t[1..], world)
      case None => None
      case Some(i) => Some(i + 1)
  }

  /** `delete_one` on a world: its directory must exist. */
  function DeleteOneIn(t: Tree, world: string): (r: Result<Option<string>>)
    ensures r.Err? ==> r.error == FilenameFormat || r.error == Io
    ensures r == Err(Io) <==> FindWorld(t, world).None?
  {
    match FindWorld(t, world)
    case None => Err(Io)
    case Some(w) => DeleteOne(ParseKey, t[w].snapshots)
  }

  /** In the world's directory, `delete_one` runs the eviction policy on
      the directory's listing. */
  lemma DeleteOneInWorld(t: Tree, world: string)
    requires FindWorld(t, world).Some?
    ensures DeleteOneIn(t, world) == DeleteOne(ParseKey, t[FindWorld(t, world).value].snapshots)
  {
  }

  /** What the archive name reduces to: the snapshot an entry holds. */
  function StripArchive(name: string): string
  {
    if HasArchiveSuffix(name) then name[..|name| - 7] else name
  }

  /** The snapshot an entry holds: a directory by its name, an archive by
      its name without `.tar.gz`. */
  function Stem(e: Entry): string
  {
    if e.node.Dir? then e.name else StripArchive(e.name)
  }

  function Stems(s: seq<Entry>): set<string>
  {
    set e | e in s :: Stem(e)
  }

  lemma StripArchiveName(name: string)
    ensures StripArchive(ArchiveName(name)) == name
  {
  }

  /** Every snapshot after compression was there before. */
  lemma PackAddsNoStem(s: seq<Entry>, i: nat, archiveLen: Node -> nat)
    requires i < |s| && s[i].node.Dir?
    ensures Stems(PackListing(s, i, archiveLen)) <= Stems(s)
  {
    var archive := ArchiveName(s[i].name);
    var packed := Entry(archive, File(archiveLen(s[i].node)));
    var a := Without(s[..i], archive);
    var b := Without(s[i + 1..], archive);
    StripArchiveName(s[i].name);
    assert s[i] in s;
    forall x | x in a + [packed] + b ensures Stem(x) in Stems(s) {
      if x in a {
        assert x in s[..i];
      } else if x in b {
        assert x in s[i + 1..];
      }
    }
  }

  /** Every snapshot before compression is still there after it: the
      directory's archive stands for the directory, and an overwritten
      archive of the same name stood for the same snapshot. */
  lemma PackLosesNoStem(s: seq<Entry>, i: nat, archiveLen: Node -> nat)
    requires i < |s| && s[i].node.Dir?
    requires !DirNamed(s, ArchiveName(s[i].name))
    ensures Stems(s) <= Stems(PackListing(s, i, archiveLen))
  {
    var archive := ArchiveName(s[i].name);
    var packed := Entry(archive, File(archiveLen(s[i].node)));
    var a := Without(s[..i], archive);
    var b := Without(s[i + 1..], archive);
    var s' := a + [packed] + b;
    StripArchiveName(s[i].name);
    assert packed in s';
    forall j | 0 <= j < |s| ensures Stem(s[j]) in Stems(s') {
      var x := s[j];
      if j != i && x.name != archive {
        if j < i {
          assert x in s[..i];
          assert x in a;
        } else {
          assert x in s[i + 1..];
          assert x in b;
        }
        assert x in s';
      } else if j != i {
        assert x in s;
      }
    }
  }

  /** Compressing a snapshot keeps every snapshot of its world. */
  lemma PackKeepsStems(s: seq<Entry>, i: nat, archiveLen: Node -> nat)
    requires i < |s| && s[i].node.Dir?
    requires !DirNamed(s, ArchiveName(s[i].name))
    ensures Stems(PackListing(s, i, archiveLen)) == Stems(s)
  {
    PackAddsNoStem(s, i, archiveLen);
    PackLosesNoStem(s, i, archiveLen);
  }

  /** Dropping the archive's name from either side of the directory keeps
      every other directory, since no directory has that name. */
  lemma PackKeepsOtherDirs(s: seq<Entry>, i: nat)
    requires i < |s| && !DirNamed(s, ArchiveName(s[i].name))
    ensures DirCount(Without(s[..i], ArchiveName(s[i].name))) == DirCount(s[..i])
    ensures DirCount(Without(s[i + 1..], ArchiveName(s[i].name))) == DirCount(s[i + 1..])
  {
    var archive := ArchiveName(s[i].name);
    assert forall x :: x in s[..i] ==> x in s;
    assert forall x :: x in s[i + 1..] ==> x in s;
    WithoutKeepsDirs(s[..i], archive);
    WithoutKeepsDirs(s[i + 1..], archive);
  }

  /** Packing never lengthens the listing. */
  lemma PackNoLonger(s: seq<Entry>, i: nat, archiveLen: Node -> nat)
    requires i < |s| && s[i].node.Dir?
    ensures |PackListing(s, i, archiveLen)| <= |s|
  {
  }

  lemma DirCountAround(s: seq<Entry>, i: nat)
    requires i < |s|
    ensures DirCount(s) == DirCount(s[..i]) + (if s[i].node.Dir? then 1 else 0) + DirCount(s[i + 1..])
  {
    assert s == s[..i] + [s[i]] + s[i + 1..];
    DirCountMiddle(s[..i], s[i], s[i + 1..]);
  }

  /** The packed listing's directories are those left on both sides. */
  lemma PackDirCount(s: seq<Entry>, i: nat, archiveLen: Node -> nat)
    requires i < |s| && s[i].node.Dir?
    ensures DirCount(PackListing(s, i, archiveLen))
         == DirCount(Without(s[..i], ArchiveName(s[i].name))) + DirCount(Without(s[i + 1..], ArchiveName(s[i].name)))
  {
    var archive := ArchiveName(s[i].name);
    DirCountMiddle(Without(s[..i], archive), Entry(archive, File(archiveLen(s[i].node))), Without(s[i + 1..], archive));
  }

  /** Compression takes exactly one directory off the listing's
      uncompressed count. */
  lemma PackShrinks(s: seq<Entry>, i: nat, archiveLen: Node -> nat)
    requires i < |s| && s[i].node.Dir?
    requires !DirNamed(s, ArchiveName(s[i].name))
    ensures DirCount(PackListing(s, i, archiveLen)) == DirCount(s) - 1
  {
    DirCountAround(s, i);
    PackDirCount(s, i, archiveLen);
    PackKeepsOtherDirs(s, i);
  }

  /** Entry and directory totals over the whole tree. */
  function TotalEntries(t: Tree): nat
  {
    if |t| == 0 then 0 else TotalEntries(t[..|t| - 1]) + |t[|t| - 1].snapshots|
  }

  function TotalDirs(t: Tree): nat
  {
    if |t| == 0 then 0 else TotalDirs(t[..|t| - 1]) + DirCount(t[|t| - 1].snapshots)
  }

  lemma {:induction false} ReplaceTotals(t: Tree, w: nat, s: seq<Entry>)
    requires w < |t|
    ensures TotalEntries(Replace(t, w, s)) == TotalEntries(t) - |t[w].snapshots| + |s|
    ensures TotalDirs(Replace(t, w, s)) == TotalDirs(t) - DirCount(t[w].snapshots) + DirCount(s)
  {
    var r := Replace(t, w, s);
    if w == |t| - 1 {
      assert r[..|r| - 1] == t[..|t| - 1];
    } else {
      ReplaceTotals(t[..|t| - 1], w, s);
      assert r[..|r| - 1] == Replace(t[..|t| - 1], w, s);
    }
  }

  /** The tree after a round keeps its worlds, keeps every snapshot of the
      other worlds, and loses snapshots of `world` at most. */
  predicate Retains(before: Tree, after: Tree, world: string)
  {
    && |after| == |before|
    && (forall i :: 0 <= i < |before| ==> after[i].name == before[i].name)
    && (forall i :: 0 <= i < |before| ==> Stems(after[i].snapshots) <= Stems(before[i].snapshots))
    && (forall i :: 0 <= i < |before| && before[i].name != world ==> Stems(after[i].snapshots) == Stems(before[i].snapshots))
  }

  /** Keeping snapshots composes over rounds. */
  lemma RetainsTrans(a: Tree, b: Tree, c: Tree, world: string)
    requires Retains(a, b, world) && Retains(b, c, world)
    ensures Retains(a, c, world)
  {
  }

  /** The round made progress: fewer entries, or as many with fewer
      directories. */
  predicate Shrinks(before: Tree, after: Tree)
  {
    || TotalEntries(after) < TotalEntries(before)
    || (TotalEntries(after) == TotalEntries(before) && TotalDirs(after) < TotalDirs(before))
  }

  /** The available bytes on the filesystem of the backup path. */
  function Probe(t: Tree, mounts: (Tree, Path) -> Option<nat>): Result<nat>
  {
    MountAvail(BackupPath, (p: Path) => mounts(t, p))
  }

  /** The probe reads the deepest mount point among the backup path and
      its ancestors, and fails with `NoMount` when there is none. */
  lemma ProbeDeepestMount(t: Tree, mounts: (Tree, Path) -> Option<nat>)
    ensures Probe(t, mounts).Err? <==> forall k :: 0 <= k <= |BackupPath| ==> mounts(t, BackupPath[..k]).None?
    ensures Probe(t, mounts).Err? ==> Probe(t, mounts).error == NoMount
    ensures Probe(t, mounts).Ok? ==>
              exists k :: && 0 <= k <= |BackupPath| && mounts(t, BackupPath[..k]) == Some(Probe(t, mounts).value)
                          && forall deeper :: k < deeper <= |BackupPath| ==> mounts(t, BackupPath[..deeper]).None?
  {
    var at := (p: Path) => mounts(t, p);
    assert forall k :: 0 <= k <= |BackupPath| ==> at(BackupPath[..k]) == mounts(t, BackupPath[..k]);
  }

  /** Space is short and the smallest uncompressed snapshot fits strictly
      in what is left: the round compresses it. */
  predicate FitsSmallest(t: Tree, mounts: (Tree, Path) -> Option<nat>)
  {
    && Probe(t, mounts).Ok? && SmallestUncompressed(t).Some?
    && SizeAt(t, SmallestUncompressed(t).value) < Probe(t, mounts).value
  }

  /** The free space is below `amount`. */
  predicate Short(t: Tree, amount: nat, mounts: (Tree, Path) -> Option<nat>)
  {
    Probe(t, mounts).Ok? && Probe(t, mounts).value < amount
  }

  /** The free space reaches `amount`. */
  predicate Enough(t: Tree, amount: nat, mounts: (Tree, Path) -> Option<nat>)
  {
    Probe(t, mounts).Ok? && Probe(t, mounts).value >= amount
  }

  /** Space is short, no uncompressed snapshot fits in what is left, and
      `delete_one` would delete nothing. */
  ghost predicate Stuck(t: Tree, amount: nat, world: string, mounts: (Tree, Path) -> Option<nat>)
  {
    && Probe(t, mounts).Ok? && Probe(t, mounts).value < amount
    && (forall l :: Uncompressed(t, l) ==> SizeAt(t, l) >= Probe(t, mounts).value)
    && DeleteOneIn(t, world) == Ok(None)
  }

  /** The outcome of one round of `make_room`. */
  datatype Round =
    | Done(enough: bool)
    | Failed(error: Error)
    | Compressed(tree: Tree)
    | Evicted(tree: Tree)

  /** The compressing branch of a round: the snapshot at `l` becomes an
      archive, or `tar` fails. */
  function CompressRound(t: Tree, l: Loc, world: string, archiveLen: Node -> nat): (r: Round)
    requires Uncompressed(t, l)
    ensures r.Compressed? || r == Failed(Io)
    ensures r == Failed(Io) <==> Compress(t, l, archiveLen).Err?
    ensures r.Compressed? ==> Compress(t, l, archiveLen) == Ok(r.tree) && Shrinks(t, r.tree) && Retains(t, r.tree, world)
  {
    var s := t[l.world].snapshots;
    if DirNamed(s, ArchiveName(s[l.entry].name)) then Failed(Io)
    else
      var packed := PackListing(s, l.entry, archiveLen);
      PackKeepsStems(s, l.entry, archiveLen);
      PackNoLonger(s, l.entry, archiveLen);
      PackShrinks(s, l.entry, archiveLen);
      ReplaceTotals(t, l.world, packed);
      Compressed(Replace(t, l.world, packed))
  }

  /** The evicting branch of a round: `delete_one` on `world`, and a stop
      when it deletes nothing. */
  function EvictRound(t: Tree, world: string): (r: Round)
    ensures r.Failed? || r.Evicted? || r == Done(false)
    ensures r.Failed? ==> r.error == FilenameFormat || r.error == Io
    ensures r.Failed? <==> DeleteOneIn(t, world).Err?
    ensures r.Failed? ==> r.error == DeleteOneIn(t, world).error
    ensures r == Done(false) <==> DeleteOneIn(t, world) == Ok(None)
    ensures r.Evicted? ==> && DeleteOneIn(t, world).Ok? && DeleteOneIn(t, world).value.Some?
                           && FindWorld(t, world).Some?
                           && r.tree == Evict(t, FindWorld(t, world).value, DeleteOneIn(t, world).value.value)
                           && Shrinks(t, r.tree) && Retains(t, r.tree, world)
  {
    match DeleteOneIn(t, world)
    case Err(e) => Failed(e)
    case Ok(None) => Done(false)
    case Ok(Some(victim)) =>
      var w := FindWorld(t, world).value;
      EvictShrinks(t, w, victim, world);
      Evicted(Evict(t, w, victim))
  }

  /** Deleting a snapshot of `world` shrinks the tree and keeps every
      snapshot of the other worlds. */
  lemma EvictShrinks(t: Tree, w: nat, victim: string, world: string)
    requires w < |t| && t[w].name == world && victim in NamesOf(t[w].snapshots)
    ensures Shrinks(t, Evict(t, w, victim)) && Retains(t, Evict(t, w, victim), world)
  {
    ReplaceTotals(t, w, Without(t[w].snapshots, victim));
  }

  /** One round of `make_room`: stop when the space suffices; otherwise
      compress the smallest uncompressed snapshot if it fits strictly in
      the space left, else evict one snapshot of `world`, and stop when
      nothing can be evicted. */
  function RoomRound(t: Tree, amount: nat, world: string, mounts: (Tree, Path) -> Option<nat>, archiveLen: Node -> nat): (r: Round)
    ensures r == Done(true) <==> Enough(t, amount, mounts)
    ensures Probe(t, mounts).Err? ==> r == Failed(NoMount)
    ensures r.Failed? ==> r.error == NoMount || r.error == FilenameFormat || r.error == Io
    ensures r.Compressed? ==> && Probe(t, mounts).Ok? && Probe(t, mounts).value < amount
                              && SmallestUncompressed(t).Some?
                              && SizeAt(t, SmallestUncompressed(t).value) < Probe(t, mounts).value
                              && Compress(t, SmallestUncompressed(t).value, archiveLen) == Ok(r.tree)
    ensures r.Evicted? || r == Done(false) ==>
              && Probe(t, mounts).Ok? && Probe(t, mounts).value < amount
              && forall l :: Uncompressed(t, l) ==> SizeAt(t, l) >= Probe(t, mounts).value
    ensures r == Done(false) <==> Stuck(t, amount, world, mounts)
    ensures r.Evicted? ==> && DeleteOneIn(t, world).Ok? && DeleteOneIn(t, world).value.Some?
                           && FindWorld(t, world).Some?
                           && r.tree == Evict(t, FindWorld(t, world).value, DeleteOneIn(t, world).value.value)
    ensures r.Compressed? || r.Evicted? ==> Shrinks(t, r.tree) && Retains(t, r.tree, world)
  {
    var probe := Probe(t, mounts);
    if probe.Err? then Failed(probe.error)
    else if probe.value >= amount then Done(true)
    else
      var smallest := SmallestUncompressed(t);
      if smallest.Some? && SizeAt(t, smallest.value) < probe.value then
        CompressRound(t, smallest.value, world, archiveLen)
      else
        EvictRound(t, world)
  }

  /** When space is short, the round compresses the smallest uncompressed
      snapshot if it fits strictly in what is left, and `tar`'s failure
      fails the round; otherwise the round is `delete_one`'s outcome: its
      error, a stop when it deletes nothing, or the tree without its
      victim. */
  lemma ShortRound(t: Tree, amount: nat, world: string, mounts: (Tree, Path) -> Option<nat>, archiveLen: Node -> nat)
    requires Short(t, amount, mounts)
    ensures FitsSmallest(t, mounts) ==>
              match Compress(t, SmallestUncompressed(t).value, archiveLen)
              case Ok(packed) => RoomRound(t, amount, world, mounts, archiveLen) == Compressed(packed)
              case Err(_) => RoomRound(t, amount, world, mounts, archiveLen) == Failed(Io)
    ensures !FitsSmallest(t, mounts) ==>
              match DeleteOneIn(t, world)
              case Err(e) => RoomRound(t, amount, world, mounts, archiveLen) == Failed(e)
              case Ok(None) => RoomRound(t, amount, world, mounts, archiveLen) == Done(false)
              case Ok(Some(victim)) =>
                RoomRound(t, amount, world, mounts, archiveLen) == Evicted(Evict(t, FindWorld(t, world).value, victim))
  {
  }

  /** The round at `before` compresses or evicts, and leaves `after`. */
  predicate Advances(before: Tree, after: Tree, amount: nat, world: string,
                     mounts: (Tree, Path) -> Option<nat>, archiveLen: Node -> nat)
  {
    var round := RoomRound(before, amount, world, mounts, archiveLen);
    (round.Compressed? || round.Evicted?) && round.tree == after
  }

  /** `steps` is a run of rounds from `first` to `last`: every tree but
      the last is followed by the one its round leaves. */
  predicate Trace(steps: seq<Tree>, first: Tree, last: Tree, amount: nat, world: string,
                  mounts: (Tree, Path) -> Option<nat>, archiveLen: Node -> nat)
  {
    && |steps| > 0 && steps[0] == first && steps[|steps| - 1] == last
    && forall i :: 0 <= i < |steps| - 1 ==> Advances(steps[i], steps[i + 1], amount, world, mounts, archiveLen)
  }

  /** A run extends by the round at its last tree. */
  lemma TraceExtend(steps: seq<Tree>, first: Tree, last: Tree, next: Tree, amount: nat, world: string,
                    mounts: (Tree, Path) -> Option<nat>, archiveLen: Node -> nat)
    requires Trace(steps, first, last, amount, world, mounts, archiveLen)
    requires Advances(last, next, amount, world, mounts, archiveLen)
    ensures Trace(steps + [next], first, next, amount, world, mounts, archiveLen)
  {
    var longer := steps + [next];
    forall i | 0 <= i < |longer| - 1
      ensures Advances(longer[i], longer[i + 1], amount, world, mounts, archiveLen)
    {
      if i < |steps| - 1 {
        assert longer[i] == steps[i] && longer[i + 1] == steps[i + 1];
      }
    }
  }

  /** `make_room`: rounds until the space suffices (`true`), nothing more
      can be evicted (`false`), or a round fails. The trees it went
      through are returned in `steps`. */
  method MakeRoom(amount: nat, world: string, tree: Tree, mounts: (Tree, Path) -> Option<nat>, archiveLen: Node -> nat)
    returns (r: Result<bool>, final: Tree, steps: seq<Tree>)
    ensures Trace(steps, tree, final, amount, world, mounts, archiveLen)
    ensures r.Err? ==> r.error == NoMount || r.error == FilenameFormat || r.error == Io
    ensures r.Err? <==> RoomRound(final, amount, world, mounts, archiveLen).Failed?
    ensures r.Err? ==> RoomRound(final, amount, world, mounts, archiveLen) == Failed(r.error)
    ensures r == Ok(true) <==> Enough(final, amount, mounts)
    ensures r == Ok(false) <==> Stuck(final, amount, world, mounts)
    ensures Retains(tree, final, world)
  {
    final := tree;
    steps := [tree];
    var round := RoomRound(final, amount, world, mounts, archiveLen);
    while round.Compressed? || round.Evicted?
      invariant round == RoomRound(final, amount, world, mounts, archiveLen)
      invariant Trace(steps, tree, final, amount, world, mounts, archiveLen)
      invariant Retains(tree, final, world)
      decreases TotalEntries(final), TotalDirs(final)
    {
      RetainsTrans(tree, final, round.tree, world);
      TraceExtend(steps, tree, final, round.tree, amount, world, mounts, archiveLen);
      steps := steps + [round.tree];
      final := round.tree;
      round := RoomRound(final, amount, world, mounts, archiveLen);
    }
    r := if round.Failed? then Err(round.error) else Ok(round.enough);
  }

  /** `do_backup`: make room for a copy of the world directory, then name
      the new snapshot; `DiskSpace` when room cannot be made. */
  method DoBackup(worldDir: Node, world: string, tree: Tree, mounts: (Tree, Path) -> Option<nat>,
                  archiveLen: Node -> nat, jarFileName: Option<string>, now: string)
    returns (r: Result<string>, final: Tree, steps: seq<Tree>)
    ensures Trace(steps, tree, final, DirSize(worldDir), world, mounts, archiveLen)
    ensures || Enough(final, DirSize(worldDir), mounts)
            || Stuck(final, DirSize(worldDir), world, mounts)
            || RoomRound(final, DirSize(worldDir), world, mounts, archiveLen).Failed?
    ensures Enough(final, DirSize(worldDir), mounts) ==> r == MakeBackupName(jarFileName, now)
    ensures Stuck(final, DirSize(worldDir), world, mounts) ==> r == Err(DiskSpace)
    ensures RoomRound(final, DirSize(worldDir), world, mounts, archiveLen).Failed? ==>
              r == Err(RoomRound(final, DirSize(worldDir), world, mounts, archiveLen).error)
    ensures r.Err? ==> r.error in {DiskSpace, NoMount, FilenameFormat, Io, JarPath}
    ensures Retains(tree, final, world)
  {
    var room;
    room, final, steps := MakeRoom(DirSize(worldDir), world, tree, mounts, archiveLen);
    if room.Err? {
      r := Err(room.error);
    } else if room.value {
      r := MakeBackupName(jarFileName, now);
    } else {
      r := Err(DiskSpace);
    }
  }

  /** `Result::and`: the first error wins; the second result counts only
      after a success. */
  function Both(first: Result<()>, second: Result<()>): (r: Result<()>)
    ensures r.Ok? <==> first.Ok? && second.Ok?
    ensures first.Err? ==> r == first
    ensures first.Ok? ==> r == second
  {
    match first
    case Err(e) => Err(e)
    case Ok(_) => second
  }

  /** The outcome of a server command: `Minecraft` when it fails. */
  function Command(ok: bool): (r: Result<()>)
    ensures r.Ok? <==> ok
    ensures r.Err? ==> r.error == Minecraft
  {
    if ok then Ok(()) else Err(Minecraft)
  }

  /** The entry point: `save-off` and `save-all` must succeed before the
      backup; `save-on` runs whatever the backup's outcome, and the
      backup's error is reported in preference to its. */
  method Run(saveOffOk: bool, saveAllOk: bool, saveOnOk: bool, worldDir: Node, world: string, tree: Tree,
             mounts: (Tree, Path) -> Option<nat>, archiveLen: Node -> nat, jarFileName: Option<string>, now: string)
    returns (r: Result<()>, final: Tree, steps: seq<Tree>)
    ensures !saveOffOk || !saveAllOk ==> r == Err(Minecraft) && final == tree && steps == [tree]
    ensures Trace(steps, tree, final, DirSize(worldDir), world, mounts, archiveLen)
    ensures saveOffOk && saveAllOk ==>
              || Enough(final, DirSize(worldDir), mounts)
              || Stuck(final, DirSize(worldDir), world, mounts)
              || RoomRound(final, DirSize(worldDir), world, mounts, archiveLen).Failed?
    ensures saveOffOk && saveAllOk && Enough(final, DirSize(worldDir), mounts) ==>
              r == Both(if MakeBackupName(jarFileName, now).Ok? then Ok(()) else Err(JarPath), Command(saveOnOk))
    ensures saveOffOk && saveAllOk && Stuck(final, DirSize(worldDir), world, mounts) ==> r == Err(DiskSpace)
    ensures saveOffOk && saveAllOk && RoomRound(final, DirSize(worldDir), world, mounts, archiveLen).Failed? ==>
              r == Err(RoomRound(final, DirSize(worldDir), world, mounts, archiveLen).error)
    ensures r.Ok? ==> && saveOnOk
                      && Probe(final, mounts).Ok? && Probe(final, mounts).value >= DirSize(worldDir)
                      && MakeBackupName(jarFileName, now).Ok?
    ensures Retains(tree, final, world)
  {
    if !saveOffOk || !saveAllOk {
      return Err(Minecraft), tree, [tree];
    }
    var res;
    res, final, steps := DoBackup(worldDir, world, tree, mounts, archiveLen, jarFileName, now);
    var backup: Result<()> := if res.Ok? then Ok(()) else Err(res.error);
    r := Both(backup, Command(saveOnOk));
  }
}
