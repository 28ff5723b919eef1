/** The free-space probe: the backup path and its ancestors are tried
    from the most to the least specific, and the first one that is a
    mount point reports the available bytes. */
module Mount {
  import opened Common

  /** An absolute path as its components; `[]` is the root. */
  type Path = seq<string>

  /** `/media/backup/world`. */
  const BackupPath: Path := ["media", "backup", "world"]

  /** Length of the longest prefix of `p` (the deepest ancestor) that is
      a mount point according to `mountAt`. */
  function MountDepth(p: Path, mountAt: Path -> Option<nat>): (d: Option<nat>)
    ensures d.None? <==> forall k :: 0 <= k <= |p| ==> mountAt(p[..k]).None?
    ensures d.Some? ==> d.value <= |p| && mountAt(p[..d.value]).Some?
    ensures d.Some? ==> forall k :: d.value < k <= |p| ==> mountAt(p[..k]).None?
  {
    assert p[..|p|] == p;
    if mountAt(p).Some? then Some(|p|)
    else if |p| == 0 then None
    else
      var up := p[..|p| - 1];
      assert forall k :: 0 <= k <= |up| ==> up[..k] == p[..k];
      MountDepth(up, mountAt)
  }

  /** Available bytes on the filesystem holding `p`, or `NoMount` when no
      ancestor, the root included, is a mount point. */
  function MountAvail(p: Path, mountAt: Path -> Option<nat>): (r: Result<nat>)
    ensures r.Err? <==> forall k :: 0 <= k <= |p| ==> mountAt(p[..k]).None?
    ensures r.Err? ==> r.error == NoMount
    ensures r.Ok? ==> exists k :: 0 <= k <= |p| && mountAt(p[..k]) == Some(r.value)
                                && forall deeper :: k < deeper <= |p| ==> mountAt(p[..deeper]).None?
  {
    match MountDepth(p, mountAt)
    case None => Err(NoMount)
    case Some(d) => Ok(mountAt(p[..d]).value)
  }
}
