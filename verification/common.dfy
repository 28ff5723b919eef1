/** Shared vocabulary of the retention engine: optional values, the error
    kinds the engine reports, results, and sums of byte counts. */
module Common {

  datatype Option<T> = None | Some(value: T)

  /** The error kinds of the backup tool that the model can produce. */
  datatype Error =
    | DiskSpace       // not enough room to create a backup
    | FilenameFormat  // an entry of a world's backup directory has a malformed name
    | JarPath         // the server jar's link target has an unexpected file name
    | NoMount         // no ancestor of the backup path is a mount point
    | Io              // a failure passed through from the filesystem or from `tar`
    | Minecraft       // a world command (save-off, save-all, save-on) failed

  datatype Result<T> = Ok(value: T) | Err(error: Error)

  /** Total of a sequence of byte counts. */
  function Sum(s: seq<nat>): nat
  {
    if |s| == 0 then 0 else s[0] + Sum(s[1..])
  }

  lemma {:induction false} SumAppend(a: seq<nat>, b: seq<nat>)
    ensures Sum(a + b) == Sum(a) + Sum(b)
  {
    if |a| == 0 {
      assert a + b == b;
    } else {
      assert (a + b)[1..] == a[1..] + b;
      SumAppend(a[1..], b);
    }
  }
}
