/** The values both programs pass between their scan, resolve and categorise stages. */
module Records {
  import opened Wrappers

  /** One entry reported by the directory walk: its full path, its file name and whether it is a regular file. */
  datatype DirEntry = DirEntry(path: string, name: string, isFile: bool)

  /** `PngFileInfo`: the app id taken from the file name, the full path and the name with extension. */
  datatype PngFile<K> = PngFile(appId: K, path: string, name: string)

  /** A planned rename of one screenshot. */
  datatype Move = Move(source: string, target: string)

  /** `<dir>/<title>/<file name>`, where a screenshot of the game `title` belongs. */
  function TargetPath(dir: string, title: string, name: string): string
  {
    dir + "/" + title + "/" + name
  }

  /**
   * The records a directory walk yields, in walk order: every entry `accept` maps to a record,
   * and nothing else.
   */
  function Kept<T, U>(entries: seq<T>, accept: T -> Option<U>): seq<U>
  {
    if entries == [] then []
    else
      var last := entries[|entries| - 1];
      Kept(entries[..|entries| - 1], accept) + match accept(last) case Some(r) => [r] case None => []
  }

  /** A record is kept exactly when some entry is accepted as that record; none is made up. */
  lemma {:induction false} KeptSpec<T, U>(entries: seq<T>, accept: T -> Option<U>, r: U)
    ensures |Kept(entries, accept)| <= |entries|
    ensures r in Kept(entries, accept) <==> exists i | 0 <= i < |entries| :: accept(entries[i]) == Some(r)
  {
    if entries != [] {
      var prev := entries[..|entries| - 1];
      KeptSpec(prev, accept, r);
      if r in Kept(prev, accept) {
        var i :| 0 <= i < |prev| && accept(prev[i]) == Some(r);
        assert entries[i] == prev[i];
      }
      if exists i | 0 <= i < |entries| :: accept(entries[i]) == Some(r) {
        var i :| 0 <= i < |entries| && accept(entries[i]) == Some(r);
        if i < |prev| {
          assert prev[i] == entries[i];
        }
      }
    }
  }

  /** One more entry adds its record, if it has one. */
  lemma KeptStep<T, U>(entries: seq<T>, accept: T -> Option<U>, i: nat)
    requires i < |entries|
    ensures Kept(entries[..i + 1], accept) ==
            Kept(entries[..i], accept) + match accept(entries[i]) case Some(r) => [r] case None => []
  {
    assert entries[..i + 1][..i] == entries[..i];
  }

  /** When no entry is accepted, nothing is kept. */
  lemma KeptNone<T, U>(entries: seq<T>, accept: T -> Option<U>)
    requires forall i | 0 <= i < |entries| :: accept(entries[i]).None?
    ensures Kept(entries, accept) == []
  {
    if Kept(entries, accept) != [] {
      KeptSpec(entries, accept, Kept(entries, accept)[0]);
    }
  }

  /**
   * The scan loop of both programs: clear the list, then append the record of every entry
   * `accept` takes, in walk order.
   */
  method Collect<T, U>(entries: seq<T>, accept: T -> Option<U>) returns (kept: seq<U>)
    ensures kept == Kept(entries, accept)
  {
    kept := [];
    for i := 0 to |entries|
      invariant kept == Kept(entries[..i], accept)
    {
      KeptStep(entries, accept, i);
      match accept(entries[i]) {
        case Some(r) => kept := kept + [r];
        case None =>
      }
    }
    assert entries[..|entries|] == entries;
  }

  /** The app ids of the scanned screenshots, in scan order. */
  function AppIds<K>(files: seq<PngFile<K>>): (ids: seq<K>)
    ensures |ids| == |files|
    ensures forall i | 0 <= i < |files| :: ids[i] == files[i].appId
  {
    seq(|files|, i requires 0 <= i < |files| => files[i].appId)
  }
}
