/** An abstract directory tree: what `os.listdir`, `os.path.isdir`,
    `shutil.copytree` and `shutil.rmtree` see and do. */
module Tree {
  import opened Results
  import opened Seqs

  newtype byte = x: int | 0 <= x < 256

  /** A filesystem entry: a file with its bytes, or a directory with its
      listing. */
  datatype Entry = File(content: seq<byte>) | Dir(children: Listing)

  /** One entry of a directory, under its name. */
  datatype Named = Named(name: string, entry: Entry)

  /** The children of a directory in `os.listdir` order. */
  type Listing = seq<Named>

  /** The errors the script can raise on the paths modelled here. */
  datatype Error =
    | FileExists(name: string)      // copytree onto an existing destination
    | NotADirectory(name: string)   // listdir of a file
    | FileNotFound                  // listdir of a missing backup directory
    | EmptyMax                      // max() of no candidates
    | NoSecondSegment(name: string) // name.split('_')[1] out of range

  /** A run of a loop that may stop at an uncaught exception: the directory
      as the loop left it, and the error if it stopped early. */
  datatype Run = Completed(dir: Listing) | Raised(dir: Listing, error: Error)

  /** No two entries of a listing share a name. */
  predicate DistinctNames(ls: Listing)
  {
    forall i, j :: 0 <= i < j < |ls| ==> ls[i].name != ls[j].name
  }

  /** Every directory of the tree, at every depth, has distinct names. */
  predicate WellFormed(e: Entry)
    decreases e
  {
    match e
    case File(_) => true
    case Dir(cs) => DistinctNames(cs) && forall i :: 0 <= i < |cs| ==> WellFormed(cs[i].entry)
  }

  predicate HasName(ls: Listing, n: string)
  {
    exists i :: 0 <= i < |ls| && ls[i].name == n
  }

  /** `shutil.copytree(src, dir/name)` where `src` holds `e`. The copy refuses
      to merge into an existing destination; otherwise it adds one entry
      holding an identical subtree and leaves every other entry alone. */
  function CopyTree(dir: Listing, name: string, e: Entry): (r: Result<Listing, Error>)
    ensures r.Failure? <==> HasName(dir, name)
    ensures r.Failure? ==> r.error == FileExists(name)
    ensures r.Success? ==> |r.value| == |dir| + 1 && r.value[..|dir|] == dir && r.value[|dir|] == Named(name, e)
    ensures r.Success? ==> forall n :: HasName(r.value, n) <==> HasName(dir, n) || n == name
    ensures r.Success? && DistinctNames(dir) ==> DistinctNames(r.value)
    ensures r.Success? && WellFormed(Dir(dir)) && WellFormed(e) ==> WellFormed(Dir(r.value))
  {
    if HasName(dir, name) then Failure(FileExists(name))
    else
      var d := dir + [Named(name, e)];
      assert forall i :: 0 <= i < |dir| ==> d[i] == dir[i];
      Success(d)
  }

  /** Keeping only some entries of a listing keeps the names distinct and the
      subtrees well formed. */
  lemma FilterWellFormed(p: Named -> bool, ls: Listing)
    ensures DistinctNames(ls) ==> DistinctNames(Filter(p, ls))
    ensures WellFormed(Dir(ls)) ==> WellFormed(Dir(Filter(p, ls)))
  {
    if DistinctNames(ls) {
      FilterDistinct(p, ls);
    }
    var r := Filter(p, ls);
    assert forall k :: 0 <= k < |r| ==> r[k] in ls;
  }

  lemma {:induction false} FilterDistinct(p: Named -> bool, ls: Listing)
    requires DistinctNames(ls)
    ensures DistinctNames(Filter(p, ls))
    decreases |ls|
  {
    if |ls| > 0 {
      var tail := ls[1..];
      assert DistinctNames(tail);
      FilterDistinct(p, tail);
      var rest := Filter(p, tail);
      if p(ls[0]) {
        forall k | 0 <= k < |rest|
          ensures rest[k].name != ls[0].name
        {
          var j :| 0 <= j < |tail| && tail[j] == rest[k];
          assert ls[j + 1] == rest[k];
        }
        ConsDistinct(ls[0], rest);
      }
    }
  }

  /** A new first entry whose name none of the others has keeps names distinct. */
  lemma ConsDistinct(c: Named, ls: Listing)
    requires DistinctNames(ls)
    requires forall k :: 0 <= k < |ls| ==> ls[k].name != c.name
    ensures DistinctNames([c] + ls)
  {
    var r := [c] + ls;
    forall i, j | 0 <= i < j < |r|
      ensures r[i].name != r[j].name
    {
      assert r[j] == ls[j - 1];
      if i > 0 {
        assert r[i] == ls[i - 1];
      }
    }
  }
}
