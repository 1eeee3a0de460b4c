/**
 * An abstract filesystem: a finite map from paths to entries, with the effects of
 * `shutil.rmtree(path, ignore_errors=True)`, `shutil.copytree(src, dst)` and of one
 * steamcmd run on its download directory, each as a function from the old map to the new.
 */
module FileSystem {
  import opened Paths

  datatype Option<T> = None | Some(value: T)

  /** What a path holds. A path below a symbolic link is an entry of its own, not kept in step with the link's target. */
  datatype Node = Dir | File(data: seq<int>)

  /** One filesystem entry: `is_dir()` is `node.Dir?`, plus `is_symlink()` and `is_mount()`. */
  datatype Entry = Entry(node: Node, isSymlink: bool, isMount: bool)

  type FS = map<Path, Entry>

  /** The contents of a directory tree, keyed by the segments below its root ([] is the root). */
  type Tree = map<seq<string>, Node>

  /** The errors the modelled operations raise. */
  datatype Error =
    | SourceMissing       // copytree: FileNotFoundError on the source
    | SourceNotDirectory  // copytree: NotADirectoryError on the source
    | DestinationExists   // copytree: FileExistsError on the destination
    | ListingMissing      // iterdir: FileNotFoundError
    | ListingNotDirectory // iterdir: NotADirectoryError

  datatype Outcome = Pass | Fail(error: Error)

  datatype Result<T> = Ok(value: T) | Err(error: Error)

  /** p is a directory that is not a symbolic link: the only kind of root rmtree deletes. */
  predicate IsRealDir(fs: FS, p: Path)
  {
    p in fs && fs[p].node.Dir? && !fs[p].isSymlink
  }

  /** Nothing exists at or below p. */
  predicate Vacant(fs: FS, p: Path)
  {
    forall q :: q in fs ==> !Within(q, p)
  }

  /**
   * rmtree can delete p itself as well as everything below it: p is a real directory and
   * not a mount point (the root of a mount cannot be removed, only emptied).
   */
  predicate Deletable(fs: FS, p: Path)
  {
    IsRealDir(fs, p) && !fs[p].isMount
  }

  /** After rmtree(p), nothing is left at or below p exactly when this holds. */
  predicate Removable(fs: FS, p: Path)
  {
    Deletable(fs, p) || Vacant(fs, p)
  }

  /** fs with p and everything below it deleted. */
  function Without(fs: FS, p: Path): (r: FS)
    ensures Vacant(r, p)
  {
    map q | q in fs && !Within(q, p) :: fs[q]
  }

  /**
   * `shutil.rmtree(p, ignore_errors=True)`: a directory that is not a symbolic link is
   * deleted with everything below it; a missing path, a plain file or a symbolic link make
   * rmtree fail before it deletes anything, and the root of a mount is emptied but the final
   * rmdir on it fails; every error is swallowed.
   */
  function RemovedTree(fs: FS, p: Path): (r: FS)
    ensures forall q :: q in r ==> q in fs && r[q] == fs[q]
  {
    if !IsRealDir(fs, p) then fs
    else if fs[p].isMount then Without(fs, p)[p := fs[p]]
    else Without(fs, p)
  }

  /** The contents of the tree rooted at p. */
  function Subtree(fs: FS, p: Path): (t: Tree)
    ensures [] in t <==> p in fs
    ensures p in fs ==> t[[]] == fs[p].node
  {
    var suffixes := set q | q in fs && Within(q, p) :: Suffix(q, p);
    assert Join(p, []) == p;
    assert p in fs ==> Suffix(p, p) == [] && Suffix(p, p) in suffixes;
    map s | s in suffixes :: fs[Join(p, s)].node
  }

  /** The entries that a freshly written tree t at p consists of: no links, no mount points. */
  function Placed(p: Path, t: Tree): (r: FS)
    ensures forall s :: s in t ==> Join(p, s) in r
  {
    var paths := set s | s in t :: Join(p, s);
    map q | q in paths :: Entry(t[Suffix(q, p)], false, false)
  }

  /** One steamcmd run on its download directory p: it leaves p alone, or leaves tree t there. */
  function Staged(fs: FS, p: Path, effect: Option<Tree>): (r: FS)
    ensures effect.None? ==> r == fs
    ensures effect.Some? ==> forall s :: s in effect.value ==> Join(p, s) in r
  {
    match effect
    case None => fs
    case Some(t) => Without(fs, p) + Placed(p, t)
  }

  /**
   * `shutil.copytree(src, dst)` with its defaults: the source is listed first (missing, or
   * not a directory, is an error), then dst is created (it must not exist), then the whole
   * tree is copied; symbolic links are followed, so the copy holds plain entries only.
   */
  function CopiedTree(fs: FS, src: Path, dst: Path): (r: Result<FS>)
    ensures r.Err? <==> !(src in fs && fs[src].node.Dir? && dst !in fs)
    ensures r.Err? ==> r.error == (if src !in fs then SourceMissing
                                   else if !fs[src].node.Dir? then SourceNotDirectory
                                   else DestinationExists)
  {
    if src !in fs then Err(SourceMissing)
    else if !fs[src].node.Dir? then Err(SourceNotDirectory)
    else if dst in fs then Err(DestinationExists)
    else Ok(fs + Placed(dst, Subtree(fs, src)))
  }

  /** The last run that left something decides what a sequence of runs leaves behind. */
  function Later(first: Option<Tree>, second: Option<Tree>): Option<Tree>
  {
    if second.Some? then second else first
  }

  lemma JoinInjective(p: Path)
    ensures forall s1, s2 :: Join(p, s1) == Join(p, s2) ==> s1 == s2
  {
    forall s1, s2 | Join(p, s1) == Join(p, s2)
      ensures s1 == s2
    {
      assert s1 == Suffix(Join(p, s1), p);
    }
  }

  // ---------------------------------------------------------------------------------------
  // Properties of the operations

  /**
   * rmtree never touches anything outside p, and it clears p completely exactly when p is
   * a real directory or already vacant.
   */
  lemma RemovedTreeSpec(fs: FS, p: Path)
    ensures Vacant(RemovedTree(fs, p), p) <==> Removable(fs, p)
    ensures Deletable(fs, p) ==> p !in RemovedTree(fs, p)
    ensures IsRealDir(fs, p) && fs[p].isMount ==>
      p in RemovedTree(fs, p) && RemovedTree(fs, p)[p] == fs[p] &&
      forall q :: StrictlyBelow(q, p) ==> q !in RemovedTree(fs, p)
    ensures forall q :: !Within(q, p) ==>
      (q in RemovedTree(fs, p) <==> q in fs) && (q in fs ==> RemovedTree(fs, p)[q] == fs[q])
  {
    if IsRealDir(fs, p) && fs[p].isMount {
      var r := RemovedTree(fs, p);
      assert p in r && Within(p, p);
      forall q | StrictlyBelow(q, p)
        ensures q !in r
      {
        assert q != p;
      }
    }
  }

  /** A run of the download tool changes nothing outside its download directory. */
  lemma StagedFrame(fs: FS, p: Path, effect: Option<Tree>, q: Path)
    requires !Within(q, p)
    ensures q in Staged(fs, p, effect) <==> q in fs
    ensures q in fs ==> Staged(fs, p, effect)[q] == fs[q]
  {
    if effect.Some? {
      assert q !in Placed(p, effect.value);
    }
  }

  /** A tree written into a vacant place is exactly what is found there afterwards. */
  lemma {:induction false} SubtreeOfPlaced(fs: FS, p: Path, t: Tree)
    requires Vacant(fs, p)
    ensures Subtree(fs + Placed(p, t), p) == t
  {
    var r := fs + Placed(p, t);
    var u := Subtree(r, p);
    forall s | s in t
      ensures s in u && u[s] == t[s]
    {
      var q := Join(p, s);
      assert q in Placed(p, t) && q !in fs;
      assert Suffix(q, p) == s;
    }
    forall s | s in u
      ensures s in t
    {
      var q :| q in r && Within(q, p) && Suffix(q, p) == s;
      assert q in Placed(p, t);
      var s' :| s' in t && Join(p, s') == q;
      JoinInjective(p);
    }
  }

  /** Whatever the download directory held, a run that leaves t leaves exactly t there. */
  lemma SubtreeOfStaged(fs: FS, p: Path, t: Tree)
    ensures Subtree(Staged(fs, p, Some(t)), p) == t
  {
    SubtreeOfPlaced(Without(fs, p), p, t);
  }

  /** Two runs in a row leave what the later of them left. */
  lemma {:induction false} StagedTwice(fs: FS, p: Path, e1: Option<Tree>, e2: Option<Tree>)
    ensures Staged(Staged(fs, p, e1), p, e2) == Staged(fs, p, Later(e1, e2))
  {
    if e1.Some? && e2.Some? {
      WithoutPlaced(Without(fs, p), p, e1.value);
      assert Without(Without(fs, p), p) == Without(fs, p);
    }
  }

  /** Clearing p again after writing a tree at p clears what was written. */
  lemma WithoutPlaced(fs: FS, p: Path, t: Tree)
    ensures Without(fs + Placed(p, t), p) == Without(fs, p)
  {
    forall q | q in Placed(p, t)
      ensures Within(q, p)
    {
      var s :| s in t && Join(p, s) == q;
    }
  }

  /** Changing one tree leaves the contents of every tree beside it as they were. */
  lemma SubtreeUnchanged(fs: FS, fs': FS, p: Path, a: Path)
    requires forall q :: !Within(q, p) ==> (q in fs' <==> q in fs) && (q in fs ==> fs'[q] == fs[q])
    requires !Within(a, p) && !Within(p, a)
    ensures Subtree(fs', a) == Subtree(fs, a)
  {
    forall q | Within(q, a)
      ensures !Within(q, p)
    {
      if Within(q, p) {
        WithinComparable(q, a, p);
      }
    }
  }

  /**
   * A copy into a vacant destination reproduces the source tree there, and changes
   * nothing outside the destination.
   */
  lemma CopiedTreeSpec(fs: FS, src: Path, dst: Path)
    requires src in fs && fs[src].node.Dir? && Vacant(fs, dst)
    ensures CopiedTree(fs, src, dst).Ok?
    ensures Subtree(CopiedTree(fs, src, dst).value, dst) == Subtree(fs, src)
    ensures forall q :: !Within(q, dst) ==>
      (q in CopiedTree(fs, src, dst).value <==> q in fs) &&
      (q in fs ==> CopiedTree(fs, src, dst).value[q] == fs[q])
  {
    SubtreeOfPlaced(fs, dst, Subtree(fs, src));
  }

  /**
   * rmtree(dst) followed by copytree(src, dst), for trees side by side: the copy fails on
   * a missing source, then on a source that is not a directory, then on a destination that
   * rmtree could not remove (a file, a symbolic link, a mount point); otherwise it succeeds.
   */
  lemma ReplaceTree(fs: FS, src: Path, dst: Path)
    requires !Within(src, dst) && !Within(dst, src)
    ensures var r := CopiedTree(RemovedTree(fs, dst), src, dst);
      && (r.Err? <==> !(src in fs && fs[src].node.Dir? && !(dst in fs && !Deletable(fs, dst))))
      && (r.Err? ==> r.error == (if src !in fs then SourceMissing
                                else if !fs[src].node.Dir? then SourceNotDirectory
                                else DestinationExists))
  {
    RemovedTreeSpec(fs, dst);
  }
}
