/**
 * The directory layout of a Squad game server and the cleaner's safety filter: which
 * entries of `SquadGame/Plugins/Mods/` count as installed mods, and what is left of the
 * filesystem once all of them are deleted.
 */
module Layout {
  import opened Paths
  import opened FileSystem

  /** The Steam application id of the Squad dedicated server's workshop. */
  const AppId: string := "393380"

  /** `<game>/SquadGame/Plugins/Mods/`: where the server reads mods from. */
  function ModsDir(game: Path): (d: Path)
    ensures StrictlyBelow(d, game)
  {
    Join(game, ["SquadGame", "Plugins", "Mods"])
  }

  /** `<game>/steamapps/workshop/content/393380/<mod>`: where steamcmd downloads a mod to. */
  function StagingPath(game: Path, modId: string): (p: Path)
    ensures p.absolute == game.absolute && |p.parts| == |game.parts| + 5
  {
    Join(game, ["steamapps", "workshop", "content", AppId, modId])
  }

  /** `<game>/SquadGame/Plugins/Mods/<mod>`: where a mod is installed. */
  function TargetPath(game: Path, modId: string): (p: Path)
    ensures p.absolute == game.absolute && |p.parts| == |game.parts| + 4
  {
    Join(ModsDir(game), [modId])
  }

  /**
   * A download directory lies below the game directory and an install directory is an entry
   * of the mods directory, each named after its mod; the download directory and the install directory of any two mods
   * never overlap.
   */
  lemma StagingTargetApart(game: Path, a: string, b: string)
    ensures StrictlyBelow(StagingPath(game, a), game) && IsChild(TargetPath(game, b), ModsDir(game))
    ensures Name(StagingPath(game, a)) == a && Name(TargetPath(game, b)) == b
    ensures !Within(StagingPath(game, a), TargetPath(game, b))
    ensures !Within(TargetPath(game, b), StagingPath(game, a))
  {
    var i := |game.parts|;
    assert StagingPath(game, a).parts[i] == "steamapps";
    assert TargetPath(game, b).parts[i] == "SquadGame";
    assert "steamapps"[0] != "SquadGame"[0];
  }

  /** Two mods share a download directory, or an install directory, only if they are one mod. */
  lemma PathsDistinct(game: Path, a: string, b: string)
    requires a != b
    ensures !Within(StagingPath(game, a), StagingPath(game, b))
    ensures !Within(TargetPath(game, a), TargetPath(game, b))
  {
    var i := |game.parts|;
    assert StagingPath(game, a).parts[i + 4] == a && StagingPath(game, b).parts[i + 4] == b;
    assert TargetPath(game, a).parts[i + 3] == a && TargetPath(game, b).parts[i + 3] == b;
  }

  /**
   * The cleaner's filter: c is a directory, its path is absolute, its name is all digits,
   * it is not a symbolic link and it is not a mount point.
   */
  predicate IsModDir(fs: FS, c: Path)
    ensures IsModDir(fs, c) ==> c in fs && |c.parts| > 0
  {
    && c in fs
    && fs[c].node.Dir?
    && c.absolute
    && IsDigits(Name(c))
    && !fs[c].isSymlink
    && !fs[c].isMount
  }

  /** The entries of dir, as `dir.iterdir()` lists them. */
  function Children(fs: FS, dir: Path): set<Path>
  {
    set c | c in fs && IsChild(c, dir)
  }

  /** The entries of dir that pass the filter. */
  function Candidates(fs: FS, dir: Path): set<Path>
  {
    set c | c in fs && IsChild(c, dir) && IsModDir(fs, c)
  }

  /** q lies in the tree of an entry of dir that is in `chosen` and passes the filter. */
  predicate Doomed(fs: FS, dir: Path, chosen: set<Path>, q: Path)
  {
    StrictlyBelow(q, dir) && ChildToward(dir, q) in chosen && IsModDir(fs, ChildToward(dir, q))
  }

  /** fs once the filtered entries of dir among `chosen` are deleted with their trees. */
  function ClearedAmong(fs: FS, dir: Path, chosen: set<Path>): FS
  {
    map q | q in fs && !Doomed(fs, dir, chosen, q) :: fs[q]
  }

  /** fs once every entry of dir that passes the filter is deleted with its tree. */
  function Cleaned(fs: FS, dir: Path): (r: FS)
    ensures forall q :: q in r ==> q in fs && r[q] == fs[q]
  {
    ClearedAmong(fs, dir, Children(fs, dir))
  }

  // ---------------------------------------------------------------------------------------
  // Properties of the filter and of cleaning

  /** The filter on the cases the cleaner is meant to tell apart. */
  lemma FilterCases(dir: Path)
    requires dir.absolute
    ensures var c := Join(dir, ["42"]);
      && IsModDir(map[c := Entry(Dir, false, false)], c)
      && !IsModDir(map[c := Entry(Dir, true, false)], c)
      && !IsModDir(map[c := Entry(Dir, false, true)], c)
      && !IsModDir(map[c := Entry(File([]), false, false)], c)
    ensures var c := Join(dir, ["abc"]); !IsModDir(map[c := Entry(Dir, false, false)], c)
    ensures var c := Join(dir, ["007"]); IsModDir(map[c := Entry(Dir, false, false)], c)
    ensures var c := Join(dir, [""]); !IsModDir(map[c := Entry(Dir, false, false)], c)
    ensures var c := Join(Path(false, dir.parts), ["42"]);
      !IsModDir(map[c := Entry(Dir, false, false)], c)
  {
    assert Name(Join(dir, ["42"])) == "42";
    assert Name(Join(dir, ["abc"])) == "abc" && !('0' <= "abc"[0] <= '9');
    assert Name(Join(dir, ["007"])) == "007";
    assert Name(Join(dir, [""])) == "";
  }

  /**
   * Cleaning deletes exactly the trees rooted at the entries that pass the filter:
   * a path survives if and only if it lies below none of them, and a survivor is unchanged.
   */
  lemma {:induction false} CleanedSpec(fs: FS, dir: Path)
    ensures forall q :: q in Cleaned(fs, dir) <==>
      q in fs && forall c :: c in Candidates(fs, dir) ==> !Within(q, c)
    ensures forall q :: q in Cleaned(fs, dir) ==> Cleaned(fs, dir)[q] == fs[q]
  {
    var r := Cleaned(fs, dir);
    forall q | q in fs
      ensures q in r <==> forall c :: c in Candidates(fs, dir) ==> !Within(q, c)
    {
      forall c | c in Candidates(fs, dir)
        ensures Within(q, c) <==> StrictlyBelow(q, dir) && ChildToward(dir, q) == c
      {
        WithinChild(q, c, dir);
      }
      if StrictlyBelow(q, dir) && ChildToward(dir, q) in fs && IsModDir(fs, ChildToward(dir, q)) {
        assert ChildToward(dir, q) in Candidates(fs, dir);
      }
    }
  }

  /** Of the entries of dir, cleaning deletes those that pass the filter and keeps the rest. */
  lemma EntrySelected(fs: FS, dir: Path, c: Path)
    requires c in Children(fs, dir)
    ensures c in Cleaned(fs, dir) <==> !IsModDir(fs, c)
    ensures c in Cleaned(fs, dir) ==> Cleaned(fs, dir)[c] == fs[c]
  {
    assert ChildToward(dir, c) == c;
  }

  /** Cleaning never touches anything outside dir, nor dir itself. */
  lemma CleanedOutside(fs: FS, dir: Path, q: Path)
    requires !StrictlyBelow(q, dir)
    ensures q in Cleaned(fs, dir) <==> q in fs
  {
  }

  /** A server directory given by a relative path has no entries that pass the filter. */
  lemma RelativeDirKeepsAll(fs: FS, dir: Path)
    requires !dir.absolute
    ensures Candidates(fs, dir) == {}
    ensures Cleaned(fs, dir) == fs
  {
  }

  /** Once cleaned, no entry passes the filter any more, so cleaning again changes nothing. */
  lemma {:induction false} CleanedIdempotent(fs: FS, dir: Path)
    ensures Candidates(Cleaned(fs, dir), dir) == {}
    ensures Cleaned(Cleaned(fs, dir), dir) == Cleaned(fs, dir)
  {
    var r := Cleaned(fs, dir);
    forall c | c in r && IsChild(c, dir)
      ensures !IsModDir(r, c)
    {
      EntrySelected(fs, dir, c);
    }
    forall q | q in r
      ensures !(StrictlyBelow(q, dir) && IsModDir(r, ChildToward(dir, q)))
    {
      if StrictlyBelow(q, dir) {
        var c := ChildToward(dir, q);
        if c in r {
          EntrySelected(fs, dir, c);
        }
      }
    }
    assert Cleaned(r, dir) == r;
  }

  /**
   * One pass of the cleaner's loop over the entries of dir, taken in any order: entry c is
   * still as it was, so the filter sees it as before, and deleting it (when it passes)
   * extends the cleaning by c.
   */
  lemma ClearNext(fs: FS, dir: Path, done: set<Path>, c: Path)
    requires c in Children(fs, dir) && c !in done
    ensures c in ClearedAmong(fs, dir, done) && ClearedAmong(fs, dir, done)[c] == fs[c]
    ensures IsModDir(ClearedAmong(fs, dir, done), c) <==> IsModDir(fs, c)
    ensures IsModDir(fs, c) ==>
      RemovedTree(ClearedAmong(fs, dir, done), c) == ClearedAmong(fs, dir, done + {c})
    ensures !IsModDir(fs, c) ==> ClearedAmong(fs, dir, done + {c}) == ClearedAmong(fs, dir, done)
  {
    assert ChildToward(dir, c) == c;
    forall q
      ensures Within(q, c) <==> StrictlyBelow(q, dir) && ChildToward(dir, q) == c
    {
      WithinChild(q, c, dir);
    }
  }
}
