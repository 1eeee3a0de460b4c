/**
 * The downloader as the script runs it: a host whose filesystem the steps change in place,
 * whose log they append to, and on which they spawn steamcmd. Each method is proved to do
 * exactly what the step function of the same name in Workflow describes.
 */
module ModDownloader {
  import opened Paths
  import opened FileSystem
  import opened Layout
  import opened Workflow

  /** The log lines announcing the removal of each path of ps, in order. */
  function Removals(ps: seq<Path>): (r: seq<Event>)
    ensures |r| == |ps| && forall i :: 0 <= i < |ps| ==> r[i] == Remove(ps[i])
  {
    if ps == [] then [] else [Remove(ps[0])] + Removals(ps[1..])
  }

  /** No path occurs twice in ps. */
  predicate Distinct(ps: seq<Path>)
  {
    forall i, j :: 0 <= i < j < |ps| ==> ps[i] != ps[j]
  }

  /** What `Path.iterdir()` on dir raises, if anything. */
  function ListingOutcome(fs: FS, dir: Path): (r: Outcome)
    ensures r.Pass? <==> dir in fs && fs[dir].node.Dir?
  {
    if dir !in fs then Fail(ListingMissing)
    else if !fs[dir].node.Dir? then Fail(ListingNotDirectory)
    else Pass
  }

  class Host {
    var fs: FS
    var log: seq<Event>
    var spawned: seq<seq<Arg>>

    /** What the host has done so far. */
    function State(): Run
      reads this
    {
      Run(fs, log, spawned)
    }

    /** A host with the given files, before anything is announced or spawned. */
    constructor(fs0: FS)
      ensures State() == Run(fs0, [], [])
    {
      fs := fs0;
      log := [];
      spawned := [];
    }

    /** `_rmtree(path, dry)`. */
    method RemoveTree(p: Path, dry: bool)
      modifies this
      ensures State() == RemoveStep(old(State()), p, dry)
    {
      log := log + [Remove(p)];
      if !dry {
        fs := RemovedTree(fs, p);
      }
    }

    /** `_copytree(path_from, path_to, dry)`; a raised error is the Fail outcome. */
    method CopyTree(src: Path, dst: Path, dry: bool) returns (r: Outcome)
      modifies this
      ensures (State(), r) == CopyStep(old(State()), src, dst, dry)
    {
      log := log + [Copy(src, dst)];
      r := Pass;
      if !dry {
        var c := CopiedTree(fs, src, dst);
        match c
        case Ok(fs') => fs := fs';
        case Err(e) => r := Fail(e);
      }
    }

    /** `run_downloading(steamcmd_path, gamedir_path, mod_id, dry)`. */
    method RunDownloading(steam: Steamcmd, steamcmd: Path, game: Path, modId: string, dry: bool)
      modifies this
      ensures State() == DownloadStep(old(State()), steam, steamcmd, game, modId, dry)
    {
      log := log + [DownloadBegin(modId)];
      if !dry {
        fs := Staged(fs, StagingPath(game, modId), steam(|spawned|));
        spawned := spawned + [SteamcmdArgv(steamcmd, game, modId)];
      }
    }

    /**
     * `clear_mods(gamedir_path, dry)`: announce, list the mods directory (which fails when
     * it is missing or not a directory), and remove every entry that passes the filter, in
     * whatever order the listing yields them. `removed` is that order.
     */
    method ClearMods(game: Path, dry: bool) returns (r: Outcome, ghost removed: seq<Path>)
      modifies this
      ensures r == ListingOutcome(old(fs), ModsDir(game))
      ensures fs == if dry || r.Fail? then old(fs) else Cleaned(old(fs), ModsDir(game))
      ensures log == old(log) + [ClearBegin] + Removals(removed)
      ensures spawned == old(spawned)
      ensures Distinct(removed)
      ensures forall c :: c in removed <==> r.Pass? && c in Candidates(old(fs), ModsDir(game))
    {
      var dir := ModsDir(game);
      log := log + [ClearBegin];
      removed := [];
      r := ListingOutcome(fs, dir);
      if r.Fail? {
        return;
      }
      ghost var fs0 := fs;
      ghost var log0 := log;
      var todo := Children(fs, dir);
      while todo != {}
        invariant todo <= Children(fs0, dir)
        invariant fs == if dry then fs0 else ClearedAmong(fs0, dir, Children(fs0, dir) - todo)
        invariant log == log0 + Removals(removed)
        invariant spawned == old(spawned)
        invariant Distinct(removed)
        invariant forall c :: c in removed <==> c in Candidates(fs0, dir) && c !in todo
        decreases todo
      {
        var c :| c in todo;
        ghost var done := Children(fs0, dir) - todo;
        ClearNext(fs0, dir, done, c);
        if IsModDir(fs, c) {
          RemoveTree(c, dry);
          assert Removals(removed + [c]) == Removals(removed) + [Remove(c)];
          removed := removed + [c];
        }
        todo := todo - {c};
        assert Children(fs0, dir) - todo == done + {c};
      }
      assert Children(fs0, dir) - todo == Children(fs0, dir);
    }

    /**
     * `install_mods(mods, steamcmd_path, gamedir_path, number_of_downloads, dry)`: for each
     * mod in turn, remove its download directory, download it `downloads` times, remove its
     * install directory and copy the download there; a failed copy ends the whole run.
     */
    method InstallMods(mods: seq<int>, steam: Steamcmd, cfg: Config) returns (r: Outcome)
      modifies this
      ensures (State(), r) == InstallAll(old(State()), steam, cfg, mods)
    {
      ghost var s0 := State();
      r := Pass;
      var i := 0;
      while i < |mods|
        invariant 0 <= i <= |mods|
        invariant InstallAll(State(), steam, cfg, mods[i..]) == InstallAll(s0, steam, cfg, mods)
        invariant r == Pass
      {
        var mod := mods[i];
        var id := DecimalString(mod);
        var staging := StagingPath(cfg.game, id);
        var target := TargetPath(cfg.game, id);
        ghost var before := State();
        RemoveTree(staging, cfg.dry);
        ghost var s1 := State();
        var attempt: nat := 0;
        while attempt < cfg.downloads
          invariant Attempts(State(), steam, cfg, mod, attempt) == Attempts(s1, steam, cfg, mod, 0)
          decreases cfg.downloads - attempt
        {
          log := log + [Attempt(attempt + 1, mod)];
          RunDownloading(steam, cfg.steamcmd, cfg.game, id, cfg.dry);
          attempt := attempt + 1;
        }
        RemoveTree(target, cfg.dry);
        ghost var s3 := State();
        r := CopyTree(staging, target, cfg.dry);
        InstallAllFirst(before, steam, cfg, mods[i..], s3, (State(), r));
        assert mods[i..][1..] == mods[i + 1..];
        if r.Fail? {
          return;
        }
        i := i + 1;
      }
    }
  }
}
