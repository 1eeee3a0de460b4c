/**
 * The reconciliation workflow as functions over a run's observable state: the filesystem,
 * the lines announced on the log, and the steamcmd processes spawned. Each function is one
 * step of the script; the lemmas state what a whole install does.
 */
module Workflow {
  import opened Paths
  import opened FileSystem
  import opened Layout

  /** One announced line of the log, without its formatting. */
  datatype Event =
    | Remove(path: Path)             // "Remove directory '<path>'"
    | Copy(from: Path, to: Path)     // "Copy '<from>' to '<to>'"
    | ClearBegin                     // "Clear mods in game"
    | Attempt(number: int, mod: int) // "attempt <number> - Mod number '<mod>' is being downloaded"
    | DownloadBegin(modId: string)   // "The beginning of downloading the mod <modId>"

  /** One word of a command line: literal text, or a path. */
  datatype Arg = Lit(text: string) | PathArg(path: Path)

  /** What a run has done so far. */
  datatype Run = Run(fs: FS, log: seq<Event>, spawned: seq<seq<Arg>>)

  /**
   * What steamcmd does, run after run: the k-th process spawned in a run (counting from 0)
   * leaves the download directory of its mod alone (None) or leaves tree t there (Some(t)).
   * Every behaviour of the real tool that keeps to that directory is one such function.
   */
  type Steamcmd = nat -> Option<Tree>

  /** The arguments of `install_mods` other than the mod list. */
  datatype Config = Config(steamcmd: Path, game: Path, downloads: int, dry: bool)

  /** The command line that downloads and validates one workshop item into the game root. */
  function SteamcmdArgv(steamcmd: Path, game: Path, modId: string): seq<Arg>
  {
    [PathArg(steamcmd), Lit("+login"), Lit("anonymous"), Lit("+force_install_dir"), PathArg(game),
     Lit("+workshop_download_item"), Lit(AppId), Lit(modId), Lit("validate"), Lit("+quit")]
  }

  /** How many passes `range(n)` makes from pass k on. */
  function Remaining(n: int, k: nat): nat
  {
    if n > k then n - k else 0
  }

  function Repeat<T>(x: T, count: nat): (r: seq<T>)
    ensures |r| == count && forall i :: 0 <= i < count ==> r[i] == x
  {
    seq(count, _ => x)
  }

  // ---------------------------------------------------------------------------------------
  // The steps

  /** `_rmtree(p, dry)`: announce, then delete unless dry. */
  function RemoveStep(s: Run, p: Path, dry: bool): (r: Run)
    ensures r.spawned == s.spawned && |r.log| == |s.log| + 1
    ensures dry ==> r.fs == s.fs
  {
    Run(if dry then s.fs else RemovedTree(s.fs, p), s.log + [Remove(p)], s.spawned)
  }

  /** `_copytree(src, dst, dry)`: announce, then copy unless dry; a failed copy changes nothing. */
  function CopyStep(s: Run, src: Path, dst: Path, dry: bool): (r: (Run, Outcome))
    ensures r.0.spawned == s.spawned
    ensures r.1.Fail? ==> r.0.fs == s.fs
    ensures dry ==> r.1.Pass? && r.0.fs == s.fs
  {
    var s' := s.(log := s.log + [Copy(src, dst)]);
    if dry then (s', Pass)
    else match CopiedTree(s.fs, src, dst)
      case Ok(fs') => (s'.(fs := fs'), Pass)
      case Err(e) => (s', Fail(e))
  }

  /** `run_downloading(steamcmd, game, modId, dry)`: announce, then run steamcmd unless dry. */
  function DownloadStep(s: Run, steam: Steamcmd, steamcmd: Path, game: Path, modId: string, dry: bool): (r: Run)
    ensures |r.spawned| == |s.spawned| + (if dry then 0 else 1)
    ensures dry ==> r.fs == s.fs
  {
    var s' := s.(log := s.log + [DownloadBegin(modId)]);
    if dry then s'
    else Run(Staged(s.fs, StagingPath(game, modId), steam(|s.spawned|)), s'.log,
             s.spawned + [SteamcmdArgv(steamcmd, game, modId)])
  }

  /** Passes k, k+1, ... of `for attempt in range(downloads)` for one mod. */
  function Attempts(s: Run, steam: Steamcmd, cfg: Config, mod: int, k: nat): (r: Run)
    ensures |r.spawned| == |s.spawned| + (if cfg.dry then 0 else Remaining(cfg.downloads, k))
    ensures cfg.dry ==> r.fs == s.fs
    decreases Remaining(cfg.downloads, k)
  {
    if k >= cfg.downloads then s
    else
      var s' := s.(log := s.log + [Attempt(k + 1, mod)]);
      Attempts(DownloadStep(s', steam, cfg.steamcmd, cfg.game, DecimalString(mod), cfg.dry),
               steam, cfg, mod, k + 1)
  }

  /** The body of `install_mods`' loop for one mod. */
  function InstallOne(s: Run, steam: Steamcmd, cfg: Config, mod: int): (r: (Run, Outcome))
    ensures cfg.dry ==> r.1.Pass? && r.0.fs == s.fs
  {
    var id := DecimalString(mod);
    var staging := StagingPath(cfg.game, id);
    var target := TargetPath(cfg.game, id);
    var s1 := RemoveStep(s, staging, cfg.dry);
    var s2 := Attempts(s1, steam, cfg, mod, 0);
    var s3 := RemoveStep(s2, target, cfg.dry);
    CopyStep(s3, staging, target, cfg.dry)
  }

  /** `install_mods(mods, ...)`: the mods in list order; the first failure ends the run. */
  function InstallAll(s: Run, steam: Steamcmd, cfg: Config, mods: seq<int>): (r: (Run, Outcome))
    ensures cfg.dry ==> r.1.Pass? && r.0.fs == s.fs
    decreases mods
  {
    if mods == [] then (s, Pass)
    else
      var one := InstallOne(s, steam, cfg, mods[0]);
      if one.1.Fail? then one else InstallAll(one.0, steam, cfg, mods[1..])
  }

  // ---------------------------------------------------------------------------------------
  // What the workflow promises

  /** What the log of the attempts for one mod announces: two lines per pass. */
  function AttemptLog(mod: int, k: nat, n: int): seq<Event>
    decreases Remaining(n, k)
  {
    if k >= n then [] else [Attempt(k + 1, mod), DownloadBegin(DecimalString(mod))] + AttemptLog(mod, k + 1, n)
  }

  /** The four steps for one mod, in order, as the log announces them. */
  function ModLog(cfg: Config, mod: int): seq<Event>
  {
    var id := DecimalString(mod);
    [Remove(StagingPath(cfg.game, id))] + AttemptLog(mod, 0, cfg.downloads)
      + [Remove(TargetPath(cfg.game, id)), Copy(StagingPath(cfg.game, id), TargetPath(cfg.game, id))]
  }

  /** The log of installing mods one after the other. */
  function PlanLog(cfg: Config, mods: seq<int>): seq<Event>
  {
    if mods == [] then [] else ModLog(cfg, mods[0]) + PlanLog(cfg, mods[1..])
  }

  /** The processes spawned by installing mods one after the other. */
  function PlanSpawns(cfg: Config, mods: seq<int>): seq<seq<Arg>>
  {
    if mods == [] || cfg.dry then []
    else Repeat(SteamcmdArgv(cfg.steamcmd, cfg.game, DecimalString(mods[0])), Remaining(cfg.downloads, 0))
         + PlanSpawns(cfg, mods[1..])
  }

  /** What a series of steamcmd runs, numbered from `first`, leaves behind: the last that left anything. */
  function LastLeft(steam: Steamcmd, first: nat, count: nat): Option<Tree>
    decreases count
  {
    if count == 0 then None else Later(steam(first), LastLeft(steam, first + 1, count - 1))
  }

  /** The contents of a mod's download directory when the install copies it. */
  function StagingAtCopy(s: Run, steam: Steamcmd, cfg: Config, mod: int): Tree
  {
    var staging := StagingPath(cfg.game, DecimalString(mod));
    Subtree(Staged(RemovedTree(s.fs, staging), staging, LastLeft(steam, |s.spawned|, Remaining(cfg.downloads, 0))),
            staging)
  }

  /** What installing one mod reports, given what the download directory holds at copy time. */
  function ExpectedOutcome(fs: FS, staged: Tree, target: Path): Outcome
  {
    if [] !in staged then Fail(SourceMissing)
    else if !staged[[]].Dir? then Fail(SourceNotDirectory)
    else if target in fs && !Deletable(fs, target) then Fail(DestinationExists)
    else Pass
  }

  /**
   * The attempt loop spawns steamcmd exactly once per pass whatever each run did (never
   * when dry), announces two lines per pass, and changes nothing but the mod's download
   * directory, which ends up as the last run that left anything there left it.
   */
  lemma {:induction false} AttemptsSpec(s: Run, steam: Steamcmd, cfg: Config, mod: int, k: nat)
    ensures Attempts(s, steam, cfg, mod, k) == Run(
      if cfg.dry then s.fs
      else Staged(s.fs, StagingPath(cfg.game, DecimalString(mod)),
                  LastLeft(steam, |s.spawned|, Remaining(cfg.downloads, k))),
      s.log + AttemptLog(mod, k, cfg.downloads),
      s.spawned + Repeat(SteamcmdArgv(cfg.steamcmd, cfg.game, DecimalString(mod)),
                         if cfg.dry then 0 else Remaining(cfg.downloads, k)))
    decreases Remaining(cfg.downloads, k)
  {
    var id := DecimalString(mod);
    var argv := SteamcmdArgv(cfg.steamcmd, cfg.game, id);
    if k >= cfg.downloads {
      assert AttemptLog(mod, k, cfg.downloads) == [] && Repeat(argv, 0) == [];
      assert s.log + [] == s.log && s.spawned + [] == s.spawned;
    } else {
      var s' := s.(log := s.log + [Attempt(k + 1, mod)]);
      var s1 := DownloadStep(s', steam, cfg.steamcmd, cfg.game, id, cfg.dry);
      assert Attempts(s, steam, cfg, mod, k) == Attempts(s1, steam, cfg, mod, k + 1);
      AttemptsSpec(s1, steam, cfg, mod, k + 1);
      AttemptsPass(s, steam, cfg, mod, k, s1);
    }
  }

  /** One pass of the attempt loop followed by the passes after it, as one effect. */
  lemma AttemptsPass(s: Run, steam: Steamcmd, cfg: Config, mod: int, k: nat, s1: Run)
    requires k < cfg.downloads
    requires s1 == DownloadStep(s.(log := s.log + [Attempt(k + 1, mod)]), steam, cfg.steamcmd, cfg.game,
                                DecimalString(mod), cfg.dry)
    ensures Run(
      if cfg.dry then s1.fs
      else Staged(s1.fs, StagingPath(cfg.game, DecimalString(mod)),
                  LastLeft(steam, |s1.spawned|, Remaining(cfg.downloads, k + 1))),
      s1.log + AttemptLog(mod, k + 1, cfg.downloads),
      s1.spawned + Repeat(SteamcmdArgv(cfg.steamcmd, cfg.game, DecimalString(mod)),
                          if cfg.dry then 0 else Remaining(cfg.downloads, k + 1)))
      == Run(
      if cfg.dry then s.fs
      else Staged(s.fs, StagingPath(cfg.game, DecimalString(mod)),
                  LastLeft(steam, |s.spawned|, Remaining(cfg.downloads, k))),
      s.log + AttemptLog(mod, k, cfg.downloads),
      s.spawned + Repeat(SteamcmdArgv(cfg.steamcmd, cfg.game, DecimalString(mod)),
                         if cfg.dry then 0 else Remaining(cfg.downloads, k)))
  {
    var id := DecimalString(mod);
    var argv := SteamcmdArgv(cfg.steamcmd, cfg.game, id);
    var staging := StagingPath(cfg.game, id);
    var n := cfg.downloads;
    var c := Remaining(n, k + 1);
    assert Remaining(n, k) == c + 1;
    var pass := [Attempt(k + 1, mod), DownloadBegin(id)];
    assert s1.log == s.log + pass;
    assert AttemptLog(mod, k, n) == pass + AttemptLog(mod, k + 1, n);
    Chain(s.log, pass, AttemptLog(mod, k + 1, n), s1.log, s1.log + AttemptLog(mod, k + 1, n));
    if cfg.dry {
      assert s1.fs == s.fs && s1.spawned == s.spawned;
    } else {
      assert s1.spawned == s.spawned + [argv];
      assert s1.fs == Staged(s.fs, staging, steam(|s.spawned|));
      StagedTwice(s.fs, staging, steam(|s.spawned|), LastLeft(steam, |s.spawned| + 1, c));
      assert LastLeft(steam, |s.spawned|, c + 1) == Later(steam(|s.spawned|), LastLeft(steam, |s.spawned| + 1, c));
      assert [argv] + Repeat(argv, c) == Repeat(argv, c + 1);
      Chain(s.spawned, [argv], Repeat(argv, c), s1.spawned, s1.spawned + Repeat(argv, c));
    }
  }

  /** The log of the attempts: 2n lines, "attempt i" then the download banner, i = k+1, k+2, ... */
  lemma {:induction false} AttemptLogShape(mod: int, k: nat, n: int)
    ensures |AttemptLog(mod, k, n)| == 2 * Remaining(n, k)
    ensures forall i :: 0 <= i < Remaining(n, k) ==>
      AttemptLog(mod, k, n)[2 * i] == Attempt(k + i + 1, mod) &&
      AttemptLog(mod, k, n)[2 * i + 1] == DownloadBegin(DecimalString(mod))
    decreases Remaining(n, k)
  {
    if k < n {
      AttemptLogShape(mod, k + 1, n);
      var rest := AttemptLog(mod, k + 1, n);
      forall i | 1 <= i < Remaining(n, k)
        ensures AttemptLog(mod, k, n)[2 * i] == Attempt(k + i + 1, mod)
        ensures AttemptLog(mod, k, n)[2 * i + 1] == DownloadBegin(DecimalString(mod))
      {
        assert AttemptLog(mod, k, n)[2 * i] == rest[2 * (i - 1)];
        assert AttemptLog(mod, k, n)[2 * i + 1] == rest[2 * (i - 1) + 1];
      }
    }
  }

  /**
   * One mod: the log announces its four steps in order, steamcmd is spawned for it exactly
   * `downloads` times (none if that is 0 or less, none when dry), and a dry run changes no file.
   */
  lemma InstallOneTrace(s: Run, steam: Steamcmd, cfg: Config, mod: int)
    ensures InstallOne(s, steam, cfg, mod).0.log == s.log + ModLog(cfg, mod)
    ensures InstallOne(s, steam, cfg, mod).0.spawned == s.spawned + PlanSpawns(cfg, [mod])
    ensures cfg.dry ==> InstallOne(s, steam, cfg, mod) == (Run(s.fs, s.log + ModLog(cfg, mod), s.spawned), Pass)
  {
    var id := DecimalString(mod);
    var staging := StagingPath(cfg.game, id);
    var target := TargetPath(cfg.game, id);
    var s1 := RemoveStep(s, staging, cfg.dry);
    var s2 := Attempts(s1, steam, cfg, mod, 0);
    AttemptsSpec(s1, steam, cfg, mod, 0);
    var s3 := RemoveStep(s2, target, cfg.dry);
    CopyStepTrace(s3, staging, target, cfg.dry);
    assert InstallOne(s, steam, cfg, mod) == CopyStep(s3, staging, target, cfg.dry);
    assert s3.log + [Copy(staging, target)] == s.log + ModLog(cfg, mod);
    assert [mod][1..] == [];
    if cfg.dry {
      assert s3.fs == s.fs && s3.spawned == s.spawned;
      assert s.spawned + PlanSpawns(cfg, [mod]) == s.spawned;
    }
  }

  /** The copy step announces the copy, spawns nothing, and when dry does nothing more. */
  lemma CopyStepTrace(s: Run, src: Path, dst: Path, dry: bool)
    ensures CopyStep(s, src, dst, dry).0.log == s.log + [Copy(src, dst)]
    ensures CopyStep(s, src, dst, dry).0.spawned == s.spawned
    ensures dry ==> CopyStep(s, src, dst, dry) == (Run(s.fs, s.log + [Copy(src, dst)], s.spawned), Pass)
  {
  }

  /**
   * One mod, not dry: the outcome is decided by what the download directory holds at copy
   * time and by whether the old install could be removed, in that order.
   */
  lemma InstallOneOutcome(s: Run, steam: Steamcmd, cfg: Config, mod: int)
    requires !cfg.dry
    ensures InstallOne(s, steam, cfg, mod).1 ==
      ExpectedOutcome(s.fs, StagingAtCopy(s, steam, cfg, mod), TargetPath(cfg.game, DecimalString(mod)))
  {
    var id := DecimalString(mod);
    var staging := StagingPath(cfg.game, id);
    var target := TargetPath(cfg.game, id);
    var s1 := RemoveStep(s, staging, cfg.dry);
    var s2 := Attempts(s1, steam, cfg, mod, 0);
    AttemptsSpec(s1, steam, cfg, mod, 0);
    assert s2.fs == Staged(s1.fs, staging, LastLeft(steam, |s.spawned|, Remaining(cfg.downloads, 0)));
    StagingTargetApart(cfg.game, id, id);
    StagingUntouchedAtTarget(s, steam, cfg, mod);
    ReplaceTree(s2.fs, staging, target);
  }

  /** Removing and downloading a mod's files leaves its install directory as it was. */
  lemma StagingUntouchedAtTarget(s: Run, steam: Steamcmd, cfg: Config, mod: int)
    requires !cfg.dry
    ensures var target := TargetPath(cfg.game, DecimalString(mod));
      var s2 := Attempts(RemoveStep(s, StagingPath(cfg.game, DecimalString(mod)), cfg.dry), steam, cfg, mod, 0);
      (target in s2.fs <==> target in s.fs) && (target in s.fs ==> s2.fs[target] == s.fs[target])
  {
    var id := DecimalString(mod);
    var staging := StagingPath(cfg.game, id);
    var target := TargetPath(cfg.game, id);
    var s1 := RemoveStep(s, staging, cfg.dry);
    AttemptsSpec(s1, steam, cfg, mod, 0);
    StagingTargetApart(cfg.game, id, id);
    RemovedTreeSpec(s.fs, staging);
    StagedFrame(s1.fs, staging, LastLeft(steam, |s.spawned|, Remaining(cfg.downloads, 0)), target);
  }

  /** LastLeft is the run that left something and after which no run left anything. */
  lemma {:induction false} LastLeftSpec(steam: Steamcmd, first: nat, count: nat)
    ensures LastLeft(steam, first, count).None? <==> forall i :: first <= i < first + count ==> steam(i).None?
    ensures LastLeft(steam, first, count).Some? ==>
      exists i :: first <= i < first + count && steam(i) == LastLeft(steam, first, count) &&
        forall j :: i < j < first + count ==> steam(j).None?
    decreases count
  {
    if count > 0 {
      LastLeftSpec(steam, first + 1, count - 1);
      var rest := LastLeft(steam, first + 1, count - 1);
      if rest.Some? {
        var i :| first + 1 <= i < first + count && steam(i) == rest &&
          forall j :: i < j < first + count ==> steam(j).None?;
        assert first <= i < first + count;
      } else if steam(first).Some? {
        assert forall j :: first < j < first + count ==> steam(j).None?;
      }
    }
  }

  /**
   * What the copy takes from the download directory: what the last run of steamcmd that
   * left anything left there; if none did, whatever the first removal could not delete,
   * which is nothing when that removal worked.
   */
  lemma StagingAtCopySpec(s: Run, steam: Steamcmd, cfg: Config, mod: int)
    ensures var staging := StagingPath(cfg.game, DecimalString(mod));
      var last := LastLeft(steam, |s.spawned|, Remaining(cfg.downloads, 0));
      && (last.Some? ==> StagingAtCopy(s, steam, cfg, mod) == last.value)
      && (last.None? && Removable(s.fs, staging) ==> StagingAtCopy(s, steam, cfg, mod) == map[])
  {
    var staging := StagingPath(cfg.game, DecimalString(mod));
    var last := LastLeft(steam, |s.spawned|, Remaining(cfg.downloads, 0));
    if last.Some? {
      SubtreeOfStaged(RemovedTree(s.fs, staging), staging, last.value);
    } else if Removable(s.fs, staging) {
      RemovedTreeSpec(s.fs, staging);
      var t := StagingAtCopy(s, steam, cfg, mod);
      assert forall k :: k !in t;
    }
  }

  /**
   * A successful install of one mod leaves the install directory holding exactly what the
   * download directory held at copy time, and leaves the download directory in place
   * (InstallOneFrame says that nothing outside those two directories changes).
   */
  lemma InstallOneInstalls(s: Run, steam: Steamcmd, cfg: Config, mod: int)
    requires !cfg.dry
    requires Removable(s.fs, TargetPath(cfg.game, DecimalString(mod)))
    requires InstallOne(s, steam, cfg, mod).1.Pass?
    ensures var fs' := InstallOne(s, steam, cfg, mod).0.fs;
      && Subtree(fs', TargetPath(cfg.game, DecimalString(mod))) == StagingAtCopy(s, steam, cfg, mod)
      && Subtree(fs', StagingPath(cfg.game, DecimalString(mod))) == StagingAtCopy(s, steam, cfg, mod)
  {
    var id := DecimalString(mod);
    var staging := StagingPath(cfg.game, id);
    var target := TargetPath(cfg.game, id);
    var s1 := RemoveStep(s, staging, cfg.dry);
    var s2 := Attempts(s1, steam, cfg, mod, 0);
    AttemptsSpec(s1, steam, cfg, mod, 0);
    StagingTargetApart(cfg.game, id, id);
    TargetVacantAfterRemoval(s, steam, cfg, mod);
    var fs3 := RemovedTree(s2.fs, target);
    RemovedTreeSpec(s2.fs, target);
    SubtreeUnchanged(s2.fs, fs3, target, staging);
    CopiedTreeSpec(fs3, staging, target);
    var fs' := CopiedTree(fs3, staging, target).value;
    SubtreeUnchanged(fs3, fs', target, staging);
  }

  /** When the old install is removable, it is gone once the second removal has run. */
  lemma TargetVacantAfterRemoval(s: Run, steam: Steamcmd, cfg: Config, mod: int)
    requires !cfg.dry
    requires Removable(s.fs, TargetPath(cfg.game, DecimalString(mod)))
    ensures var target := TargetPath(cfg.game, DecimalString(mod));
      var s2 := Attempts(RemoveStep(s, StagingPath(cfg.game, DecimalString(mod)), cfg.dry), steam, cfg, mod, 0);
      Vacant(RemovedTree(s2.fs, target), target)
  {
    var id := DecimalString(mod);
    var staging := StagingPath(cfg.game, id);
    var target := TargetPath(cfg.game, id);
    var s1 := RemoveStep(s, staging, cfg.dry);
    var s2 := Attempts(s1, steam, cfg, mod, 0);
    AttemptsSpec(s1, steam, cfg, mod, 0);
    StagingTargetApart(cfg.game, id, id);
    RemovedTreeSpec(s.fs, staging);
    var last := LastLeft(steam, |s.spawned|, Remaining(cfg.downloads, 0));
    forall q | Within(q, target)
      ensures !Within(q, staging)
    {
      if Within(q, staging) {
        WithinComparable(q, target, staging);
      }
      StagedFrame(s1.fs, staging, last, q);
    }
    if Deletable(s.fs, target) {
      StagedFrame(s1.fs, staging, last, target);
      assert Deletable(s2.fs, target);
    } else {
      assert Vacant(s2.fs, target);
    }
    RemovedTreeSpec(s2.fs, target);
  }

  /**
   * A failed install of one mod whose old install was removable leaves nothing at all in
   * the install directory: the copy is all or nothing.
   */
  lemma InstallOneFailsCleanly(s: Run, steam: Steamcmd, cfg: Config, mod: int)
    requires !cfg.dry
    requires Removable(s.fs, TargetPath(cfg.game, DecimalString(mod)))
    requires InstallOne(s, steam, cfg, mod).1.Fail?
    ensures Vacant(InstallOne(s, steam, cfg, mod).0.fs, TargetPath(cfg.game, DecimalString(mod)))
    ensures InstallOne(s, steam, cfg, mod).1.error in {SourceMissing, SourceNotDirectory}
  {
    TargetVacantAfterRemoval(s, steam, cfg, mod);
    InstallOneOutcome(s, steam, cfg, mod);
  }

  /** If no run of steamcmd for a mod leaves anything, its install fails for want of a source. */
  lemma NothingDownloadedFails(s: Run, steam: Steamcmd, cfg: Config, mod: int)
    requires !cfg.dry
    requires Removable(s.fs, StagingPath(cfg.game, DecimalString(mod)))
    requires forall i :: |s.spawned| <= i < |s.spawned| + Remaining(cfg.downloads, 0) ==> steam(i).None?
    ensures InstallOne(s, steam, cfg, mod).1 == Fail(SourceMissing)
  {
    LastLeftSpec(steam, |s.spawned|, Remaining(cfg.downloads, 0));
    StagingAtCopySpec(s, steam, cfg, mod);
    InstallOneOutcome(s, steam, cfg, mod);
  }

  /** A successful install of one mod leaves a plain directory, neither link nor mount, at its install path. */
  lemma InstallOneTargetEntry(s: Run, steam: Steamcmd, cfg: Config, mod: int)
    requires !cfg.dry
    ensures var (s', outcome) := InstallOne(s, steam, cfg, mod);
      var target := TargetPath(cfg.game, DecimalString(mod));
      outcome.Pass? ==> target in s'.fs && s'.fs[target] == Entry(Dir, false, false)
  {
    var id := DecimalString(mod);
    var staging := StagingPath(cfg.game, id);
    var target := TargetPath(cfg.game, id);
    var s1 := RemoveStep(s, staging, cfg.dry);
    var s2 := Attempts(s1, steam, cfg, mod, 0);
    var fs3 := RemovedTree(s2.fs, target);
    var c := CopiedTree(fs3, staging, target);
    if c.Ok? {
      var t := Subtree(fs3, staging);
      assert Join(target, []) == target && Suffix(target, target) == [];
      assert t[[]] == Dir;
    }
  }

  /**
   * The installer and the cleaner agree: the install directory of a mod passes the
   * cleaner's filter exactly when the mod id is not negative and the game path is absolute,
   * so those are the installs that a later cleaning removes.
   */
  lemma InstalledIsCleanable(s: Run, steam: Steamcmd, cfg: Config, mod: int)
    requires !cfg.dry
    ensures var (s', outcome) := InstallOne(s, steam, cfg, mod);
      outcome.Pass? ==>
        (TargetPath(cfg.game, DecimalString(mod)) in Candidates(s'.fs, ModsDir(cfg.game))
         <==> mod >= 0 && cfg.game.absolute)
  {
    InstallOneTargetEntry(s, steam, cfg, mod);
    var target := TargetPath(cfg.game, DecimalString(mod));
    assert IsChild(target, ModsDir(cfg.game));
    assert Name(target) == DecimalString(mod);
  }

  /**
   * An install directory that is a mount point cannot be replaced: rmtree only empties it,
   * so the copy collides with it unless it already failed for want of a usable source.
   */
  lemma MountedTargetCollides(s: Run, steam: Steamcmd, cfg: Config, mod: int)
    requires !cfg.dry
    requires TargetPath(cfg.game, DecimalString(mod)) in s.fs
    requires s.fs[TargetPath(cfg.game, DecimalString(mod))].isMount
    ensures InstallOne(s, steam, cfg, mod).1.Fail?
    ensures var staged := StagingAtCopy(s, steam, cfg, mod);
      [] in staged && staged[[]].Dir? ==> InstallOne(s, steam, cfg, mod).1 == Fail(DestinationExists)
  {
    InstallOneOutcome(s, steam, cfg, mod);
  }

  /** Installing one mod changes nothing outside its download and install directories. */
  lemma InstallOneFrame(s: Run, steam: Steamcmd, cfg: Config, mod: int, q: Path)
    requires !Within(q, StagingPath(cfg.game, DecimalString(mod)))
    requires !Within(q, TargetPath(cfg.game, DecimalString(mod)))
    ensures q in InstallOne(s, steam, cfg, mod).0.fs <==> q in s.fs
    ensures q in s.fs ==> InstallOne(s, steam, cfg, mod).0.fs[q] == s.fs[q]
  {
    var id := DecimalString(mod);
    var staging := StagingPath(cfg.game, id);
    var target := TargetPath(cfg.game, id);
    var s1 := RemoveStep(s, staging, cfg.dry);
    var s2 := Attempts(s1, steam, cfg, mod, 0);
    AttemptsSpec(s1, steam, cfg, mod, 0);
    if !cfg.dry {
      RemovedTreeSpec(s.fs, staging);
      StagedFrame(s1.fs, staging, LastLeft(steam, |s.spawned|, Remaining(cfg.downloads, 0)), q);
      RemovedTreeSpec(s2.fs, target);
      var fs3 := RemovedTree(s2.fs, target);
      var c := CopiedTree(fs3, staging, target);
      if c.Ok? {
        assert q !in Placed(target, Subtree(fs3, staging));
      }
    }
  }

  /** The first mod of a list is installed by the four steps in order; the rest follow unless it failed. */
  lemma InstallAllFirst(s: Run, steam: Steamcmd, cfg: Config, mods: seq<int>, s3: Run, out: (Run, Outcome))
    requires mods != []
    requires s3 == RemoveStep(
      Attempts(RemoveStep(s, StagingPath(cfg.game, DecimalString(mods[0])), cfg.dry), steam, cfg, mods[0], 0),
      TargetPath(cfg.game, DecimalString(mods[0])), cfg.dry)
    requires out == CopyStep(s3, StagingPath(cfg.game, DecimalString(mods[0])),
                             TargetPath(cfg.game, DecimalString(mods[0])), cfg.dry)
    ensures InstallAll(s, steam, cfg, mods) == if out.1.Fail? then out else InstallAll(out.0, steam, cfg, mods[1..])
  {
  }

  /**
   * What a run over mods announced and spawned, given that it started from s: everything
   * planned when it succeeded, and the plan for the first k mods, for some k > 0, when it
   * failed (the k-th mod's copy failed and no later mod was touched).
   */
  predicate Traced(s: Run, cfg: Config, mods: seq<int>, result: (Run, Outcome))
  {
    && (result.1.Pass? ==>
          result.0.log == s.log + PlanLog(cfg, mods) && result.0.spawned == s.spawned + PlanSpawns(cfg, mods))
    && (result.1.Fail? ==>
          exists k :: 0 < k <= |mods| && result.0.log == s.log + PlanLog(cfg, mods[..k]) &&
            result.0.spawned == s.spawned + PlanSpawns(cfg, mods[..k]))
  }

  /**
   * The whole install: mods are handled one after the other in list order; a run that
   * succeeds announced every step of every mod and spawned steamcmd `downloads` times per
   * mod; a run that fails stopped at the copy of some mod, the k-th, and did nothing for
   * the mods after it.
   */
  lemma {:induction false} InstallAllTrace(s: Run, steam: Steamcmd, cfg: Config, mods: seq<int>)
    ensures Traced(s, cfg, mods, InstallAll(s, steam, cfg, mods))
    decreases mods
  {
    if mods == [] {
      assert s.log + PlanLog(cfg, mods) == s.log && s.spawned + PlanSpawns(cfg, mods) == s.spawned;
    } else {
      var one := InstallOne(s, steam, cfg, mods[0]);
      InstallOneTrace(s, steam, cfg, mods[0]);
      var rest := InstallAll(one.0, steam, cfg, mods[1..]);
      InstallAllTrace(one.0, steam, cfg, mods[1..]);
      TraceStep(s, cfg, mods, one.0, one.1, rest, InstallAll(s, steam, cfg, mods));
    }
  }

  /** One step of InstallAllTrace: the first mod's trace followed by the rest's. */
  lemma TraceStep(s: Run, cfg: Config, mods: seq<int>, next: Run, first: Outcome,
                  rest: (Run, Outcome), result: (Run, Outcome))
    requires mods != []
    requires next.log == s.log + ModLog(cfg, mods[0])
    requires next.spawned == s.spawned + PlanSpawns(cfg, [mods[0]])
    requires Traced(next, cfg, mods[1..], rest)
    requires result == if first.Fail? then (next, first) else rest
    ensures Traced(s, cfg, mods, result)
  {
    if first.Fail? {
      PlanExtends(cfg, mods, 0);
      assert result.0.log == s.log + PlanLog(cfg, mods[..1]);
    } else if rest.1.Fail? {
      TraceRestFails(s, cfg, mods, next, rest);
    } else {
      TraceRestPasses(s, cfg, mods, next, rest);
    }
  }

  /** TraceStep when the first mod installed and a later one failed. */
  lemma TraceRestFails(s: Run, cfg: Config, mods: seq<int>, next: Run, rest: (Run, Outcome))
    requires mods != [] && rest.1.Fail?
    requires next.log == s.log + ModLog(cfg, mods[0])
    requires next.spawned == s.spawned + PlanSpawns(cfg, [mods[0]])
    requires Traced(next, cfg, mods[1..], rest)
    ensures Traced(s, cfg, mods, rest)
  {
    var k :| 0 < k <= |mods[1..]| &&
      rest.0.log == next.log + PlanLog(cfg, mods[1..][..k]) &&
      rest.0.spawned == next.spawned + PlanSpawns(cfg, mods[1..][..k]);
    TracePrefix(s, cfg, mods, next, rest.0, k);
  }

  /** TraceStep when every mod installed. */
  lemma TraceRestPasses(s: Run, cfg: Config, mods: seq<int>, next: Run, rest: (Run, Outcome))
    requires mods != [] && rest.1.Pass?
    requires next.log == s.log + ModLog(cfg, mods[0])
    requires next.spawned == s.spawned + PlanSpawns(cfg, [mods[0]])
    requires Traced(next, cfg, mods[1..], rest)
    ensures Traced(s, cfg, mods, rest)
  {
    assert mods[1..][..|mods| - 1] == mods[1..];
    TracePrefix(s, cfg, mods, next, rest.0, |mods| - 1);
    assert mods[..|mods|] == mods;
  }

  /** The first mod's trace followed by the trace of the k mods after it. */
  lemma TracePrefix(s: Run, cfg: Config, mods: seq<int>, next: Run, last: Run, k: nat)
    requires k < |mods|
    requires next.log == s.log + ModLog(cfg, mods[0])
    requires next.spawned == s.spawned + PlanSpawns(cfg, [mods[0]])
    requires last.log == next.log + PlanLog(cfg, mods[1..][..k])
    requires last.spawned == next.spawned + PlanSpawns(cfg, mods[1..][..k])
    ensures last.log == s.log + PlanLog(cfg, mods[..k + 1])
    ensures last.spawned == s.spawned + PlanSpawns(cfg, mods[..k + 1])
  {
    PlanExtends(cfg, mods, k);
    Chain(s.log, ModLog(cfg, mods[0]), PlanLog(cfg, mods[1..][..k]), next.log, last.log);
    Chain(s.spawned, PlanSpawns(cfg, [mods[0]]), PlanSpawns(cfg, mods[1..][..k]), next.spawned, last.spawned);
  }

  /** Associativity of concatenation, for a chain of two recorded extensions. */
  lemma Chain<T>(a: seq<T>, b: seq<T>, c: seq<T>, x: seq<T>, y: seq<T>)
    requires x == a + b && y == x + c
    ensures y == a + (b + c)
  {
  }

  /** The plan for the first k+1 mods is the plan for the first, then for the k after it. */
  lemma PlanExtends(cfg: Config, mods: seq<int>, k: nat)
    requires k < |mods|
    ensures PlanLog(cfg, mods[..k + 1]) == ModLog(cfg, mods[0]) + PlanLog(cfg, mods[1..][..k])
    ensures PlanSpawns(cfg, mods[..k + 1]) == PlanSpawns(cfg, [mods[0]]) + PlanSpawns(cfg, mods[1..][..k])
  {
    assert mods[..k + 1][1..] == mods[1..][..k];
    assert [mods[0]][1..] == [];
    assert PlanLog(cfg, [mods[0]]) == ModLog(cfg, mods[0]);
  }

  /** A dry install changes no file and spawns nothing, but announces every step of every mod. */
  lemma {:induction false} InstallAllDry(s: Run, steam: Steamcmd, cfg: Config, mods: seq<int>)
    requires cfg.dry
    ensures InstallAll(s, steam, cfg, mods) == (Run(s.fs, s.log + PlanLog(cfg, mods), s.spawned), Pass)
    decreases mods
  {
    if mods == [] {
      assert s.log + PlanLog(cfg, mods) == s.log;
    } else {
      var one := InstallOne(s, steam, cfg, mods[0]);
      InstallOneTrace(s, steam, cfg, mods[0]);
      InstallAllDry(one.0, steam, cfg, mods[1..]);
      DryStep(s, cfg, mods, one, InstallAll(one.0, steam, cfg, mods[1..]), InstallAll(s, steam, cfg, mods));
    }
  }

  /** One step of InstallAllDry: the first mod's dry run followed by the rest's. */
  lemma DryStep(s: Run, cfg: Config, mods: seq<int>, one: (Run, Outcome), rest: (Run, Outcome),
                result: (Run, Outcome))
    requires mods != []
    requires one == (Run(s.fs, s.log + ModLog(cfg, mods[0]), s.spawned), Pass)
    requires rest == (Run(one.0.fs, one.0.log + PlanLog(cfg, mods[1..]), one.0.spawned), Pass)
    requires result == if one.1.Fail? then one else rest
    ensures result == (Run(s.fs, s.log + PlanLog(cfg, mods), s.spawned), Pass)
  {
    assert PlanLog(cfg, mods) == ModLog(cfg, mods[0]) + PlanLog(cfg, mods[1..]);
    Chain(s.log, ModLog(cfg, mods[0]), PlanLog(cfg, mods[1..]), one.0.log, rest.0.log);
  }

  /** steamcmd is spawned exactly `downloads` times per mod (never if that is 0 or less, nor when dry). */
  lemma {:induction false} PlanSpawnsCount(cfg: Config, mods: seq<int>)
    ensures |PlanSpawns(cfg, mods)| == if cfg.dry then 0 else |mods| * Remaining(cfg.downloads, 0)
    decreases mods
  {
    if mods != [] && !cfg.dry {
      PlanSpawnsCount(cfg, mods[1..]);
      var n := Remaining(cfg.downloads, 0);
      var m := |mods[1..]|;
      assert |Repeat(SteamcmdArgv(cfg.steamcmd, cfg.game, DecimalString(mods[0])), n)| == n;
      MulSucc(m, n);
    }
  }

  lemma MulSucc(m: nat, n: nat)
    ensures (m + 1) * n == m * n + n
  {
  }
}
