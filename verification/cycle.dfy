/**
 * One update cycle as a trace of effects on the outside world. The registry
 * document, the installed list and the outcome of every host call come from
 * an environment; temporary paths come from a serial number.
 */
module Cycle {
  import opened Wrappers
  import opened Packages
  import opened Causes
  import opened Staging

  /** The two continuation markers: after a self-update, and after ordinary updates. */
  datatype Marker = UpdateAllMarker | UpdatedMarker

  datatype Effect =
    | FetchManifest                          // GET of the registry document
    | ListInstalled                          // the host lists installed packages
    | Download(url: string, path: string)    // an archive is fetched into a staging path
    | CreateMarker(marker: Marker)           // a marker directory is created
    | AddPackages(refs: seq<string>)         // one batch add call to the host
    | Dialog(title: string, message: string) // a modal dialog

  /**
   * What the outside world answers: the registry document (an error covers
   * both the HTTP request and the JSON decoding), the installed list, and
   * which downloads and batch adds throw.
   */
  datatype Env = Env(
    manifest: Result<Repository, Exn>,
    installed: Result<seq<LocalPackage>, Exn>,
    download: string -> Option<Exn>,
    add: seq<string> -> Option<Exn>)

  const ManifestError: string := "Failed to fetch packages from update server"
  const AutomatedError: string := "Updater failed to update to new version"
  const RecompileTitle: string := "VRCFury Updater"
  const RecompileMessage: string :=
    "Unity is now recompiling VRCFury.\n\nYou should receive another message when the upgrade is complete."
  const ErrorTitle: string := "VRCFury Error"
  const ErrorPrefix: string := "VRCFury encountered an error.\n\n"

  predicate IsErrorDialog(e: Effect) {
    e.Dialog? && e.title == ErrorTitle
  }

  function RecompileDialog(): Effect {
    Dialog(RecompileTitle, RecompileMessage)
  }

  /** The dialog the error boundary shows for a caught exception. */
  function ErrorDialog(e: Exn): Effect {
    Dialog(ErrorTitle, ErrorPrefix + GoodCause(e).message)
  }

  /** The effects of a cycle, whether it threw, and the next temporary-path serial. */
  datatype Outcome = Outcome(effects: seq<Effect>, thrown: Option<Exn>, nextTemp: nat)

  /** The downloads of the ordinary branch so far: effects, collected `file:` references, failure. */
  datatype Staged = Staged(effects: seq<Effect>, files: seq<string>, thrown: Option<Exn>, nextTemp: nat)

  ghost predicate AllHaveUrl(acts: seq<Joined>) {
    forall a :: a in acts ==> HasUrl(a)
  }

  /** The archive URL of an ordinary action. */
  function Url(a: Joined): string
    requires HasUrl(a)
  {
    a.remote.value.latestUpmTargz.value
  }

  /** The `foreach` over the ordinary list: download each archive in order, stop at the first failure. */
  function DownloadAll(acts: seq<Joined>, env: Env, t: nat): (r: Staged)
    requires AllHaveUrl(acts)
    ensures r.nextTemp >= t
    decreases |acts|
  {
    if |acts| == 0 then Staged([], [], None, t)
    else
      var prev := DownloadAll(acts[..|acts| - 1], env, t);
      if prev.thrown.Some? then prev
      else
        var url := Url(acts[|acts| - 1]);
        var path := TgzPath(prev.nextTemp);
        var effects := prev.effects + [Download(url, path)];
        match env.download(url)
        case Some(e) => Staged(effects, prev.files, Some(e), prev.nextTemp + 1)
        case None => Staged(effects, prev.files + [FileRef(path)], None, prev.nextTemp + 1)
  }

  /** The installed list was read: both reads come before whatever a branch does. */
  function Listed(o: Outcome): (r: Outcome)
    ensures |r.effects| >= 2 && r.effects[..2] == [FetchManifest, ListInstalled] && r.effects[2..] == o.effects
  {
    Outcome([FetchManifest, ListInstalled] + o.effects, o.thrown, o.nextTemp)
  }

  /** `UpdateAllUnsafe`: what one cycle does, starting from temporary-path serial `t`. */
  function RunCycle(automated: bool, env: Env, t: nat): (r: Outcome)
    ensures r.nextTemp >= t
    ensures r.thrown.None? ==> |r.effects| >= 5
  {
    match env.manifest
    case Err(e) => Outcome([FetchManifest], Some(e), t)
    case Ok(repo) =>
      match repo.packages
      case None => Outcome([FetchManifest], Some(Thrown(ManifestError)), t)
      case Some(remotes) =>
        match env.installed
        case Err(e) => Outcome([FetchManifest, ListInstalled], Some(e), t)
        case Ok(deps) => Listed(PlanBranch(automated, env, deps, remotes, t))
  }

  /** After both reads: the self-update branch when one is due, the ordinary branch otherwise. */
  function PlanBranch(automated: bool, env: Env, deps: seq<LocalPackage>, remotes: seq<Package>, t: nat): (r: Outcome)
    ensures r.nextTemp >= t
    ensures r.thrown.None? ==> |r.effects| >= 3
  {
    match SelfUpdateUrl(deps, remotes)
    case Some(url) => SelfUpdateBranch(automated, env, url, t)
    case None => OrdinaryBranch(env, UrlsToAdd(deps, remotes), t)
  }

  /** The self-update branch: its effects after the installed list was read. */
  function SelfUpdateBranch(automated: bool, env: Env, url: string, t: nat): (r: Outcome)
    ensures r.nextTemp == if automated then t else t + 1
    ensures |r.effects| <= 3
  {
    if automated then Outcome([], Some(Thrown(AutomatedError)), t)
    else
      var path := TgzPath(t);
      var refs := [FileRef(path)];
      if env.download(url).Some? then Outcome([Download(url, path)], env.download(url), t + 1)
      else if env.add(refs).Some? then Outcome([Download(url, path), AddPackages(refs)], env.add(refs), t + 1)
      else Outcome([Download(url, path), AddPackages(refs), CreateMarker(UpdateAllMarker)], None, t + 1)
  }

  /** The ordinary branch over the list `urlsToAdd`: its effects after the installed list was read. */
  function OrdinaryBranch(env: Env, urlsToAdd: seq<Joined>, t: nat): (r: Outcome)
    requires AllHaveUrl(urlsToAdd)
    ensures r.nextTemp >= t
    ensures r.thrown.None? ==> |r.effects| >= 3 && r.effects[|r.effects| - 1] == RecompileDialog()
  {
    var staged := DownloadAll(urlsToAdd, env, t);
    if staged.thrown.Some? then Outcome(staged.effects, staged.thrown, staged.nextTemp)
    else
      var added := staged.effects + [CreateMarker(UpdatedMarker), AddPackages(staged.files)];
      if env.add(staged.files).Some? then Outcome(added, env.add(staged.files), staged.nextTemp)
      else Outcome(added + [RecompileDialog()], None, staged.nextTemp)
  }

  /** `ErrorDialogBoundary` around a cycle: a failure becomes one error dialog. */
  function Guarded(automated: bool, env: Env, t: nat): (r: Outcome)
    ensures r.thrown.None?
    ensures RunCycle(automated, env, t).effects <= r.effects
  {
    var o := RunCycle(automated, env, t);
    match o.thrown
    case None => o
    case Some(e) => Outcome(o.effects + [ErrorDialog(e)], None, o.nextTemp)
  }

  // ---------------------------------------------------------------------------
  // The ordinary downloads

  /** The download effects of an ordinary list that downloads without failure. */
  function DownloadScript(acts: seq<Joined>, t: nat): (r: seq<Effect>)
    requires AllHaveUrl(acts)
    ensures |r| == |acts|
  {
    seq(|acts|, i requires 0 <= i < |acts| => Download(Url(acts[i]), TgzPath(t + i)))
  }

  /** The references added on the ordinary branch: one `file:` path per action. */
  function FileScript(acts: seq<Joined>, t: nat): (r: seq<string>)
    ensures |r| == |acts|
  {
    seq(|acts|, i requires 0 <= i < |acts| => FileRef(TgzPath(t + i)))
  }

  /**
   * When no download throws, the i-th action is downloaded from its URL to the
   * i-th fresh staging path, and the i-th reference names that path.
   */
  lemma {:induction false} DownloadAllSucceeds(acts: seq<Joined>, env: Env, t: nat)
    requires AllHaveUrl(acts)
    requires forall a :: a in acts ==> env.download(Url(a)).None?
    ensures DownloadAll(acts, env, t) == Staged(DownloadScript(acts, t), FileScript(acts, t), None, t + |acts|)
    decreases |acts|
  {
    if |acts| > 0 {
      var n := |acts| - 1;
      var front := acts[..n];
      assert forall a :: a in front ==> a in acts;
      DownloadAllSucceeds(front, env, t);
      assert acts[n] in acts;
      assert DownloadScript(acts, t) == DownloadScript(front, t) + [Download(Url(acts[n]), TgzPath(t + n))];
      assert FileScript(acts, t) == FileScript(front, t) + [FileRef(TgzPath(t + n))];
    }
  }

  /** Once a download has thrown, later actions are neither downloaded nor staged. */
  lemma {:induction false} DownloadAllStops(acts: seq<Joined>, env: Env, t: nat, k: nat)
    requires AllHaveUrl(acts) && k <= |acts|
    requires DownloadAll(acts[..k], env, t).thrown.Some?
    ensures DownloadAll(acts, env, t) == DownloadAll(acts[..k], env, t)
    decreases |acts| - k
  {
    if k < |acts| {
      var n := |acts| - 1;
      assert acts[..k] == acts[..n][..k];
      DownloadAllStops(acts[..n], env, t, k);
    } else {
      assert acts[..k] == acts;
    }
  }

  /** The downloads phase does nothing but download, and fails only through a download. */
  lemma {:induction false} DownloadAllOnlyDownloads(acts: seq<Joined>, env: Env, t: nat)
    requires AllHaveUrl(acts)
    ensures forall i :: 0 <= i < |DownloadAll(acts, env, t).effects| ==> DownloadAll(acts, env, t).effects[i].Download?
    ensures |DownloadAll(acts, env, t).effects| <= |acts|
    ensures DownloadAll(acts, env, t).thrown.Some? ==>
      exists a :: a in acts && DownloadAll(acts, env, t).thrown == env.download(Url(a))
    decreases |acts|
  {
    if |acts| > 0 {
      var front := acts[..|acts| - 1];
      DownloadAllOnlyDownloads(front, env, t);
      assert acts[|acts| - 1] in acts;
      assert forall a :: a in front ==> a in acts;
    }
  }

  predicate EndsInTgz(path: string) {
    |path| >= 4 && path[|path| - 4..] == ".tgz"
  }

  /** The staging paths of one cycle are pairwise distinct and all end in `.tgz`. */
  lemma StagedPathsDistinct(acts: seq<Joined>, t: nat)
    ensures forall i :: 0 <= i < |acts| ==>
              FileScript(acts, t)[i] == FileRef(TgzPath(t + i)) && EndsInTgz(TgzPath(t + i))
    ensures forall i, j :: 0 <= i < j < |acts| ==> FileScript(acts, t)[i] != FileScript(acts, t)[j]
  {
    forall i | 0 <= i < |acts|
      ensures FileScript(acts, t)[i] == FileRef(TgzPath(t + i)) && EndsInTgz(TgzPath(t + i))
    {
      TgzPathSpec(t + i, t + i);
    }
    forall i, j | 0 <= i < j < |acts|
      ensures FileScript(acts, t)[i] != FileScript(acts, t)[j]
    {
      TgzPathSpec(t + i, t + j);
      FileRefInjective(TgzPath(t + i), TgzPath(t + j));
    }
  }

  // ---------------------------------------------------------------------------
  // The branches of a cycle

  /** A null package list fails the cycle before the installed list is read or anything is downloaded. */
  lemma NullPackagesFail(automated: bool, env: Env, t: nat)
    requires env.manifest.Ok? && env.manifest.value.packages.None?
    ensures RunCycle(automated, env, t) == Outcome([FetchManifest], Some(Thrown(ManifestError)), t)
  {
  }

  /** The cycle that reads the installed list runs exactly one of the two branches. */
  lemma {:induction false} CycleBranches(automated: bool, env: Env, t: nat)
    ensures var o := RunCycle(automated, env, t);
      if env.manifest.Ok? && env.manifest.value.packages.Some? && env.installed.Ok? then
        var deps, remotes := env.installed.value, env.manifest.value.packages.value;
        && o.effects[..2] == [FetchManifest, ListInstalled]
        && match SelfUpdateUrl(deps, remotes)
           case Some(url) => o == Listed(SelfUpdateBranch(automated, env, url, t))
           case None =>
                  o == Listed(OrdinaryBranch(env, UrlsToAdd(deps, remotes), t))
      else
        && o.thrown.Some?
        && o.nextTemp == t
        && (o.effects == [FetchManifest] || o.effects == [FetchManifest, ListInstalled])
        && (o.effects == [FetchManifest, ListInstalled] <==> env.manifest.Ok? && env.manifest.value.packages.Some?)
  {
  }

  /** Every download, add and marker of a cycle comes after the registry fetch and the installed-list read. */
  lemma {:induction false} ReadsComeFirst(automated: bool, env: Env, t: nat)
    ensures var effs := RunCycle(automated, env, t).effects;
      forall i :: 0 <= i < |effs| && (effs[i].Download? || effs[i].AddPackages? || effs[i].CreateMarker?) ==>
        i >= 2 && effs[..2] == [FetchManifest, ListInstalled]
  {
    CycleBranches(automated, env, t);
  }

  /** An automated cycle that reaches the self-update branch throws without downloading, adding or marking. */
  lemma AutomatedSelfUpdateFails(env: Env, t: nat, deps: seq<LocalPackage>, remotes: seq<Package>, url: string)
    requires env.manifest == Ok(Repository(Some(remotes))) && env.installed == Ok(deps)
    requires SelfUpdateDue(deps, remotes, url)
    ensures RunCycle(true, env, t) == Outcome([FetchManifest, ListInstalled], Some(Thrown(AutomatedError)), t)
  {
    SelfUpdateUrlSpec(deps, remotes);
  }

  /** The effects of an interactive self-update that nothing interrupts. */
  function SelfUpdateScript(url: string, t: nat): seq<Effect> {
    [FetchManifest, ListInstalled, Download(url, TgzPath(t)), AddPackages([FileRef(TgzPath(t))]), CreateMarker(UpdateAllMarker)]
  }

  /**
   * An interactive self-update downloads the new updater once, adds only its
   * `file:` reference, creates the update-all marker after the add, and stops:
   * no ordinary package is downloaded or added and no recompile dialog appears.
   * A failing download or add cuts the script short and is rethrown.
   */
  lemma InteractiveSelfUpdate(env: Env, t: nat, deps: seq<LocalPackage>, remotes: seq<Package>, url: string)
    requires env.manifest == Ok(Repository(Some(remotes))) && env.installed == Ok(deps)
    requires SelfUpdateDue(deps, remotes, url)
    ensures var o := RunCycle(false, env, t);
      && o.effects <= SelfUpdateScript(url, t)
      && |o.effects| >= 3
      && o.nextTemp == t + 1
      && (o.thrown.None? <==> o.effects == SelfUpdateScript(url, t))
      && (env.download(url).Some? ==> o.thrown == env.download(url) && |o.effects| == 3)
      && (env.download(url).None? ==> o.thrown == env.add([FileRef(TgzPath(t))]))
      && (env.download(url).None? && o.thrown.Some? ==> o.effects == SelfUpdateScript(url, t)[..4])
  {
    SelfUpdateUrlSpec(deps, remotes);
  }

  /**
   * The ordinary branch when every download succeeds: all downloads in list
   * order, then the updated marker, then one add call with one reference per
   * action, then the recompile dialog unless the add throws. This holds for an
   * empty list too.
   */
  lemma OrdinaryBranchSucceeds(env: Env, acts: seq<Joined>, t: nat)
    requires AllHaveUrl(acts)
    requires forall a :: a in acts ==> env.download(Url(a)).None?
    ensures var refs := FileScript(acts, t);
      var o := OrdinaryBranch(env, acts, t);
      && o.effects == DownloadScript(acts, t) + [CreateMarker(UpdatedMarker), AddPackages(refs)]
                      + (if env.add(refs).None? then [RecompileDialog()] else [])
      && o.thrown == env.add(refs)
      && o.nextTemp == t + |acts|
  {
    DownloadAllSucceeds(acts, env, t);
  }

  /** The whole cycle on the ordinary branch, in terms of the ordinary list. */
  lemma OrdinaryCycle(automated: bool, env: Env, t: nat, deps: seq<LocalPackage>, remotes: seq<Package>)
    requires env.manifest == Ok(Repository(Some(remotes))) && env.installed == Ok(deps)
    requires SelfUpdateUrl(deps, remotes).None?
    requires forall a :: a in UrlsToAdd(deps, remotes) ==> HasUrl(a) && env.download(Url(a)).None?
    ensures var acts := UrlsToAdd(deps, remotes);
      var refs := FileScript(acts, t);
      var o := RunCycle(automated, env, t);
      && o.effects == [FetchManifest, ListInstalled] + DownloadScript(acts, t)
                      + [CreateMarker(UpdatedMarker), AddPackages(refs)]
                      + (if env.add(refs).None? then [RecompileDialog()] else [])
      && o.thrown == env.add(refs)
      && o.nextTemp == t + |acts|
  {
    CycleBranches(automated, env, t);
    OrdinaryBranchSucceeds(env, UrlsToAdd(deps, remotes), t);
  }

  /** With nothing to update the cycle still creates the marker, adds an empty batch and shows the dialog. */
  lemma EmptyPlanStillAdds(automated: bool, env: Env, t: nat, deps: seq<LocalPackage>, remotes: seq<Package>)
    requires env.manifest == Ok(Repository(Some(remotes))) && env.installed == Ok(deps)
    requires SelfUpdateUrl(deps, remotes).None?
    requires forall d :: d in deps ==> !Pending(remotes, d)
    requires env.add([]).None?
    ensures RunCycle(automated, env, t) ==
      Outcome([FetchManifest, ListInstalled, CreateMarker(UpdatedMarker), AddPackages([]), RecompileDialog()], None, t)
  {
    var pending := d => Pending(remotes, d);
    FilterNone(deps, pending);
    UrlsToAddSpec(deps, remotes);
    var acts := UrlsToAdd(deps, remotes);
    assert |Locals(acts)| == 0;
    assert acts == [];
    OrdinaryCycle(automated, env, t, deps, remotes);
    assert DownloadScript(acts, t) == [] && FileScript(acts, t) == [];
  }

  /**
   * A download failure on the ordinary branch is rethrown; nothing but
   * downloads happened after the installed list was read.
   */
  lemma OrdinaryDownloadFails(env: Env, acts: seq<Joined>, t: nat, a: Joined)
    requires AllHaveUrl(acts)
    requires a in acts && env.download(Url(a)).Some?
    ensures var o := OrdinaryBranch(env, acts, t);
      && o.thrown.Some?
      && forall i :: 0 <= i < |o.effects| ==> o.effects[i].Download?
  {
    DownloadAllOnlyDownloads(acts, env, t);
    var k :| 0 <= k < |acts| && acts[k] == a;
    assert acts[..k + 1][..k] == acts[..k];
    DownloadAllStops(acts, env, t, k + 1);
  }

  /** What the ordinary branch never does, and that it shows a dialog only on success. */
  lemma OrdinaryBranchShape(env: Env, acts: seq<Joined>, t: nat)
    requires AllHaveUrl(acts)
    ensures var o := OrdinaryBranch(env, acts, t);
      && CreateMarker(UpdateAllMarker) !in o.effects
      && (forall e :: e in o.effects ==> !IsErrorDialog(e))
      && (o.thrown.Some? ==> forall e :: e in o.effects ==> !e.Dialog?)
  {
    DownloadAllOnlyDownloads(acts, env, t);
    var st := DownloadAll(acts, env, t);
    assert forall e :: e in st.effects ==> e.Download?;
  }

  /** What the self-update branch never does. */
  lemma SelfUpdateBranchShape(automated: bool, env: Env, url: string, t: nat)
    ensures var effs := SelfUpdateBranch(automated, env, url, t).effects;
      && CreateMarker(UpdatedMarker) !in effs
      && (forall e :: e in effs ==> !e.Dialog?)
      && (forall e :: e in effs && e.AddPackages? ==> |e.refs| == 1)
  {
  }

  /** No cycle creates both markers; the update-all marker comes only with a single one-reference add and no dialog. */
  lemma {:induction false} BranchesExclusive(automated: bool, env: Env, t: nat)
    ensures var effs := RunCycle(automated, env, t).effects;
      CreateMarker(UpdateAllMarker) in effs ==>
        && CreateMarker(UpdatedMarker) !in effs
        && (forall e :: e in effs ==> !e.Dialog?)
        && (forall e :: e in effs && e.AddPackages? ==> |e.refs| == 1)
  {
    CycleBranches(automated, env, t);
    if env.manifest.Ok? && env.manifest.value.packages.Some? && env.installed.Ok? {
      var deps, remotes := env.installed.value, env.manifest.value.packages.value;
      match SelfUpdateUrl(deps, remotes)
      case Some(url) => SelfUpdateBranchShape(automated, env, url, t);
      case None =>
        OrdinaryBranchShape(env, UrlsToAdd(deps, remotes), t);
    }
  }

  // ---------------------------------------------------------------------------
  // The error boundary

  /** A cycle that throws has shown no dialog, and no cycle shows an error dialog of its own. */
  lemma {:induction false} CycleDialogs(automated: bool, env: Env, t: nat)
    ensures var o := RunCycle(automated, env, t);
      && (forall e :: e in o.effects ==> !IsErrorDialog(e))
      && (o.thrown.Some? ==> forall e :: e in o.effects ==> !e.Dialog?)
  {
    CycleBranches(automated, env, t);
    if env.manifest.Ok? && env.manifest.value.packages.Some? && env.installed.Ok? {
      var deps, remotes := env.installed.value, env.manifest.value.packages.value;
      match SelfUpdateUrl(deps, remotes)
      case Some(url) => SelfUpdateBranchShape(automated, env, url, t);
      case None =>
        OrdinaryBranchShape(env, UrlsToAdd(deps, remotes), t);
    }
  }

  /**
   * Behind the boundary nothing is thrown; a failed cycle ends with exactly
   * one dialog, the error dialog for the unwrapped cause, and a successful one
   * shows no error dialog.
   */
  lemma {:induction false} BoundaryReportsOnce(automated: bool, env: Env, t: nat)
    ensures var o := RunCycle(automated, env, t);
      var g := Guarded(automated, env, t);
      && g.thrown.None?
      && g.nextTemp == o.nextTemp
      && (o.thrown.Some? ==>
            && g.effects == o.effects + [Dialog(ErrorTitle, ErrorPrefix + GoodCause(o.thrown.value).message)]
            && !Peelable(GoodCause(o.thrown.value))
            && forall i :: 0 <= i < |g.effects| - 1 ==> !g.effects[i].Dialog?)
      && (o.thrown.None? ==> g.effects == o.effects && forall e :: e in g.effects ==> !IsErrorDialog(e))
  {
    var o := RunCycle(automated, env, t);
    CycleDialogs(automated, env, t);
    if o.thrown.Some? {
      GoodCauseSpec(o.thrown.value);
      var g := Guarded(automated, env, t);
      forall i | 0 <= i < |g.effects| - 1
        ensures !g.effects[i].Dialog?
      {
        assert g.effects[i] == o.effects[i];
        assert o.effects[i] in o.effects;
      }
    }
  }
}
