/**
 * The updater as the host runs it: a static class whose `updating` flag
 * guards the cycle, with the cycle body written step by step.
 */
module Updater {
  import opened Wrappers
  import opened Packages
  import opened Causes
  import opened Staging
  import opened Cycle

  /**
   * The run-guard flag, plus the host-side state a cycle touches: the log of
   * effects performed so far and the serial of the next temporary path.
   */
  class VRCFuryUpdater {
    var updating: bool
    var tempSerial: nat
    var trace: seq<Effect>

    constructor ()
      ensures !updating && tempSerial == 0 && trace == []
    {
      updating := false;
      tempSerial := 0;
      trace := [];
    }

    /**
     * `UpdateAll`: a request while a cycle is running does nothing; otherwise
     * one guarded cycle runs and the flag is cleared afterwards, whatever
     * the cycle did.
     */
    method UpdateAll(automated: bool, env: Env)
      modifies this
      ensures old(updating) ==> unchanged(this)
      ensures !old(updating) ==>
        && !updating
        && trace == old(trace) + Guarded(automated, env, old(tempSerial)).effects
        && tempSerial == Guarded(automated, env, old(tempSerial)).nextTemp
    {
      if updating {
        return;
      }
      updating := true;
      ErrorDialogBoundary(automated, env);
      updating := false;
    }

    /** `ErrorDialogBoundary`: run the cycle and turn anything it throws into one error dialog. */
    method ErrorDialogBoundary(automated: bool, env: Env)
      modifies this`trace, this`tempSerial
      ensures trace == old(trace) + Guarded(automated, env, old(tempSerial)).effects
      ensures tempSerial == Guarded(automated, env, old(tempSerial)).nextTemp
    {
      var thrown := UpdateAllUnsafe(automated, env);
      if thrown.Some? {
        var cause := GetGoodCause(thrown.value);
        trace := trace + [Dialog(ErrorTitle, ErrorPrefix + cause.message)];
      }
    }

    /** `DownloadTgz`: take a fresh temporary path, append `.tgz`, and download `url` into it. */
    method DownloadTgz(url: string, env: Env) returns (r: Result<string, Exn>)
      modifies this`trace, this`tempSerial
      ensures tempSerial == old(tempSerial) + 1
      ensures trace == old(trace) + [Download(url, TgzPath(old(tempSerial)))]
      ensures r == match env.download(url)
                   case Some(e) => Err(e)
                   case None => Ok(TgzPath(old(tempSerial)))
    {
      var tempFile := TgzPath(tempSerial);
      tempSerial := tempSerial + 1;
      trace := trace + [Download(url, tempFile)];
      match env.download(url)
      case Some(e) => r := Err(e);
      case None => r := Ok(tempFile);
    }

    /** `UpdateAllUnsafe`: one cycle, with every exception returned as `thrown`. */
    method UpdateAllUnsafe(automated: bool, env: Env) returns (thrown: Option<Exn>)
      modifies this`trace, this`tempSerial
      ensures var o := RunCycle(automated, env, old(tempSerial));
        && trace == old(trace) + o.effects
        && thrown == o.thrown
        && tempSerial == o.nextTemp
    {
      trace := trace + [FetchManifest];
      if env.manifest.Err? {
        return Some(env.manifest.error);
      }
      var repo := env.manifest.value;
      if repo.packages.None? {
        return Some(Thrown(ManifestError));
      }
      var remotes := repo.packages.value;

      trace := trace + [ListInstalled];
      if env.installed.Err? {
        return Some(env.installed.error);
      }
      var deps := env.installed.value;
      thrown := UpdateListed(automated, deps, remotes, env);
    }

    /** The rest of `UpdateAllUnsafe` once both lists are known: self-update if due, else the ordinary batch. */
    method UpdateListed(automated: bool, deps: seq<LocalPackage>, remotes: seq<Package>, env: Env) returns (thrown: Option<Exn>)
      modifies this`trace, this`tempSerial
      ensures var o := PlanBranch(automated, env, deps, remotes, old(tempSerial));
        && trace == old(trace) + o.effects
        && thrown == o.thrown
        && tempSerial == o.nextTemp
    {
      match SelfUpdateUrl(deps, remotes)
      case Some(url) =>
        thrown := UpdateSelf(automated, url, env);
      case None =>
        var urlsToAdd := UrlsToAdd(deps, remotes);
        thrown := UpdatePackages(urlsToAdd, env);
    }

    /** The self-update block of `UpdateAllUnsafe`: download the new updater, add it, then mark. */
    method UpdateSelf(automated: bool, url: string, env: Env) returns (thrown: Option<Exn>)
      modifies this`trace, this`tempSerial
      ensures var o := SelfUpdateBranch(automated, env, url, old(tempSerial));
        && trace == old(trace) + o.effects
        && thrown == o.thrown
        && tempSerial == o.nextTemp
    {
      if automated {
        return Some(Thrown(AutomatedError));
      }
      var tgzPath := DownloadTgz(url, env);
      if tgzPath.Err? {
        return Some(tgzPath.error);
      }
      var refs := [FileRef(tgzPath.value)];
      trace := trace + [AddPackages(refs)];
      if env.add(refs).Some? {
        return env.add(refs);
      }
      trace := trace + [CreateMarker(UpdateAllMarker)];
      return None;
    }

    /**
     * The ordinary block of `UpdateAllUnsafe`: download every archive of
     * `urlsToAdd` into `packageFilesToAdd`, create the updated marker, add
     * the batch, and show the recompile dialog.
     */
    method UpdatePackages(urlsToAdd: seq<Joined>, env: Env) returns (thrown: Option<Exn>)
      requires AllHaveUrl(urlsToAdd)
      modifies this`trace, this`tempSerial
      ensures var o := OrdinaryBranch(env, urlsToAdd, old(tempSerial));
        && trace == old(trace) + o.effects
        && thrown == o.thrown
        && tempSerial == o.nextTemp
    {
      ghost var t0 := old(tempSerial);
      ghost var before := old(trace);
      var packageFilesToAdd := [];
      for i := 0 to |urlsToAdd|
        invariant var st := DownloadAll(urlsToAdd[..i], env, t0);
          && st.thrown.None?
          && trace == before + st.effects
          && packageFilesToAdd == st.files
          && tempSerial == st.nextTemp
      {
        assert urlsToAdd[..i + 1][..i] == urlsToAdd[..i];
        assert urlsToAdd[i] in urlsToAdd;
        var tgzPath := DownloadTgz(Url(urlsToAdd[i]), env);
        if tgzPath.Err? {
          DownloadAllStops(urlsToAdd, env, t0, i + 1);
          return Some(tgzPath.error);
        }
        packageFilesToAdd := packageFilesToAdd + [FileRef(tgzPath.value)];
      }
      assert urlsToAdd[..|urlsToAdd|] == urlsToAdd;

      trace := trace + [CreateMarker(UpdatedMarker)];
      trace := trace + [AddPackages(packageFilesToAdd)];
      if env.add(packageFilesToAdd).Some? {
        return env.add(packageFilesToAdd);
      }
      trace := trace + [RecompileDialog()];
      return None;
    }
  }
}
