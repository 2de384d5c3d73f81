/**
 * The registry records, the installed-package records, and the update
 * planner: the self-update test and the ordinary update list.
 */
module Packages {
  import opened Wrappers

  /** The identifier under which the updater itself is published. */
  const UpdaterId: string := "com.vrcfury.updater"

  /** One entry of the registry document. Every field is a C# string, so it may be null. */
  datatype Package = Package(
    id: Option<string>,
    displayName: Option<string>,
    latestUpmTargz: Option<string>,
    latestVersion: Option<string>)

  /** The decoded registry document; its package list may be null. */
  datatype Repository = Repository(packages: Option<seq<Package>>)

  /** An installed package as the host package manager lists it. */
  datatype LocalPackage = LocalPackage(name: string, version: string)

  /** An installed package paired with the first remote entry sharing its id, if any. */
  datatype Joined = Joined(local: LocalPackage, remote: Option<Package>)

  // ---------------------------------------------------------------------------
  // FirstOrDefault and Where

  /** `j` is the first position of `s` whose element satisfies `p`. */
  ghost predicate IsFirst<T>(s: seq<T>, p: T -> bool, j: int) {
    0 <= j < |s| && p(s[j]) && forall k :: 0 <= k < j ==> !p(s[k])
  }

  /** The position of the first element satisfying `p`, or `|s|` when there is none. */
  function FirstWhere<T>(s: seq<T>, p: T -> bool): (j: nat)
    ensures j <= |s|
    ensures j < |s| ==> p(s[j])
    ensures forall k :: 0 <= k < j ==> !p(s[k])
  {
    if |s| == 0 then 0
    else if p(s[0]) then 0
    else 1 + FirstWhere(s[1..], p)
  }

  /** LINQ `FirstOrDefault(p)` over a list of references: the first match, or null. */
  function FirstOrDefault<T>(s: seq<T>, p: T -> bool): (r: Option<T>)
    ensures r.None? <==> forall k :: 0 <= k < |s| ==> !p(s[k])
    ensures r.Some? ==> exists j :: IsFirst(s, p, j) && s[j] == r.value
  {
    var j := FirstWhere(s, p);
    if j < |s| then
      assert IsFirst(s, p, j);
      Some(s[j])
    else None
  }

  /** LINQ `Where(p)`: the elements satisfying `p`, in their original order. */
  function Filter<T(!new)>(s: seq<T>, p: T -> bool): (r: seq<T>)
    ensures |r| <= |s|
  {
    if |s| == 0 then []
    else (if p(s[0]) then [s[0]] else []) + Filter(s[1..], p)
  }

  /** `Where` keeps exactly the elements satisfying its predicate. */
  lemma {:induction false} FilterMembership<T(!new)>(s: seq<T>, p: T -> bool)
    ensures forall x :: x in Filter(s, p) <==> x in s && p(x)
  {
    if |s| > 0 {
      FilterMembership(s[1..], p);
      assert s == [s[0]] + s[1..];
    }
  }

  /** `Where` over a concatenation is the concatenation of the two `Where`s: order and multiplicity are kept. */
  lemma {:induction false} FilterAppend<T(!new)>(s: seq<T>, t: seq<T>, p: T -> bool)
    ensures Filter(s + t, p) == Filter(s, p) + Filter(t, p)
  {
    if |s| == 0 {
      assert s + t == t;
    } else {
      var head := if p(s[0]) then [s[0]] else [];
      assert (s + t)[0] == s[0];
      assert (s + t)[1..] == s[1..] + t;
      assert Filter(s + t, p) == head + Filter(s[1..] + t, p);
      FilterAppend(s[1..], t, p);
      assert Filter(s, p) == head + Filter(s[1..], p);
      assert head + (Filter(s[1..], p) + Filter(t, p)) == (head + Filter(s[1..], p)) + Filter(t, p);
    }
  }

  /** `Where` keeps nothing when no element satisfies the predicate. */
  lemma {:induction false} FilterNone<T(!new)>(s: seq<T>, p: T -> bool)
    requires forall x :: x in s ==> !p(x)
    ensures Filter(s, p) == []
  {
    if |s| > 0 {
      assert s[0] in s;
      FilterNone(s[1..], p);
    }
  }

  /** `Where` on one element keeps it exactly when it satisfies the predicate. */
  lemma FilterSingleton<T(!new)>(x: T, p: T -> bool)
    ensures Filter([x], p) == if p(x) then [x] else []
  {
    assert [x][1..] == [];
  }

  // ---------------------------------------------------------------------------
  // Looking packages up by id

  /** The first remote entry whose id is `name` (`repo.packages.FirstOrDefault(p => p.id == name)`). */
  function FindRemote(remotes: seq<Package>, name: string): Option<Package> {
    FirstOrDefault(remotes, (p: Package) => p.id == Some(name))
  }

  /** The first installed package called `name`. */
  function FindLocal(deps: seq<LocalPackage>, name: string): Option<LocalPackage> {
    FirstOrDefault(deps, (d: LocalPackage) => d.name == name)
  }

  /** Position `j` holds the first remote entry with id `name`. */
  ghost predicate FirstRemoteAt(remotes: seq<Package>, name: string, j: int) {
    0 <= j < |remotes| && remotes[j].id == Some(name)
    && forall k :: 0 <= k < j ==> remotes[k].id != Some(name)
  }

  /** Position `i` holds the first installed package called `name`. */
  ghost predicate FirstLocalAt(deps: seq<LocalPackage>, name: string, i: int) {
    0 <= i < |deps| && deps[i].name == name
    && forall k :: 0 <= k < i ==> deps[k].name != name
  }

  lemma FindRemoteSpec(remotes: seq<Package>, name: string)
    ensures FindRemote(remotes, name).None? <==> forall k :: 0 <= k < |remotes| ==> remotes[k].id != Some(name)
    ensures FindRemote(remotes, name).Some? ==>
      exists j :: FirstRemoteAt(remotes, name, j) && remotes[j] == FindRemote(remotes, name).value
  {
    var p := (q: Package) => q.id == Some(name);
    var r := FirstOrDefault(remotes, p);
    if r.Some? {
      var j :| IsFirst(remotes, p, j) && remotes[j] == r.value;
      assert FirstRemoteAt(remotes, name, j);
    }
  }

  lemma FindLocalSpec(deps: seq<LocalPackage>, name: string)
    ensures FindLocal(deps, name).None? <==> forall k :: 0 <= k < |deps| ==> deps[k].name != name
    ensures FindLocal(deps, name).Some? ==>
      exists i :: FirstLocalAt(deps, name, i) && deps[i] == FindLocal(deps, name).value
  {
    var p := (d: LocalPackage) => d.name == name;
    var r := FirstOrDefault(deps, p);
    if r.Some? {
      var i :| IsFirst(deps, p, i) && deps[i] == r.value;
      assert FirstLocalAt(deps, name, i);
    }
  }

  /** The first-match position is unique. */
  lemma FirstRemoteAtUnique(remotes: seq<Package>, name: string, j: int, j': int)
    requires FirstRemoteAt(remotes, name, j) && FirstRemoteAt(remotes, name, j')
    ensures j == j'
  {
  }

  lemma FirstLocalAtUnique(deps: seq<LocalPackage>, name: string, i: int, i': int)
    requires FirstLocalAt(deps, name, i) && FirstLocalAt(deps, name, i')
    ensures i == i'
  {
  }

  // ---------------------------------------------------------------------------
  // The self-update test

  /**
   * The archive URL of the new updater when the updater must replace itself
   * this cycle: the first installed `com.vrcfury.updater` and the first remote
   * entry with that id both exist, their version strings differ, and the
   * remote entry has an archive URL. `None` sends the cycle down the
   * ordinary path.
   */
  function SelfUpdateUrl(deps: seq<LocalPackage>, remotes: seq<Package>): (r: Option<string>)
    ensures r.Some? ==> exists d :: d in deps && d.name == UpdaterId
    ensures r.Some? ==> exists p :: p in remotes && p.id == Some(UpdaterId) && p.latestUpmTargz == r
  {
    FindLocalSpec(deps, UpdaterId);
    FindRemoteSpec(remotes, UpdaterId);
    var local := FindLocal(deps, UpdaterId);
    var remote := FindRemote(remotes, UpdaterId);
    if local.Some?
      && remote.Some?
      && Some(local.value.version) != remote.value.latestVersion
      && remote.value.latestUpmTargz.Some?
    then remote.value.latestUpmTargz
    else None
  }

  /** The self-update condition, stated over positions rather than lookups. */
  ghost predicate SelfUpdateDue(deps: seq<LocalPackage>, remotes: seq<Package>, url: string) {
    exists i, j ::
      FirstLocalAt(deps, UpdaterId, i) && FirstRemoteAt(remotes, UpdaterId, j)
      && Some(deps[i].version) != remotes[j].latestVersion
      && remotes[j].latestUpmTargz == Some(url)
  }

  /** The self-update branch is taken exactly when the condition holds, with the remote entry's URL. */
  lemma {:induction false} SelfUpdateUrlSpec(deps: seq<LocalPackage>, remotes: seq<Package>)
    ensures SelfUpdateUrl(deps, remotes).Some? ==> SelfUpdateDue(deps, remotes, SelfUpdateUrl(deps, remotes).value)
    ensures forall url :: SelfUpdateDue(deps, remotes, url) ==> SelfUpdateUrl(deps, remotes) == Some(url)
  {
    FindLocalSpec(deps, UpdaterId);
    FindRemoteSpec(remotes, UpdaterId);
    forall url | SelfUpdateDue(deps, remotes, url)
      ensures SelfUpdateUrl(deps, remotes) == Some(url)
    {
      var i, j :| FirstLocalAt(deps, UpdaterId, i) && FirstRemoteAt(remotes, UpdaterId, j)
        && Some(deps[i].version) != remotes[j].latestVersion
        && remotes[j].latestUpmTargz == Some(url);
      var i' :| FirstLocalAt(deps, UpdaterId, i') && deps[i'] == FindLocal(deps, UpdaterId).value;
      var j' :| FirstRemoteAt(remotes, UpdaterId, j') && remotes[j'] == FindRemote(remotes, UpdaterId).value;
      FirstLocalAtUnique(deps, UpdaterId, i, i');
      FirstRemoteAtUnique(remotes, UpdaterId, j, j');
    }
  }

  // ---------------------------------------------------------------------------
  // The ordinary update list

  /** `deps.Select(local => (local, repo.packages.FirstOrDefault(remote => local.name == remote.id)))` */
  function Join(deps: seq<LocalPackage>, remotes: seq<Package>): (r: seq<Joined>)
    ensures |r| == |deps|
    ensures forall i :: 0 <= i < |r| ==> r[i] == Joined(deps[i], FindRemote(remotes, deps[i].name))
  {
    if |deps| == 0 then []
    else [Joined(deps[0], FindRemote(remotes, deps[0].name))] + Join(deps[1..], remotes)
  }

  predicate HasRemote(j: Joined) { j.remote.Some? }

  predicate VersionDiffers(j: Joined) { j.remote.Some? && Some(j.local.version) != j.remote.value.latestVersion }

  predicate HasUrl(j: Joined) { j.remote.Some? && j.remote.value.latestUpmTargz.Some? }

  /**
   * The ordinary update list `urlsToAdd`: the join, then the three `Where`
   * stages (a remote exists, the version differs, an archive URL exists).
   */
  function UrlsToAdd(deps: seq<LocalPackage>, remotes: seq<Package>): (r: seq<Joined>)
    ensures |r| <= |deps|
    ensures forall a :: a in r ==> HasUrl(a)
  {
    var withRemote := Filter(Join(deps, remotes), HasRemote);
    var changed := Filter(withRemote, VersionDiffers);
    FilterMembership(changed, HasUrl);
    Filter(changed, HasUrl)
  }

  /** An installed package needs an ordinary update from `remotes`. */
  predicate Pending(remotes: seq<Package>, d: LocalPackage) {
    var r := FindRemote(remotes, d.name);
    r.Some? && Some(d.version) != r.value.latestVersion && r.value.latestUpmTargz.Some?
  }

  /** The installed packages an action list acts on, in order. */
  function Locals(acts: seq<Joined>): (r: seq<LocalPackage>)
    ensures |r| == |acts|
    ensures forall i :: 0 <= i < |acts| ==> r[i] == acts[i].local
  {
    if |acts| == 0 then [] else [acts[0].local] + Locals(acts[1..])
  }

  /** One stage of the pipeline peeled off the front of the join. */
  lemma {:induction false} UrlsToAddCons(deps: seq<LocalPackage>, remotes: seq<Package>)
    requires |deps| > 0
    ensures UrlsToAdd(deps, remotes) ==
      (if Pending(remotes, deps[0]) then [Joined(deps[0], FindRemote(remotes, deps[0].name))] else [])
      + UrlsToAdd(deps[1..], remotes)
  {
    var js := Join(deps, remotes);
    assert js[1..] == Join(deps[1..], remotes);
    var f1 := Filter(js, HasRemote);
    assert f1 == (if HasRemote(js[0]) then [js[0]] else []) + Filter(js[1..], HasRemote);
    var f2 := Filter(f1, VersionDiffers);
    var t1 := Filter(js[1..], HasRemote);
    if HasRemote(js[0]) {
      assert f1[0] == js[0] && f1[1..] == t1;
      assert f2 == (if VersionDiffers(js[0]) then [js[0]] else []) + Filter(t1, VersionDiffers);
      var t2 := Filter(t1, VersionDiffers);
      if VersionDiffers(js[0]) {
        assert f2[0] == js[0] && f2[1..] == t2;
      } else {
        assert f2 == t2;
      }
    } else {
      assert f1 == t1;
    }
  }

  /**
   * The ordinary list acts on exactly the installed packages that are
   * pending, in installed-list order, each paired with its first remote
   * entry, whose version differs and whose archive URL is present.
   */
  lemma {:induction false} UrlsToAddSpec(deps: seq<LocalPackage>, remotes: seq<Package>)
    ensures Locals(UrlsToAdd(deps, remotes)) == Filter(deps, d => Pending(remotes, d))
    ensures forall a :: a in UrlsToAdd(deps, remotes) ==>
      a.local in deps && a.remote == FindRemote(remotes, a.local.name) && a.remote.Some?
      && Some(a.local.version) != a.remote.value.latestVersion && a.remote.value.latestUpmTargz.Some?
    decreases |deps|
  {
    if |deps| > 0 {
      UrlsToAddCons(deps, remotes);
      UrlsToAddSpec(deps[1..], remotes);
      var head := if Pending(remotes, deps[0]) then [Joined(deps[0], FindRemote(remotes, deps[0].name))] else [];
      var rest := UrlsToAdd(deps[1..], remotes);
      var p := d => Pending(remotes, d);
      assert Filter(deps, p) == (if p(deps[0]) then [deps[0]] else []) + Filter(deps[1..], p);
      assert Locals(head + rest) == Locals(head) + Locals(rest);
      forall a | a in UrlsToAdd(deps, remotes)
        ensures a.local in deps
      {
        if a !in head {
          assert a in rest;
          assert a.local in deps[1..];
        }
      }
    }
  }

  /** An installed package gets an ordinary action if and only if it is pending. */
  lemma OrdinaryActionIff(deps: seq<LocalPackage>, remotes: seq<Package>, d: LocalPackage)
    requires d in deps
    ensures (exists a :: a in UrlsToAdd(deps, remotes) && a.local == d) <==> Pending(remotes, d)
  {
    UrlsToAddSpec(deps, remotes);
    var acts := UrlsToAdd(deps, remotes);
    var ls := Locals(acts);
    if Pending(remotes, d) {
      FilterMembership(deps, x => Pending(remotes, x));
      assert d in Filter(deps, x => Pending(remotes, x));
      var i :| 0 <= i < |ls| && ls[i] == d;
      assert acts[i] in acts && acts[i].local == d;
    }
  }

  /** An installed package with no remote entry of the same id is never acted on. */
  lemma UnmatchedNeverTouched(deps: seq<LocalPackage>, remotes: seq<Package>, d: LocalPackage)
    requires d in deps
    requires forall k :: 0 <= k < |remotes| ==> remotes[k].id != Some(d.name)
    ensures forall a :: a in UrlsToAdd(deps, remotes) ==> a.local != d
  {
    FindRemoteSpec(remotes, d.name);
    OrdinaryActionIff(deps, remotes, d);
  }

  /** Pending, stated over positions: the first remote with the same id has another version and a URL. */
  lemma PendingSpec(remotes: seq<Package>, d: LocalPackage)
    ensures Pending(remotes, d) <==>
      exists j :: FirstRemoteAt(remotes, d.name, j)
        && Some(d.version) != remotes[j].latestVersion && remotes[j].latestUpmTargz.Some?
  {
    FindRemoteSpec(remotes, d.name);
    if exists j :: FirstRemoteAt(remotes, d.name, j)
        && Some(d.version) != remotes[j].latestVersion && remotes[j].latestUpmTargz.Some? {
      var j :| FirstRemoteAt(remotes, d.name, j)
        && Some(d.version) != remotes[j].latestVersion && remotes[j].latestUpmTargz.Some?;
      var j' :| FirstRemoteAt(remotes, d.name, j') && remotes[j'] == FindRemote(remotes, d.name).value;
      FirstRemoteAtUnique(remotes, d.name, j, j');
    }
  }
}
