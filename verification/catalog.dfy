/**
 * Which apps are installed (`get_supported_apps`) and where an algorithm of an app is
 * looked up (`get_app_alg`).
 */
module Catalog {
  import opened Strings

  /** A directory entry starting with `.` or `_` is not an app. */
  predicate IsHidden(name: string)
    requires |name| > 0
  {
    name[0] in {'.', '_'}
  }

  /** `xs` is `ys` with some elements dropped and the rest kept in order. */
  ghost predicate IsSubsequence(xs: seq<string>, ys: seq<string>)
    decreases |ys|
  {
    || xs == []
    || (ys != [] && ((xs[0] == ys[0] && IsSubsequence(xs[1..], ys[1..])) || IsSubsequence(xs, ys[1..])))
  }

  /**
   * The apps among the sub-directory names of the apps root (which the file system lists,
   * never with an empty name): every name not starting with `.` or `_`, in the order given.
   */
  function SupportedApps(dirs: seq<string>): (apps: seq<string>)
    requires forall i :: 0 <= i < |dirs| ==> |dirs[i]| > 0
    ensures forall i :: 0 <= i < |apps| ==> |apps[i]| > 0 && !IsHidden(apps[i])
    ensures IsSubsequence(apps, dirs)
  {
    if dirs == [] then []
    else
      var rest := SupportedApps(dirs[1..]);
      assert dirs == [dirs[0]] + dirs[1..];
      if IsHidden(dirs[0]) then
        assert IsSubsequence(rest, dirs);
        rest
      else
        var apps := [dirs[0]] + rest;
        assert apps[0] == dirs[0] && apps[1..] == rest;
        assert IsSubsequence(apps, dirs);
        apps
  }

  /**
   * Each name occurs among the apps as often as among the entries when it is an app name,
   * and not at all otherwise: the filter drops hidden entries and only those.
   */
  lemma {:induction false} SupportedAppsCount(dirs: seq<string>, d: string)
    requires forall i :: 0 <= i < |dirs| ==> |dirs[i]| > 0
    ensures multiset(SupportedApps(dirs))[d] == if d in dirs && !IsHidden(d) then multiset(dirs)[d] else 0
  {
    if dirs != [] {
      var rest := dirs[1..];
      SupportedAppsCount(rest, d);
      assert dirs == [dirs[0]] + rest;
      assert multiset(dirs) == multiset{dirs[0]} + multiset(rest);
      if IsHidden(dirs[0]) {
        assert SupportedApps(dirs) == SupportedApps(rest);
      } else {
        assert SupportedApps(dirs) == [dirs[0]] + SupportedApps(rest);
        assert multiset(SupportedApps(dirs)) == multiset{dirs[0]} + multiset(SupportedApps(rest));
      }
    }
  }

  /** An entry is an app exactly when it is listed and does not start with `.` or `_`. */
  lemma SupportedAppsMembers(dirs: seq<string>, d: string)
    requires forall i :: 0 <= i < |dirs| ==> |dirs[i]| > 0
    ensures d in SupportedApps(dirs) <==> d in dirs && !IsHidden(d)
  {
    SupportedAppsCount(dirs, d);
    var apps := SupportedApps(dirs);
    assert d in dirs ==> multiset(dirs)[d] > 0;
    assert d in apps <==> multiset(apps)[d] > 0;
  }

  /** Filtering the list of apps again removes nothing. */
  lemma {:induction false} SupportedAppsIdempotent(dirs: seq<string>)
    requires forall i :: 0 <= i < |dirs| ==> |dirs[i]| > 0
    ensures SupportedApps(SupportedApps(dirs)) == SupportedApps(dirs)
  {
    if dirs != [] {
      SupportedAppsIdempotent(dirs[1..]);
    }
  }

  /** Filtering two listings one after the other is filtering their concatenation. */
  lemma {:induction false} SupportedAppsConcat(a: seq<string>, b: seq<string>)
    requires forall i :: 0 <= i < |a| ==> |a[i]| > 0
    requires forall i :: 0 <= i < |b| ==> |b[i]| > 0
    ensures SupportedApps(a + b) == SupportedApps(a) + SupportedApps(b)
  {
    if a == [] {
      assert a + b == b;
    } else {
      assert (a + b)[1..] == a[1..] + b;
      SupportedAppsConcat(a[1..], b);
    }
  }

  /** A root holding `A`, `B`, `_hidden` and `.git` offers the apps `A` and `B`. */
  lemma SupportedAppsExample()
    ensures SupportedApps(["A", "B", "_hidden", ".git"]) == ["A", "B"]
  {
    var hidden: seq<string> := ["_hidden", ".git"];
    assert IsHidden(hidden[0]) && IsHidden(hidden[1]);
    assert SupportedApps(hidden) == [] by {
      assert hidden[1..] == [".git"] && [".git"][1..] == [];
    }
    var dirs: seq<string> := ["A", "B"] + hidden;
    assert dirs[1..] == ["B"] + hidden && dirs[1..][1..] == hidden;
  }

  /** The package holding the algorithms of an app. */
  function AlgsPackage(appId: string): (p: string)
  {
    "apps." + appId + ".algs."
  }

  /**
   * The module path an algorithm is imported from: inside the `algs` package of its own app.
   */
  function AlgModulePath(appId: string, algId: string): (path: string)
    ensures |path| == |AlgsPackage(appId)| + |algId|
    ensures path[..|AlgsPackage(appId)|] == AlgsPackage(appId)
    ensures path[|AlgsPackage(appId)|..] == algId
  {
    "apps." + Join(appId, '.', "algs." + algId)
  }

  /**
   * An algorithm path lies under the package `apps.<app>.` of exactly one app: its owner.
   * App identifiers are Python package names and hold no dot.
   */
  lemma AlgModulePathScoped(appId: string, algId: string, other: string)
    requires '.' !in appId && '.' !in other
    ensures ("apps." + other + ".") <= AlgModulePath(appId, algId) <==> other == appId
  {
    var path := AlgModulePath(appId, algId);
    var prefix := "apps." + other + ".";
    if prefix <= path {
      var rest := path[|prefix|..];
      assert path == "apps." + Join(other, '.', rest);
      assert path[5..] == Join(other, '.', rest);
      assert path[5..] == Join(appId, '.', "algs." + algId);
      JoinInjective(other, rest, appId, "algs." + algId, '.');
    }
  }

  /** Two (app, algorithm) pairs share a module path only when they are the same pair. */
  lemma AlgModulePathInjective(app1: string, alg1: string, app2: string, alg2: string)
    requires '.' !in app1 && '.' !in app2
    ensures AlgModulePath(app1, alg1) == AlgModulePath(app2, alg2) <==> app1 == app2 && alg1 == alg2
  {
    var p1, p2 := AlgModulePath(app1, alg1), AlgModulePath(app2, alg2);
    if p1 == p2 {
      assert p1[5..] == Join(app1, '.', "algs." + alg1);
      assert p2[5..] == Join(app2, '.', "algs." + alg2);
      JoinInjective(app1, "algs." + alg1, app2, "algs." + alg2, '.');
      assert alg1 == ("algs." + alg1)[5..];
    }
  }
}
