/**
 * Turning specifier strings into requirements: `resolve_specifier`,
 * `update_ireq_name`, `build_ireq_set` and the intersect step of
 * `resolve_ireqs`.
 */
module Resolution {
  import opened Wrappers
  import opened Strings
  import opened Externals
  import opened Sorting
  import opened Identity
  import opened IndexScanner

  /** The pip arguments naming the index URLs: `--extra-index-url <url>` for each, in order. */
  function IndexArgs(urls: seq<string>): (r: seq<string>)
    ensures |r| == 2 * |urls|
    ensures forall i :: 0 <= i < |urls| ==> r[2 * i] == "--extra-index-url" && r[2 * i + 1] == urls[i]
  {
    if urls == [] then [] else IndexArgs(urls[..|urls| - 1]) + ["--extra-index-url", urls[|urls| - 1]]
  }

  /** Whether `resolve_specifier` hands the parsed requirement back without a lookup. */
  predicate KeepsParsed(env: Env, ireq: Ireq, resolveVersions: bool)
  {
    ireq.data.editable || env.isPinned(ireq.data) || !resolveVersions
  }

  /**
   * `resolve_specifier`: the requirement parsed from the line, unless a
   * version lookup is wanted; the lookup's answer is a plain pip
   * requirement, and no candidate is `NoCandidateFound`.
   */
  function ResolveSpecifier(env: Env, specifier: string, prereleases: bool, resolveVersions: bool, args: seq<string>): Result<Ireq, Error>
  {
    var ireq := FromLine(env, specifier);
    if KeepsParsed(env, ireq, resolveVersions) then Success(ireq)
    else
      match env.findBestMatch(ireq.data, prereleases, args)
      case None => Failure(NoCandidateFound)
      case Some(best) => Success(Plain(best))
  }

  /**
   * An editable, an already pinned requirement, or one whose version is not
   * to be resolved comes back as parsed, whatever the lookup would answer.
   */
  lemma ResolveSkipsLookup(env: Env, specifier: string, prereleases: bool, resolveVersions: bool, args: seq<string>,
                           lookup: (InstallRequirement, bool, seq<string>) -> Option<InstallRequirement>)
    requires KeepsParsed(env, FromLine(env, specifier), resolveVersions)
    ensures ResolveSpecifier(env, specifier, prereleases, resolveVersions, args) == Success(FromLine(env, specifier))
    ensures ResolveSpecifier(env.(findBestMatch := lookup), specifier, prereleases, resolveVersions, args) ==
            ResolveSpecifier(env, specifier, prereleases, resolveVersions, args)
  {
  }

  /** Otherwise the result is the lookup's answer, and its absence is `NoCandidateFound`. */
  lemma ResolveConsultsLookup(env: Env, specifier: string, prereleases: bool, resolveVersions: bool, args: seq<string>)
    requires !KeepsParsed(env, FromLine(env, specifier), resolveVersions)
    ensures var best := env.findBestMatch(FromLine(env, specifier).data, prereleases, args);
      var r := ResolveSpecifier(env, specifier, prereleases, resolveVersions, args);
      (r.Success? <==> best.Some?) &&
      (r.Success? ==> r.value == Plain(best.value)) &&
      (r.Failure? ==> r.error == NoCandidateFound)
  {
  }

  /** Without version resolution, a specifier is its parsed requirement, pinned or not. */
  lemma UnresolvedVersionIsParsed(env: Env, specifier: string, prereleases: bool, args: seq<string>)
    ensures ResolveSpecifier(env, specifier, prereleases, false, args) == Success(FromLine(env, specifier))
    ensures ResolveSpecifier(env, specifier, prereleases, false, args).value.Hashable?
  {
  }

  /**
   * `update_ireq_name`: renames the requirement pip parsed; a requirement
   * without one (`req` is None, so `name` is None) cannot be renamed. The
   * new name is assigned to `req`, so `ireq.name` reads it back through
   * pip's `safe_name`.
   */
  function UpdateIreqName(env: Env, ireq: Ireq, packageName: string): (r: Result<Ireq, Error>)
  {
    if ireq.data.name.None? then Failure(AttributeError)
    else Success(ireq.(data := ireq.data.(name := Some(env.safeName(packageName)))))
  }

  /** Renaming succeeds exactly on named requirements, sets the name as pip normalises it and leaves everything else alone. */
  lemma UpdateIreqNameOnlyRenames(env: Env, ireq: Ireq, packageName: string)
    ensures UpdateIreqName(env, ireq, packageName).Success? <==> ireq.data.name.Some?
    ensures UpdateIreqName(env, ireq, packageName).Failure? ==> UpdateIreqName(env, ireq, packageName).error == AttributeError
    ensures UpdateIreqName(env, ireq, packageName).Success? ==>
      var r := UpdateIreqName(env, ireq, packageName).value;
      r.data.name == Some(env.safeName(packageName)) && r.Hashable? == ireq.Hashable? &&
      r.data.editable == ireq.data.editable && r.data.sourceDir == ireq.data.sourceDir &&
      r.data.link == ireq.data.link && r.data.details == ireq.data.details
  {
  }

  /** Renaming twice is renaming once to the second name. */
  lemma UpdateIreqNameLastWins(env: Env, ireq: Ireq, first: string, second: string)
    requires UpdateIreqName(env, ireq, first).Success?
    ensures UpdateIreqName(env, UpdateIreqName(env, ireq, first).value, second) == UpdateIreqName(env, ireq, second)
  {
  }

  /** `source_dir` made relative to the given directory, with the link following it; unchanged when it is not below it. */
  function RelocateSourceDir(env: Env, ireq: Ireq, base: string): Ireq
    requires ireq.data.sourceDir.Some?
  {
    match env.relativeTo(ireq.data.sourceDir.value, base)
    case None => ireq
    case Some(rel) => ireq.(data := ireq.data.(sourceDir := Some(rel), link := "file://" + rel))
  }

  /** The options `build_ireq_set` passes on. */
  datatype BuildOptions = BuildOptions(
    indexUrls: seq<string>,
    prereleases: bool,
    resolveCanonicalNames: bool,
    resolveSourceDir: Option<string>,
    resolveVersions: bool,
    sortSpecifiers: bool)

  /** What one pass of the loop of `build_ireq_set` makes of a specifier. */
  function BuildOne(env: Env, opts: BuildOptions, specifier: string): Result<Ireq, Error>
  {
    var resolved :=
      if StartsWith(specifier, "-e") then Success(FromLine(env, specifier))
      else ResolveSpecifier(env, specifier, opts.prereleases, opts.resolveVersions, IndexArgs(opts.indexUrls));
    match resolved
    case Failure(e) => Failure(e)
    case Success(ireq) =>
      if opts.resolveCanonicalNames && !ireq.data.editable then
        match CanonicalName(env.indexPage, ireq.data.name, opts.indexUrls)
        case Failure(e) => Failure(e)
        case Success(name) => UpdateIreqName(env, ireq, name)
      else if opts.resolveSourceDir.Some? && ireq.data.sourceDir.Some? && ireq.data.sourceDir.value != [] then
        Success(RelocateSourceDir(env, ireq, opts.resolveSourceDir.value))
      else Success(ireq)
  }

  /** The requirement made of each specifier, in order; the first failure ends the loop. */
  function BuildEach(env: Env, opts: BuildOptions, specifiers: seq<string>): Result<seq<Ireq>, Error>
  {
    if specifiers == [] then Success([])
    else
      match BuildEach(env, opts, specifiers[..|specifiers| - 1])
      case Failure(e) => Failure(e)
      case Success(built) =>
        match BuildOne(env, opts, specifiers[|specifiers| - 1])
        case Failure(e) => Failure(e)
        case Success(ireq) => Success(built + [ireq])
  }

  /** `sorted(specifiers)` when asked for. */
  function Ordered(specifiers: seq<string>, sort: bool): seq<string>
  {
    if sort then SortBy(specifiers, (s: string) => s) else specifiers
  }

  /** `build_ireq_set`: the requirements made of the specifiers, added to an ordered set. */
  function BuildIreqs(env: Env, opts: BuildOptions, specifiers: seq<string>): Result<seq<Ireq>, Error>
  {
    match BuildEach(env, opts, Ordered(specifiers, opts.sortSpecifiers))
    case Failure(e) => Failure(e)
    case Success(built) => Success(OrderedFrom(env, built))
  }

  /** `build_ireq_set`, its loops as written, the canonical name looked up index by index. */
  method BuildIreqSet(env: Env, specifiers: seq<string>, indexUrls: Option<seq<string>>, prereleases: bool,
                      resolveCanonicalNames: bool, resolveSourceDir: Option<string>, resolveVersions: bool,
                      sortSpecifiers: bool)
    returns (r: Result<seq<Ireq>, Error>)
    ensures r == BuildIreqs(env, BuildOptions(if indexUrls.Some? then indexUrls.value else [], prereleases,
                                              resolveCanonicalNames, resolveSourceDir, resolveVersions, sortSpecifiers),
                            specifiers)
  {
    var urls := if indexUrls.Some? then indexUrls.value else [];
    var opts := BuildOptions(urls, prereleases, resolveCanonicalNames, resolveSourceDir, resolveVersions, sortSpecifiers);
    var specs := specifiers;
    if sortSpecifiers {
      specs := SortBy(specifiers, (s: string) => s);
    }
    var installRequirements: seq<Ireq> := [];
    ghost var built: seq<Ireq> := [];
    assert specs == Ordered(specifiers, sortSpecifiers) && specs[..0] == [];
    for i := 0 to |specs|
      invariant BuildEach(env, opts, specs[..i]) == Success(built)
      invariant installRequirements == OrderedFrom(env, built)
    {
      var made := BuildSpecifier(env, opts, specs[i]);
      if made.Failure? {
        BuildFails(env, opts, specs, i, built, made.error);
        return Failure(made.error);
      }
      var ireq := made.value;
      BuildStep(env, opts, specs, i, built, ireq);
      installRequirements := Add(env, installRequirements, ireq);
      built := built + [ireq];
    }
    assert specs[..|specs|] == specs;
    assert BuildEach(env, opts, specs) == Success(built);
    return Success(installRequirements);
  }

  lemma BuildStep(env: Env, opts: BuildOptions, specs: seq<string>, i: nat, built: seq<Ireq>, ireq: Ireq)
    requires i < |specs| && BuildEach(env, opts, specs[..i]) == Success(built)
    requires BuildOne(env, opts, specs[i]) == Success(ireq)
    ensures BuildEach(env, opts, specs[..i + 1]) == Success(built + [ireq])
    ensures OrderedFrom(env, built + [ireq]) == Add(env, OrderedFrom(env, built), ireq)
  {
    assert specs[..i + 1][..i] == specs[..i];
    assert (built + [ireq])[..|built|] == built;
  }

  /** A specifier that fails after the earlier ones succeeded fails the whole loop with its error. */
  lemma BuildFails(env: Env, opts: BuildOptions, specs: seq<string>, i: nat, built: seq<Ireq>, e: Error)
    requires i < |specs| && BuildEach(env, opts, specs[..i]) == Success(built)
    requires BuildOne(env, opts, specs[i]) == Failure(e)
    ensures BuildEach(env, opts, specs) == Failure(e)
  {
    assert specs[..i + 1][..i] == specs[..i];
    assert BuildEach(env, opts, specs[..i + 1]) == Failure(e);
    BuildEachFailureSticks(env, opts, specs, i + 1);
  }

  /** Once a prefix of the specifiers fails, the whole loop fails the same way. */
  lemma {:induction false} BuildEachFailureSticks(env: Env, opts: BuildOptions, specifiers: seq<string>, k: nat)
    requires k <= |specifiers| && BuildEach(env, opts, specifiers[..k]).Failure?
    ensures BuildEach(env, opts, specifiers) == BuildEach(env, opts, specifiers[..k])
    decreases |specifiers| - k
  {
    if k < |specifiers| {
      assert specifiers[..k + 1][..k] == specifiers[..k];
      BuildEachFailureSticks(env, opts, specifiers, k + 1);
    } else {
      assert specifiers[..k] == specifiers;
    }
  }

  /** One pass of the loop of `build_ireq_set`. */
  method BuildSpecifier(env: Env, opts: BuildOptions, specifier: string) returns (r: Result<Ireq, Error>)
    ensures r == BuildOne(env, opts, specifier)
  {
    var ireq: Ireq;
    if StartsWith(specifier, "-e") {
      ireq := FromLine(env, specifier);
    } else {
      var args: seq<string> := [];
      for k := 0 to |opts.indexUrls|
        invariant args == IndexArgs(opts.indexUrls[..k])
      {
        assert opts.indexUrls[..k + 1][..k] == opts.indexUrls[..k];
        args := args + ["--extra-index-url", opts.indexUrls[k]];
      }
      assert opts.indexUrls[..|opts.indexUrls|] == opts.indexUrls;
      var resolved := ResolveSpecifier(env, specifier, opts.prereleases, opts.resolveVersions, args);
      if resolved.Failure? {
        return Failure(resolved.error);
      }
      ireq := resolved.value;
    }
    if opts.resolveCanonicalNames && !ireq.data.editable {
      var canonicalName := GetCanonicalName(env.indexPage, ireq.data.name, opts.indexUrls);
      if canonicalName.Failure? {
        return Failure(canonicalName.error);
      }
      r := UpdateIreqName(env, ireq, canonicalName.value);
    } else if opts.resolveSourceDir.Some? && ireq.data.sourceDir.Some? && ireq.data.sourceDir.value != [] {
      r := Success(RelocateSourceDir(env, ireq, opts.resolveSourceDir.value));
    } else {
      r := Success(ireq);
    }
  }

  /** Every requirement built comes from one of the specifiers, and there is one per specifier. */
  lemma {:induction false} BuildEachFromSpecifiers(env: Env, opts: BuildOptions, specifiers: seq<string>)
    ensures BuildEach(env, opts, specifiers).Success? ==>
      var built := BuildEach(env, opts, specifiers).value;
      |built| == |specifiers| &&
      forall i :: 0 <= i < |specifiers| ==> BuildOne(env, opts, specifiers[i]) == Success(built[i])
  {
    if specifiers != [] && BuildEach(env, opts, specifiers).Success? {
      var n := |specifiers|;
      var init := specifiers[..n - 1];
      var built := BuildEach(env, opts, specifiers).value;
      var prev := BuildEach(env, opts, init).value;
      assert built == prev + [BuildOne(env, opts, specifiers[n - 1]).value];
      BuildEachFromSpecifiers(env, opts, init);
      forall i | 0 <= i < n ensures BuildOne(env, opts, specifiers[i]) == Success(built[i]) {
        if i < n - 1 {
          assert specifiers[i] == init[i] && built[i] == prev[i];
        }
      }
    }
  }

  /** The loop stops at the first specifier that fails, with that specifier's error. */
  lemma BuildEachFirstFailure(env: Env, opts: BuildOptions, specifiers: seq<string>)
    requires BuildEach(env, opts, specifiers).Failure?
    ensures exists k :: (0 <= k < |specifiers| && BuildEach(env, opts, specifiers[..k]).Success? &&
      BuildOne(env, opts, specifiers[k]) == Failure(BuildEach(env, opts, specifiers).error))
  {
    assert specifiers[..0] == [];
    FirstFailureFrom(env, opts, specifiers, 0);
  }

  /** `BuildEachFirstFailure`, searching forward from a prefix that succeeded. */
  lemma {:induction false} FirstFailureFrom(env: Env, opts: BuildOptions, specifiers: seq<string>, i: nat)
    requires i <= |specifiers| && BuildEach(env, opts, specifiers[..i]).Success?
    ensures BuildEach(env, opts, specifiers).Failure? ==>
      exists k :: (i <= k < |specifiers| && BuildEach(env, opts, specifiers[..k]).Success? &&
        BuildOne(env, opts, specifiers[k]) == Failure(BuildEach(env, opts, specifiers).error))
    decreases |specifiers| - i
  {
    if i == |specifiers| {
      assert specifiers[..i] == specifiers;
    } else if BuildOne(env, opts, specifiers[i]).Failure? {
      BuildFails(env, opts, specifiers, i, BuildEach(env, opts, specifiers[..i]).value, BuildOne(env, opts, specifiers[i]).error);
    } else {
      BuildStep(env, opts, specifiers, i, BuildEach(env, opts, specifiers[..i]).value, BuildOne(env, opts, specifiers[i]).value);
      FirstFailureFrom(env, opts, specifiers, i + 1);
    }
  }

  /**
   * The built set keeps one requirement per rendering, holds only
   * requirements made of the specifiers, represents every hashable one by
   * its rendering and keeps every plain one (a looked-up version).
   */
  lemma BuildIreqsIsSet(env: Env, opts: BuildOptions, specifiers: seq<string>)
    requires BuildIreqs(env, opts, specifiers).Success?
    ensures var r := BuildIreqs(env, opts, specifiers).value;
      NoDupKeys(env, r) &&
      (forall y :: y in r ==> exists s :: s in specifiers && BuildOne(env, opts, s) == Success(y)) &&
      (forall s :: s in specifiers && BuildOne(env, opts, s).Success? && BuildOne(env, opts, s).value.Hashable? ==>
         Contains(env, r, BuildOne(env, opts, s).value)) &&
      (forall s :: s in specifiers && BuildOne(env, opts, s).Success? && BuildOne(env, opts, s).value.Plain? ==>
         BuildOne(env, opts, s).value in r)
  {
    var specs := Ordered(specifiers, opts.sortSpecifiers);
    assert multiset(specs) == multiset(specifiers) by {
      if opts.sortSpecifiers {
        SortByPermutes(specifiers, (s: string) => s);
      }
    }
    var built := BuildEach(env, opts, specs).value;
    BuildEachFromSpecifiers(env, opts, specs);
    OrderedFromIsSet(env, built);
    var r := OrderedFrom(env, built);
    forall y | y in r ensures exists s :: s in specifiers && BuildOne(env, opts, s) == Success(y) {
      var i :| 0 <= i < |built| && built[i] == y;
      assert specs[i] in multiset(specifiers);
    }
    forall s | s in specifiers && BuildOne(env, opts, s).Success?
      ensures BuildOne(env, opts, s).value in built
    {
      assert s in multiset(specs);
      var i :| 0 <= i < |specs| && specs[i] == s;
    }
  }

  /** An editable specifier never reaches the version lookup. */
  lemma EditableSkipsVersionLookup(env: Env, opts: BuildOptions, specifier: string,
                                   lookup: (InstallRequirement, bool, seq<string>) -> Option<InstallRequirement>)
    requires StartsWith(specifier, "-e")
    ensures BuildOne(env.(findBestMatch := lookup), opts, specifier) == BuildOne(env, opts, specifier)
  {
  }

  /** A requirement that parses as editable never reaches the index pages. */
  lemma EditableSkipsNameLookup(env: Env, opts: BuildOptions, specifier: string, pages: string -> seq<seq<HtmlEvent>>)
    requires StartsWith(specifier, "-e") && FromLine(env, specifier).data.editable
    ensures BuildOne(env.(indexPage := pages), opts, specifier) == BuildOne(env, opts, specifier)
  {
  }

  /** Specifiers all editable: building the set needs no version lookup at all. */
  lemma {:induction false} EditablesNeedNoVersionLookup(env: Env, opts: BuildOptions, specifiers: seq<string>,
                                                        lookup: (InstallRequirement, bool, seq<string>) -> Option<InstallRequirement>)
    requires forall s :: s in specifiers ==> StartsWith(s, "-e")
    ensures BuildEach(env.(findBestMatch := lookup), opts, specifiers) == BuildEach(env, opts, specifiers)
  {
    if specifiers != [] {
      var init := specifiers[..|specifiers| - 1];
      EditablesNeedNoVersionLookup(env, opts, init, lookup);
      EditableSkipsVersionLookup(env, opts, specifiers[|specifiers| - 1], lookup);
    }
  }

  /** With sorting on, the order the specifiers come in does not matter. */
  lemma SortedSpecifiersOrderIndependent(env: Env, opts: BuildOptions, a: seq<string>, b: seq<string>)
    requires opts.sortSpecifiers
    requires multiset(a) == multiset(b)
    ensures BuildIreqs(env, opts, a) == BuildIreqs(env, opts, b)
  {
    SortByOrderIndependent(a, b, (s: string) => s);
  }

  /** The same specifier twice, versions not looked up, gives a single requirement. */
  lemma RepeatedSpecifierAddedOnce(env: Env, opts: BuildOptions, specifier: string)
    requires !opts.resolveVersions && !opts.resolveCanonicalNames && opts.resolveSourceDir.None?
    ensures BuildIreqs(env, opts, [specifier, specifier]) == Success([FromLine(env, specifier)])
  {
    var x := FromLine(env, specifier);
    assert BuildOne(env, opts, specifier) == Success(x);
    var specs := Ordered([specifier, specifier], opts.sortSpecifiers);
    LessIrreflexive(specifier);
    assert [specifier, specifier][1..] == [specifier] && [specifier][1..] == [];
    assert SortBy([specifier], (s: string) => s) == [specifier];
    assert specs == [specifier, specifier];
    var one := [specifier];
    assert specs[..1] == one && one[..0] == [] && specs[..|specs| - 1] == one;
    assert BuildEach(env, opts, []) == Success([]);
    assert BuildEach(env, opts, one) == Success([] + [x]);
    assert BuildEach(env, opts, specs) == Success([] + [x] + [x]);
    assert [x, x][..1] == [x] && [x][..0] == [];
    assert OrderedFrom(env, [x]) == [x];
    assert Contains(env, [x], x);
  }

  /** `{HashableInstallRequirement.from_ireq(r) for r in ...}` */
  function HashableSet(env: Env, xs: seq<InstallRequirement>): seq<Ireq>
  {
    OrderedFrom(env, Hashables(xs))
  }

  /** The resolved set, kept only where the requested requirements also hold it. */
  function Intersect(env: Env, results: seq<Ireq>, requested: seq<Ireq>): seq<Ireq>
  {
    if results == [] then []
    else (if Contains(env, requested, results[0]) then [results[0]] else []) + Intersect(env, results[1..], requested)
  }

  /** The tail of `resolve_ireqs`: the resolver's answer as a set, intersected with the request when asked. */
  function ResolvedSet(env: Env, resolved: seq<InstallRequirement>, requested: seq<InstallRequirement>, intersect: bool): seq<Ireq>
  {
    var results := HashableSet(env, resolved);
    if intersect then Intersect(env, results, Hashables(requested)) else results
  }

  lemma {:induction false} IntersectMembers(env: Env, results: seq<Ireq>, requested: seq<Ireq>)
    ensures forall y :: y in Intersect(env, results, requested) <==> y in results && Contains(env, requested, y)
  {
    if results != [] {
      IntersectMembers(env, results[1..], requested);
      assert results == [results[0]] + results[1..];
    }
  }

  /**
   * A requirement's rendering is in the result exactly when the resolver
   * produced it and, when intersecting, the request held it too.
   */
  lemma ResolvedSetByRendering(env: Env, resolved: seq<InstallRequirement>, requested: seq<InstallRequirement>,
                               intersect: bool, x: Ireq)
    requires x.Hashable?
    ensures var r := ResolvedSet(env, resolved, requested, intersect);
      NoDupKeys(env, r) &&
      (Contains(env, r, x) <==>
        Contains(env, Hashables(resolved), x) && (intersect ==> Contains(env, Hashables(requested), x)))
  {
    HashableSetByRendering(env, resolved, x);
    if intersect {
      IntersectByRendering(env, HashableSet(env, resolved), Hashables(requested), x);
    }
  }

  /** The resolver's answer as a set: one element per rendering, and every rendering it produced. */
  lemma HashableSetByRendering(env: Env, resolved: seq<InstallRequirement>, x: Ireq)
    requires x.Hashable?
    ensures NoDupKeys(env, HashableSet(env, resolved))
    ensures Contains(env, HashableSet(env, resolved), x) <==> Contains(env, Hashables(resolved), x)
  {
    var hs := Hashables(resolved);
    var results := HashableSet(env, resolved);
    OrderedFromIsSet(env, hs);
    if Contains(env, results, x) {
      var i :| 0 <= i < |results| && results[i].Hashable? && Str(env, results[i]) == Str(env, x);
      assert results[i] in hs;
    }
  }

  /** `results & requested` on a set: still a set, holding a rendering exactly when both sides hold it. */
  lemma IntersectByRendering(env: Env, results: seq<Ireq>, requested: seq<Ireq>, x: Ireq)
    requires x.Hashable? && NoDupKeys(env, results)
    ensures NoDupKeys(env, Intersect(env, results, requested))
    ensures Contains(env, Intersect(env, results, requested), x) <==> Contains(env, results, x) && Contains(env, requested, x)
  {
    var r := Intersect(env, results, requested);
    IntersectMembers(env, results, requested);
    IntersectKeepsSet(env, results, requested);
    if Contains(env, r, x) {
      var i :| 0 <= i < |r| && r[i].Hashable? && Str(env, r[i]) == Str(env, x);
      assert r[i] in results;
      var k :| 0 <= k < |results| && results[k] == r[i];
      var j :| 0 <= j < |requested| && requested[j].Hashable? && Str(env, requested[j]) == Str(env, r[i]);
    }
    if Contains(env, results, x) && Contains(env, requested, x) {
      var k :| 0 <= k < |results| && results[k].Hashable? && Str(env, results[k]) == Str(env, x);
      assert Contains(env, requested, results[k]);
      assert results[k] in r;
      var m :| 0 <= m < |r| && r[m] == results[k];
    }
  }

  /** Filtering keeps every surviving pair of elements in their relative order, so no rendering repeats. */
  lemma {:induction false} IntersectKeepsSet(env: Env, results: seq<Ireq>, requested: seq<Ireq>)
    requires NoDupKeys(env, results)
    ensures NoDupKeys(env, Intersect(env, results, requested))
  {
    if results != [] {
      var tail := results[1..];
      assert NoDupKeys(env, tail) by {
        forall i, j | 0 <= i < j < |tail| && tail[i].Hashable? && tail[j].Hashable? ensures Str(env, tail[i]) != Str(env, tail[j]) {
          assert tail[i] == results[i + 1] && tail[j] == results[j + 1];
        }
      }
      IntersectKeepsSet(env, tail, requested);
      IntersectMembers(env, tail, requested);
      var rest := Intersect(env, tail, requested);
      var r := Intersect(env, results, requested);
      if Contains(env, requested, results[0]) && results[0].Hashable? {
        forall j | 0 <= j < |rest| && rest[j].Hashable? ensures Str(env, results[0]) != Str(env, rest[j]) {
          assert rest[j] in tail;
          var k :| 0 <= k < |tail| && tail[k] == rest[j];
          assert results[k + 1] == rest[j];
        }
      }
    }
  }
}
