/**
 * `RequirementFile`: a requirements source file, its index URLs and the
 * files it includes with `-r` (nested requirement files) and `-c` (nested
 * constraint files).
 *
 * The pure functions describe what loading a file yields, nested files
 * included; the class holds the same attributes the Python object holds and
 * its methods are proved to produce them.
 */
module RequirementFiles {
  import opened Wrappers
  import opened Strings
  import opened Externals
  import opened Sorting
  import opened Identity

  /** An include declared on a line: a nested requirements (`-r`) or constraints (`-c`) file. */
  datatype Include = Rfile(path: string) | Cfile(path: string)

  /**
   * The include one line declares, resolved against the directory of the
   * including file: comment lines declare none, and `-r` wins over `-c`.
   */
  function Classify(env: Env, dir: string, line: string): Option<Include>
  {
    if StartsWith(line, "#") then None
    else
      var opts := env.lineOptions(line);
      if opts.requirements != [] then Some(Rfile(env.join(dir, opts.requirements[0])))
      else if opts.constraints != [] then Some(Cfile(env.join(dir, opts.constraints[0])))
      else None
  }

  /**
   * The includes of a file's lines, in line order, each line parsed on its
   * own: the intended reading of `parse_nested_files`, which the loading
   * functions and methods below follow (`IncludesAsWritten` is the loop as
   * written).
   */
  function Includes(env: Env, dir: string, lines: seq<string>): seq<Include>
  {
    if lines == [] then []
    else
      (match Classify(env, dir, lines[0]) case None => [] case Some(inc) => [inc]) + Includes(env, dir, lines[1..])
  }

  lemma {:induction false} IncludesAppend(env: Env, dir: string, a: seq<string>, b: seq<string>)
    ensures Includes(env, dir, a + b) == Includes(env, dir, a) + Includes(env, dir, b)
  {
    if a != [] {
      assert (a + b)[0] == a[0] && (a + b)[1..] == a[1..] + b;
      IncludesAppend(env, dir, a[1..], b);
      var head := match Classify(env, dir, a[0]) case None => [] case Some(inc) => [inc];
      assert Includes(env, dir, a + b) == head + Includes(env, dir, a[1..] + b);
      assert Includes(env, dir, a) == head + Includes(env, dir, a[1..]);
    } else {
      assert a + b == b;
    }
  }

  /** A comment line, wherever it stands, declares nothing. */
  lemma CommentLineIgnored(env: Env, dir: string, before: seq<string>, comment: string, after: seq<string>)
    requires StartsWith(comment, "#")
    ensures Includes(env, dir, before + [comment] + after) == Includes(env, dir, before + after)
  {
    IncludesAppend(env, dir, before + [comment], after);
    IncludesAppend(env, dir, before, [comment]);
    IncludesAppend(env, dir, before, after);
    assert [comment][1..] == [];
  }

  /** Every include comes from a line that declares it, and every declaring line contributes its include. */
  lemma {:induction false} IncludesFromLines(env: Env, dir: string, lines: seq<string>)
    ensures forall inc :: inc in Includes(env, dir, lines) ==> exists l :: l in lines && Classify(env, dir, l) == Some(inc)
    ensures forall l :: l in lines && Classify(env, dir, l).Some? ==> Classify(env, dir, l).value in Includes(env, dir, lines)
  {
    if lines != [] {
      IncludesFromLines(env, dir, lines[1..]);
      assert lines == [lines[0]] + lines[1..];
      forall inc | inc in Includes(env, dir, lines) ensures exists l :: l in lines && Classify(env, dir, l) == Some(inc) {
        if inc !in Includes(env, dir, lines[1..]) {
          assert Classify(env, dir, lines[0]) == Some(inc);
        } else {
          var l :| l in lines[1..] && Classify(env, dir, l) == Some(inc);
          assert l in lines;
        }
      }
    }
  }

  /**
   * The loop of `parse_nested_files` as written: one option parser and one
   * defaults object serve every line, and the `append` action of `-r` and
   * `-c` adds to lists held by those defaults, so values seen on earlier
   * lines are still there when a later line is classified.
   */
  function IncludesAsWritten(env: Env, dir: string, lines: seq<string>, seenR: seq<string>, seenC: seq<string>): seq<Include>
  {
    if lines == [] then []
    else if StartsWith(lines[0], "#") then IncludesAsWritten(env, dir, lines[1..], seenR, seenC)
    else
      var opts := env.lineOptions(lines[0]);
      var r, c := seenR + opts.requirements, seenC + opts.constraints;
      (if r != [] then [Rfile(env.join(dir, r[0]))] else if c != [] then [Cfile(env.join(dir, c[0]))] else [])
        + IncludesAsWritten(env, dir, lines[1..], r, c)
  }

  /**
   * After a `-r` line, every later non-comment line repeats that include and
   * a `-c` line is never recorded; parsing each line on its own records one
   * include per declaring line.
   */
  lemma AccumulatedOptionsRepeatInclude(env: Env, dir: string)
    requires env.lineOptions("-r base.in\n") == LineOptions(["base.in"], [])
    requires env.lineOptions("-c constraints.txt\n") == LineOptions([], ["constraints.txt"])
    requires env.lineOptions("flask\n") == LineOptions([], [])
    ensures var lines := ["-r base.in\n", "-c constraints.txt\n", "flask\n"];
      var base := Rfile(env.join(dir, "base.in"));
      IncludesAsWritten(env, dir, lines, [], []) == [base, base, base] &&
      Includes(env, dir, lines) == [base, Cfile(env.join(dir, "constraints.txt"))]
  {
    var lines := ["-r base.in\n", "-c constraints.txt\n", "flask\n"];
    assert lines[0][0] == '-' && lines[1][0] == '-' && lines[2][0] == 'f';
    assert !StartsWith(lines[0], "#") && !StartsWith(lines[1], "#") && !StartsWith(lines[2], "#");
    assert lines[1..] == ["-c constraints.txt\n", "flask\n"] && lines[1..][1..] == ["flask\n"] && lines[1..][1..][1..] == [];
    var base := Rfile(env.join(dir, "base.in"));
    var cons := Cfile(env.join(dir, "constraints.txt"));
    var none: seq<string> := [];
    assert none + none == none;
    assert [] + ["base.in"] == ["base.in"] && ["base.in"] + [] == ["base.in"] && [] + ["constraints.txt"] == ["constraints.txt"];
    assert IncludesAsWritten(env, dir, lines[1..][1..], ["base.in"], ["constraints.txt"]) == [base];
    assert IncludesAsWritten(env, dir, lines[1..], ["base.in"], []) == [base, base];
    assert IncludesAsWritten(env, dir, lines, [], []) == [base, base, base];
    assert Classify(env, dir, lines[2]) == None;
    assert Includes(env, dir, lines[1..][1..]) == [];
    assert Classify(env, dir, lines[1]) == Some(cons);
    assert Includes(env, dir, lines[1..]) == [cons];
    assert Classify(env, dir, lines[0]) == Some(base);
  }

  /** What loading a file yields, its nested files loaded in turn. */
  datatype Loaded = Loaded(
    path: string,
    requirements: seq<Ireq>,
    indexUrls: seq<string>,
    cfiles: seq<Loaded>,
    rfiles: seq<Loaded>)

  datatype Nested = Nested(cfiles: seq<Loaded>, rfiles: seq<Loaded>)

  /** The requirements of the nested requirement files, chained. */
  function NestedRequirements(rfiles: seq<Loaded>): seq<Ireq>
  {
    if rfiles == [] then []
    else NestedRequirements(rfiles[..|rfiles| - 1]) + rfiles[|rfiles| - 1].requirements
  }

  /** The requirements `parse` keeps: pip's, ordered by `str`, de-duplicated, minus the nested files' ones. */
  function ParsedRequirements(env: Env, pipRequirements: seq<InstallRequirement>, rfiles: seq<Loaded>): seq<Ireq>
  {
    Subtract(env, OrderedFrom(env, SortBy(Hashables(pipRequirements), StrKey(env))), NestedRequirements(rfiles))
  }

  /**
   * `RequirementFile(path)`: a path that does not exist gives an empty
   * file; one that does is parsed.
   */
  function LoadFile(env: Env, disk: Disk, path: string, budget: nat): Result<Loaded, Error>
    decreases budget, 3, 0
  {
    if !Exists(disk, path) then Success(Loaded(path, [], [], [], []))
    else ParseFile(env, disk, path, budget)
  }

  /** `parse` on an existing path. */
  function ParseFile(env: Env, disk: Disk, path: string, budget: nat): Result<Loaded, Error>
    decreases budget, 2, 0
  {
    match NestedOf(env, disk, path, budget)
    case Failure(e) => Failure(e)
    case Success(n) =>
      var pip := env.pipParse(disk, path);
      Success(Loaded(path, ParsedRequirements(env, pip.requirements, n.rfiles), Dedup(pip.indexUrls), n.cfiles, n.rfiles))
  }

  /** `parse_nested_files`, with the includes of `Includes`: opening the file fails unless it is a file. */
  function NestedOf(env: Env, disk: Disk, path: string, budget: nat): Result<Nested, Error>
    decreases budget, 1, 0
  {
    if path !in disk.files then Failure(IOError)
    else LoadIncludes(env, disk, Includes(env, env.parent(path), SplitLines(disk.files[path])), budget)
  }

  /**
   * Loads the included files in order; the first failure wins. Each level of
   * nesting uses up one unit of the interpreter's recursion headroom, and
   * none left is a `RecursionError`, which is how a cycle of includes ends.
   */
  function LoadIncludes(env: Env, disk: Disk, incs: seq<Include>, budget: nat): Result<Nested, Error>
    decreases budget, 0, |incs|
  {
    if incs == [] then Success(Nested([], []))
    else if budget == 0 then Failure(RecursionError)
    else
      match LoadFile(env, disk, incs[0].path, budget - 1)
      case Failure(e) => Failure(e)
      case Success(l) =>
        match LoadIncludes(env, disk, incs[1..], budget)
        case Failure(e) => Failure(e)
        case Success(n) =>
          Success(if incs[0].Rfile? then Nested(n.cfiles, [l] + n.rfiles) else Nested([l] + n.cfiles, n.rfiles))
  }

  /** The includes from line `i` on: that line's own, then the rest's. */
  lemma IncludesFrom(env: Env, dir: string, lines: seq<string>, i: int)
    requires 0 <= i < |lines|
    ensures Includes(env, dir, lines[i..]) ==
      (match Classify(env, dir, lines[i]) case None => [] case Some(inc) => [inc]) + Includes(env, dir, lines[i + 1..])
  {
    assert lines[i..][0] == lines[i] && lines[i..][1..] == lines[i + 1..];
  }

  /** The gathered values with one more loaded file, in the list its include's kind belongs to. */
  function Grown(got: Nested, inc: Include, l: Loaded): Nested
  {
    if inc.Rfile? then Nested(got.cfiles, got.rfiles + [l]) else Nested(got.cfiles + [l], got.rfiles)
  }

  /** Loaded values already gathered, in front of what the remaining includes yield. */
  function Glue(got: Nested, rest: Result<Nested, Error>): Result<Nested, Error>
  {
    match rest
    case Failure(e) => Failure(e)
    case Success(n) => Success(Nested(got.cfiles + n.cfiles, got.rfiles + n.rfiles))
  }

  lemma GlueLoaded(env: Env, disk: Disk, got: Nested, inc: Include, rest: seq<Include>, budget: nat)
    requires budget > 0 && LoadFile(env, disk, inc.path, budget - 1).Success?
    ensures Glue(got, LoadIncludes(env, disk, [inc] + rest, budget)) ==
      Glue(Grown(got, inc, LoadFile(env, disk, inc.path, budget - 1).value), LoadIncludes(env, disk, rest, budget))
  {
    assert ([inc] + rest)[0] == inc && ([inc] + rest)[1..] == rest;
    var l := LoadFile(env, disk, inc.path, budget - 1).value;
    match LoadIncludes(env, disk, rest, budget)
    case Failure(e) =>
    case Success(n) =>
      assert got.rfiles + ([l] + n.rfiles) == got.rfiles + [l] + n.rfiles;
      assert got.cfiles + ([l] + n.cfiles) == got.cfiles + [l] + n.cfiles;
  }

  lemma GlueFailed(env: Env, disk: Disk, got: Nested, inc: Include, rest: seq<Include>, budget: nat)
    requires budget > 0 && LoadFile(env, disk, inc.path, budget - 1).Failure?
    ensures Glue(got, LoadIncludes(env, disk, [inc] + rest, budget)) == Failure(LoadFile(env, disk, inc.path, budget - 1).error)
  {
    assert ([inc] + rest)[0] == inc;
  }

  lemma GlueNothing(rest: Result<Nested, Error>)
    ensures Glue(Nested([], []), rest) == rest
  {
    if rest.Success? {
      assert [] + rest.value.cfiles == rest.value.cfiles && [] + rest.value.rfiles == rest.value.rfiles;
    }
  }

  lemma GlueNoBudget(env: Env, disk: Disk, got: Nested, inc: Include, rest: seq<Include>)
    ensures Glue(got, LoadIncludes(env, disk, [inc] + rest, 0)) == Failure(RecursionError)
  {
  }

  /** A line that declares no include leaves what is still to be loaded unchanged. */
  lemma SkipLine(env: Env, disk: Disk, dir: string, lines: seq<string>, i: nat, got: Nested, budget: nat,
                 whole: Result<Nested, Error>)
    requires i < |lines| && Classify(env, dir, lines[i]).None?
    requires whole == Glue(got, LoadIncludes(env, disk, Includes(env, dir, lines[i..]), budget))
    ensures whole == Glue(got, LoadIncludes(env, disk, Includes(env, dir, lines[i + 1..]), budget))
  {
    IncludesFrom(env, dir, lines, i);
    assert Includes(env, dir, lines[i..]) == [] + Includes(env, dir, lines[i + 1..]);
    assert [] + Includes(env, dir, lines[i + 1..]) == Includes(env, dir, lines[i + 1..]);
  }

  /** A line whose include loads moves the loaded file in front of what is still to be loaded. */
  lemma TakeLine(env: Env, disk: Disk, dir: string, lines: seq<string>, i: nat, inc: Include, got: Nested, budget: nat,
                 whole: Result<Nested, Error>)
    requires i < |lines| && Classify(env, dir, lines[i]) == Some(inc) && budget > 0
    requires LoadFile(env, disk, inc.path, budget - 1).Success?
    requires whole == Glue(got, LoadIncludes(env, disk, Includes(env, dir, lines[i..]), budget))
    ensures whole == Glue(Grown(got, inc, LoadFile(env, disk, inc.path, budget - 1).value),
                          LoadIncludes(env, disk, Includes(env, dir, lines[i + 1..]), budget))
  {
    IncludesFrom(env, dir, lines, i);
    GlueLoaded(env, disk, got, inc, Includes(env, dir, lines[i + 1..]), budget);
  }

  /** A line whose include cannot be loaded ends the loop with that error. */
  lemma FailLine(env: Env, disk: Disk, dir: string, lines: seq<string>, i: nat, inc: Include, got: Nested, budget: nat,
                 whole: Result<Nested, Error>)
    requires i < |lines| && Classify(env, dir, lines[i]) == Some(inc)
    requires budget > 0 ==> LoadFile(env, disk, inc.path, budget - 1).Failure?
    requires whole == Glue(got, LoadIncludes(env, disk, Includes(env, dir, lines[i..]), budget))
    ensures whole == if budget == 0 then Failure(RecursionError) else Failure(LoadFile(env, disk, inc.path, budget - 1).error)
  {
    IncludesFrom(env, dir, lines, i);
    var rest := Includes(env, dir, lines[i + 1..]);
    if budget == 0 {
      GlueNoBudget(env, disk, got, inc, rest);
    } else {
      GlueFailed(env, disk, got, inc, rest, budget);
    }
  }



  function RfilePaths(incs: seq<Include>): seq<string>
  {
    if incs == [] then [] else (if incs[0].Rfile? then [incs[0].path] else []) + RfilePaths(incs[1..])
  }

  function CfilePaths(incs: seq<Include>): seq<string>
  {
    if incs == [] then [] else (if incs[0].Cfile? then [incs[0].path] else []) + CfilePaths(incs[1..])
  }

  function Paths(ls: seq<Loaded>): seq<string>
  {
    if ls == [] then [] else [ls[0].path] + Paths(ls[1..])
  }

  /** A file that does not exist loads as an empty file with nothing nested. */
  lemma MissingFileIsEmpty(env: Env, disk: Disk, path: string, budget: nat)
    requires !Exists(disk, path)
    ensures LoadFile(env, disk, path, budget) == Success(Loaded(path, [], [], [], []))
  {
  }

  /** A loaded file carries the path it was loaded from. */
  lemma LoadedPath(env: Env, disk: Disk, path: string, budget: nat)
    requires LoadFile(env, disk, path, budget).Success?
    ensures LoadFile(env, disk, path, budget).value.path == path
  {
    if Exists(disk, path) {
      var n := NestedOf(env, disk, path, budget);
      assert n.Success?;
    }
  }

  /** The nested files loaded are the included paths, each kind in line order. */
  lemma {:induction false} LoadIncludesPaths(env: Env, disk: Disk, incs: seq<Include>, budget: nat)
    requires LoadIncludes(env, disk, incs, budget).Success?
    ensures Paths(LoadIncludes(env, disk, incs, budget).value.rfiles) == RfilePaths(incs)
    ensures Paths(LoadIncludes(env, disk, incs, budget).value.cfiles) == CfilePaths(incs)
    decreases |incs|
  {
    if incs != [] {
      LoadIncludesPaths(env, disk, incs[1..], budget);
      var l := LoadFile(env, disk, incs[0].path, budget - 1).value;
      LoadedPath(env, disk, incs[0].path, budget - 1);
      var n := LoadIncludes(env, disk, incs[1..], budget).value;
      assert ([l] + n.rfiles)[1..] == n.rfiles && ([l] + n.cfiles)[1..] == n.cfiles;
    }
  }

  /**
   * A parsed file's requirements ascend strictly by `str` (so no two share
   * a rendering), none is held by a nested requirements file, and every
   * requirement pip read is kept unless a nested requirements file holds it.
   */
  lemma ParsedRequirementsSpec(env: Env, pipRequirements: seq<InstallRequirement>, rfiles: seq<Loaded>)
    ensures var r := ParsedRequirements(env, pipRequirements, rfiles);
      StrictlySortedBy(r, StrKey(env)) &&
      (forall x :: x in r ==> x.Hashable? && x.data in pipRequirements && !Contains(env, NestedRequirements(rfiles), x)) &&
      (forall p :: p in pipRequirements && !Contains(env, NestedRequirements(rfiles), Hashable(p)) ==> Contains(env, r, Hashable(p)))
  {
    var set_ := OrderedFrom(env, SortBy(Hashables(pipRequirements), StrKey(env)));
    var nested := NestedRequirements(rfiles);
    PipRequirementSet(env, pipRequirements);
    SubtractKeepsStrictOrder(env, set_, nested);
    SubtractMembers(env, set_, nested);
    var r := Subtract(env, set_, nested);
    forall p | p in pipRequirements && !Contains(env, nested, Hashable(p)) ensures Contains(env, r, Hashable(p)) {
      var i :| 0 <= i < |set_| && set_[i].Hashable? && Str(env, set_[i]) == Str(env, Hashable(p));
      assert !Contains(env, nested, set_[i]);
      assert set_[i] in r;
      var j :| 0 <= j < |r| && r[j] == set_[i];
    }
  }

  /** pip's requirements, sorted by `str` and put in an ordered set: strictly ascending, all pip's, none lost. */
  lemma PipRequirementSet(env: Env, pipRequirements: seq<InstallRequirement>)
    ensures var set_ := OrderedFrom(env, SortBy(Hashables(pipRequirements), StrKey(env)));
      StrictlySortedBy(set_, StrKey(env)) &&
      (forall x :: x in set_ ==> x.Hashable? && x.data in pipRequirements) &&
      (forall p :: p in pipRequirements ==> Contains(env, set_, Hashable(p)))
  {
    var hs := Hashables(pipRequirements);
    var sorted := SortBy(hs, StrKey(env));
    SortedHashables(env, pipRequirements);
    OrderedFromStrictlySorted(env, sorted);
    OrderedFromIsSet(env, sorted);
  }

  /** The sorted wrapped requirements: ascending, each a wrapped pip requirement, and every pip requirement among them. */
  lemma SortedHashables(env: Env, pipRequirements: seq<InstallRequirement>)
    ensures var sorted := SortBy(Hashables(pipRequirements), StrKey(env));
      SortedBy(sorted, StrKey(env)) &&
      (forall i :: 0 <= i < |sorted| ==> sorted[i].Hashable? && sorted[i].data in pipRequirements) &&
      (forall p :: p in pipRequirements ==> Hashable(p) in sorted)
  {
    var hs := Hashables(pipRequirements);
    var sorted := SortBy(hs, StrKey(env));
    SortBySorted(hs, StrKey(env));
    SortByPermutes(hs, StrKey(env));
    forall i | 0 <= i < |sorted| ensures sorted[i].Hashable? && sorted[i].data in pipRequirements {
      assert sorted[i] in multiset(hs);
    }
    forall p | p in pipRequirements ensures Hashable(p) in sorted {
      var k :| 0 <= k < |pipRequirements| && pipRequirements[k] == p;
      assert hs[k] == Hashable(p);
      assert Hashable(p) in multiset(sorted);
    }
  }

  /** Nested requirement files loaded from nothing contribute nothing to subtract. */
  lemma NoNestedFilesKeepsAll(env: Env, pipRequirements: seq<InstallRequirement>)
    ensures ParsedRequirements(env, pipRequirements, []) == OrderedFrom(env, SortBy(Hashables(pipRequirements), StrKey(env)))
  {
    SubtractNothing(env, OrderedFrom(env, SortBy(Hashables(pipRequirements), StrKey(env))));
  }

  lemma {:induction false} SubtractNothing(env: Env, s: seq<Ireq>)
    ensures Subtract(env, s, []) == s
  {
    if s != [] {
      SubtractNothing(env, s[1..]);
      assert s == [s[0]] + s[1..];
    }
  }

  /** `index_url`: the first index URL, or None when there is none. */
  function IndexUrlOf(urls: seq<string>): Option<string>
  {
    if |urls| > 0 then Some(urls[0]) else None
  }

  /** `extra_index_urls`: every index URL after the first; none when there are at most one. */
  function ExtraIndexUrlsOf(urls: seq<string>): seq<string>
  {
    if |urls| > 1 then urls[1..] else []
  }

  /** The primary and the extra index URLs together are the index URLs, in order. */
  lemma IndexUrlViewsPartition(urls: seq<string>)
    ensures IndexUrlOf(urls).None? <==> urls == []
    ensures (if IndexUrlOf(urls).Some? then [IndexUrlOf(urls).value] else []) + ExtraIndexUrlsOf(urls) == urls
    ensures |urls| <= 1 ==> ExtraIndexUrlsOf(urls) == []
  {
    if |urls| == 1 {
      assert [urls[0]] == urls;
    } else if |urls| > 1 {
      assert [urls[0]] + urls[1..] == urls;
    }
  }

  /** The nested file objects `parse_nested_files` returns. */
  datatype NestedObjects = NestedObjects(cfiles: seq<RequirementFile>, rfiles: seq<RequirementFile>)

  /** What `parse` returns: requirements, index URLs, nested constraint and requirement files. */
  datatype Parsed = Parsed(
    requirements: seq<Ireq>,
    indexUrls: seq<string>,
    cfiles: seq<RequirementFile>,
    rfiles: seq<RequirementFile>)

  /** The object's own attributes match a loaded value. */
  ghost predicate Shows(rf: RequirementFile, v: Loaded)
    reads rf
  {
    rf.filename == v.path && rf.requirements == v.requirements && rf.indexUrls == v.indexUrls &&
    |rf.nestedCfiles| == |v.cfiles| && |rf.nestedRfiles| == |v.rfiles|
  }

  ghost predicate ShowsAll(fs: seq<RequirementFile>, vs: seq<Loaded>)
    reads set f | f in fs
  {
    |fs| == |vs| && forall i :: 0 <= i < |fs| ==> Shows(fs[i], vs[i])
  }

  lemma ShowsAllAppend(fs: seq<RequirementFile>, vs: seq<Loaded>, f: RequirementFile, v: Loaded)
    requires ShowsAll(fs, vs) && Shows(f, v)
    ensures ShowsAll(fs + [f], vs + [v])
  {
  }

  /** Both lists of file objects match the loaded values. */
  ghost predicate ShowsNested(objs: NestedObjects, vals: Nested)
    reads set f | f in objs.cfiles, set f | f in objs.rfiles
  {
    ShowsAll(objs.cfiles, vals.cfiles) && ShowsAll(objs.rfiles, vals.rfiles)
  }

  /** The object and its nested file objects match a loaded value. */
  ghost predicate Mirrors(rf: RequirementFile, v: Loaded)
    reads rf, set f | f in rf.nestedCfiles, set f | f in rf.nestedRfiles
  {
    Shows(rf, v) && ShowsAll(rf.nestedCfiles, v.cfiles) && ShowsAll(rf.nestedRfiles, v.rfiles)
  }

  class RequirementFile {
    const filename: string
    var requirements: seq<Ireq>
    var indexUrls: seq<string>
    var nestedCfiles: seq<RequirementFile>
    var nestedRfiles: seq<RequirementFile>
    /** The attribute `parse` sets from its first call to `parse_nested_files`; None before any parse. */
    var nestedFiles: Option<NestedObjects>

    /** The attribute defaults of `__init__`: absent or empty arguments give empty sets. */
    constructor (filename: string, requirements: Option<seq<Ireq>>, nestedCfiles: Option<seq<RequirementFile>>,
                 nestedRfiles: Option<seq<RequirementFile>>, indexUrls: Option<seq<string>>)
      ensures this.filename == filename
      ensures this.requirements == (if requirements.Some? then requirements.value else [])
      ensures this.indexUrls == Dedup(if indexUrls.Some? then indexUrls.value else [])
      ensures this.nestedCfiles == (if nestedCfiles.Some? then nestedCfiles.value else [])
      ensures this.nestedRfiles == (if nestedRfiles.Some? then nestedRfiles.value else [])
      ensures this.nestedFiles.None?
    {
      this.filename := filename;
      this.requirements := if requirements.Some? then requirements.value else [];
      this.indexUrls := Dedup(if indexUrls.Some? then indexUrls.value else []);
      this.nestedCfiles := if nestedCfiles.Some? then nestedCfiles.value else [];
      this.nestedRfiles := if nestedRfiles.Some? then nestedRfiles.value else [];
      this.nestedFiles := None;
    }

    /** The `index_url` property. */
    function IndexUrl(): (r: Option<string>)
      reads this
      ensures r.None? <==> indexUrls == []
      ensures r.Some? ==> r.value == indexUrls[0]
    {
      IndexUrlOf(indexUrls)
    }

    /** The `extra_index_urls` property. */
    function ExtraIndexUrls(): (r: seq<string>)
      reads this
      ensures (if IndexUrl().Some? then [IndexUrl().value] else []) + r == indexUrls
      ensures |indexUrls| <= 1 ==> r == []
    {
      IndexUrlViewsPartition(indexUrls);
      ExtraIndexUrlsOf(indexUrls)
    }

    /**
     * Opens one nested file and adds its object to the constraint or the
     * requirement files, as the include's kind says.
     */
    static method OpenInclude(env: Env, disk: Disk, inc: Include, budget: nat, objs: NestedObjects, ghost got: Nested)
      returns (r: Result<NestedObjects, Error>)
      requires ShowsNested(objs, got)
      ensures r.Failure? <==> LoadFile(env, disk, inc.path, budget).Failure?
      ensures r.Failure? ==> r.error == LoadFile(env, disk, inc.path, budget).error
      ensures r.Success? ==> ShowsNested(r.value, Grown(got, inc, LoadFile(env, disk, inc.path, budget).value))
      ensures r.Success? ==> forall f :: f in r.value.cfiles + r.value.rfiles ==> f in objs.cfiles + objs.rfiles || fresh(f)
      decreases budget, 5
    {
      var nested := Open(env, disk, inc.path, budget);
      if nested.Failure? {
        return Failure(nested.error);
      }
      ghost var l := LoadFile(env, disk, inc.path, budget).value;
      if inc.Rfile? {
        ShowsAllAppend(objs.rfiles, got.rfiles, nested.value, l);
        r := Success(NestedObjects(objs.cfiles, objs.rfiles + [nested.value]));
      } else {
        ShowsAllAppend(objs.cfiles, got.cfiles, nested.value, l);
        r := Success(NestedObjects(objs.cfiles + [nested.value], objs.rfiles));
      }
    }

    /**
     * `RequirementFile(filename)`: the defaults, then a reload when the path
     * exists. Its result mirrors `LoadFile`, and its nested file objects are
     * new.
     */
    static method Open(env: Env, disk: Disk, filename: string, budget: nat) returns (r: Result<RequirementFile, Error>)
      ensures r.Failure? <==> LoadFile(env, disk, filename, budget).Failure?
      ensures r.Failure? ==> r.error == LoadFile(env, disk, filename, budget).error
      ensures r.Success? ==> fresh(r.value) && Mirrors(r.value, LoadFile(env, disk, filename, budget).value)
      ensures r.Success? ==> forall f :: f in r.value.nestedCfiles + r.value.nestedRfiles ==> fresh(f)
      decreases budget, 4
    {
      var rf := new RequirementFile(filename, None, None, None, None);
      if Exists(disk, filename) {
        var err := rf.Reload(env, disk, budget);
        if err.Some? {
          return Failure(err.value);
        }
      }
      return Success(rf);
    }

    /** `reload`: replaces the requirements, index URLs and both nested sets with what `parse` returns. */
    method Reload(env: Env, disk: Disk, budget: nat) returns (err: Option<Error>)
      modifies this
      ensures err.None? <==> ParseFile(env, disk, filename, budget).Success?
      ensures err.Some? ==> err.value == ParseFile(env, disk, filename, budget).error
      ensures err.Some? ==> (requirements == old(requirements) && indexUrls == old(indexUrls) &&
                             nestedCfiles == old(nestedCfiles) && nestedRfiles == old(nestedRfiles) &&
                             nestedFiles == old(nestedFiles))
      ensures err.None? ==> Mirrors(this, ParseFile(env, disk, filename, budget).value)
      ensures err.None? ==> nestedFiles.Some? && ShowsNested(nestedFiles.value, NestedOf(env, disk, filename, budget).value)
      ensures err.None? ==> forall f :: f in nestedCfiles + nestedRfiles ==> fresh(f)
      decreases budget, 3
    {
      var parsed := Parse(env, disk, budget);
      if parsed.Failure? {
        return Some(parsed.error);
      }
      ghost var v := ParseFile(env, disk, filename, budget).value;
      assert v.path == filename;
      ghost var recorded, n := nestedFiles.value, NestedOf(env, disk, filename, budget).value;
      assert ShowsNested(recorded, n);
      assert this !in recorded.cfiles && this !in recorded.rfiles by {
        assert forall f :: f in recorded.cfiles ==> f in recorded.cfiles + recorded.rfiles;
        assert forall f :: f in recorded.rfiles ==> f in recorded.cfiles + recorded.rfiles;
      }
      assert forall f :: f in parsed.value.cfiles ==> f in parsed.value.cfiles + parsed.value.rfiles;
      assert forall f :: f in parsed.value.rfiles ==> f in parsed.value.cfiles + parsed.value.rfiles;
      Adopt(parsed.value, v, recorded, n);
      return None;
    }

    /** The four assignments of `reload`, and the view of the object they leave. */
    method Adopt(parsed: Parsed, ghost v: Loaded, ghost recorded: NestedObjects, ghost n: Nested)
      modifies this`requirements, this`indexUrls, this`nestedCfiles, this`nestedRfiles
      requires v.path == filename && parsed.requirements == v.requirements && parsed.indexUrls == v.indexUrls
      requires ShowsAll(parsed.cfiles, v.cfiles) && ShowsAll(parsed.rfiles, v.rfiles)
      requires this !in parsed.cfiles && this !in parsed.rfiles
      requires ShowsNested(recorded, n) && this !in recorded.cfiles && this !in recorded.rfiles
      ensures requirements == parsed.requirements && indexUrls == parsed.indexUrls
      ensures nestedCfiles == parsed.cfiles && nestedRfiles == parsed.rfiles
      ensures Mirrors(this, v)
      ensures ShowsNested(recorded, n)
    {
      assert this !in set f | f in recorded.cfiles && this !in set f | f in recorded.rfiles;
      assert this !in set f | f in parsed.cfiles && this !in set f | f in parsed.rfiles;
      requirements, indexUrls, nestedCfiles, nestedRfiles :=
        parsed.requirements, parsed.indexUrls, parsed.cfiles, parsed.rfiles;
    }

    /** `parse`: records the nested files, reads pip's view of the file, then subtracts nested requirements. */
    method Parse(env: Env, disk: Disk, budget: nat) returns (r: Result<Parsed, Error>)
      modifies this`nestedFiles
      ensures r.Failure? <==> ParseFile(env, disk, filename, budget).Failure?
      ensures r.Failure? ==> r.error == ParseFile(env, disk, filename, budget).error
      ensures r.Success? ==>
        var v := ParseFile(env, disk, filename, budget).value;
        r.value.requirements == v.requirements && r.value.indexUrls == v.indexUrls &&
        ShowsAll(r.value.cfiles, v.cfiles) && ShowsAll(r.value.rfiles, v.rfiles) &&
        forall f :: f in r.value.cfiles + r.value.rfiles ==> fresh(f)
      ensures r.Failure? ==> nestedFiles == old(nestedFiles)
      ensures r.Success? ==> nestedFiles.Some? && ShowsNested(nestedFiles.value, NestedOf(env, disk, filename, budget).value)
      ensures r.Success? ==> forall f :: f in nestedFiles.value.cfiles + nestedFiles.value.rfiles ==> fresh(f)
      decreases budget, 2
    {
      var first := ParseNestedFiles(env, disk, budget);
      if first.Failure? {
        return Failure(first.error);
      }
      ghost var n := NestedOf(env, disk, filename, budget).value;
      Record(first.value, n);
      var parsed := ParseAfterNested(env, disk, budget);
      assert ShowsNested(first.value, n);
      return Success(parsed);
    }

    /** The assignment of `nested_files` in `parse`. */
    method Record(objs: NestedObjects, ghost n: Nested)
      modifies this`nestedFiles
      requires ShowsNested(objs, n)
      ensures nestedFiles == Some(objs) && ShowsNested(objs, n)
    {
      nestedFiles := Some(objs);
    }

    /**
     * The rest of `parse`, once the first `parse_nested_files` call has
     * succeeded: pip's view of the file, minus the requirements of the
     * nested requirement files of a second call.
     */
    method ParseAfterNested(env: Env, disk: Disk, budget: nat) returns (parsed: Parsed)
      requires NestedOf(env, disk, filename, budget).Success?
      ensures ParseFile(env, disk, filename, budget).Success?
      ensures var v := ParseFile(env, disk, filename, budget).value;
        parsed.requirements == v.requirements && parsed.indexUrls == v.indexUrls &&
        ShowsAll(parsed.cfiles, v.cfiles) && ShowsAll(parsed.rfiles, v.rfiles) &&
        forall f :: f in parsed.cfiles + parsed.rfiles ==> fresh(f)
      decreases budget, 2, 0
    {
      var pip := env.pipParse(disk, filename);
      var requirements := OrderedFrom(env, SortBy(Hashables(pip.requirements), StrKey(env)));
      var indexUrls := Dedup(pip.indexUrls);
      var second := ParseNestedFiles(env, disk, budget);
      assert second.Success?;
      ghost var rvals := NestedOf(env, disk, filename, budget).value.rfiles;
      var nestedRequirements := [];
      for i := 0 to |second.value.rfiles|
        invariant nestedRequirements == NestedRequirements(rvals[..i])
      {
        assert rvals[..i + 1][..i] == rvals[..i];
        nestedRequirements := nestedRequirements + second.value.rfiles[i].requirements;
      }
      assert rvals[..|rvals|] == rvals;
      requirements := Subtract(env, requirements, nestedRequirements);
      return Parsed(requirements, indexUrls, second.value.cfiles, second.value.rfiles);
    }

    /** `parse_nested_files`, each line's options parsed on their own (see `IncludesAsWritten`). */
    method ParseNestedFiles(env: Env, disk: Disk, budget: nat) returns (r: Result<NestedObjects, Error>)
      ensures r.Failure? <==> NestedOf(env, disk, filename, budget).Failure?
      ensures r.Failure? ==> r.error == NestedOf(env, disk, filename, budget).error
      ensures r.Success? ==>
        ShowsAll(r.value.cfiles, NestedOf(env, disk, filename, budget).value.cfiles) &&
        ShowsAll(r.value.rfiles, NestedOf(env, disk, filename, budget).value.rfiles) &&
        forall f :: f in r.value.cfiles + r.value.rfiles ==> fresh(f)
      decreases budget, 1
    {
      if filename !in disk.files {
        return Failure(IOError);
      }
      var lines := SplitLines(disk.files[filename]);
      var dir := env.parent(filename);
      var objs := NestedObjects([], []);
      ghost var got := Nested([], []);
      ghost var whole := LoadIncludes(env, disk, Includes(env, dir, lines), budget);
      assert lines[0..] == lines;
      GlueNothing(whole);
      for i := 0 to |lines|
        invariant ShowsNested(objs, got)
        invariant forall f :: f in objs.cfiles + objs.rfiles ==> fresh(f)
        invariant whole == Glue(got, LoadIncludes(env, disk, Includes(env, dir, lines[i..]), budget))
      {
        var step, next := IncludeLine(env, disk, dir, lines, i, budget, objs, got, whole);
        if step.Failure? {
          return Failure(step.error);
        }
        objs, got := step.value, next;
      }
      assert lines[|lines|..] == [];
      return Success(objs);
    }

    /**
     * One line of `parse_nested_files`: a comment, or a line naming no
     * requirement or constraint file, adds nothing; otherwise the first file
     * it names is opened, relative to the including file's directory, and
     * added to the list of its kind.
     */
    static method IncludeLine(env: Env, disk: Disk, dir: string, lines: seq<string>, i: nat, budget: nat,
                              objs: NestedObjects, ghost got: Nested, ghost whole: Result<Nested, Error>)
      returns (r: Result<NestedObjects, Error>, ghost next: Nested)
      requires i < |lines| && ShowsNested(objs, got)
      requires whole == Glue(got, LoadIncludes(env, disk, Includes(env, dir, lines[i..]), budget))
      ensures r.Failure? ==> whole == Failure(r.error)
      ensures r.Success? ==>
        ShowsNested(r.value, next) && whole == Glue(next, LoadIncludes(env, disk, Includes(env, dir, lines[i + 1..]), budget))
      ensures r.Success? ==> forall f :: f in r.value.cfiles + r.value.rfiles ==> f in objs.cfiles + objs.rfiles || fresh(f)
      decreases budget, 0
    {
      var line := lines[i];
      if StartsWith(line, "#") {
        SkipLine(env, disk, dir, lines, i, got, budget, whole);
        return Success(objs), got;
      }
      var opts := env.lineOptions(line);
      if opts.requirements == [] && opts.constraints == [] {
        SkipLine(env, disk, dir, lines, i, got, budget, whole);
        return Success(objs), got;
      }
      var path := if opts.requirements != [] then env.join(dir, opts.requirements[0])
                  else env.join(dir, opts.constraints[0]);
      var inc := if opts.requirements != [] then Rfile(path) else Cfile(path);
      assert Classify(env, dir, line) == Some(inc);
      if budget == 0 {
        FailLine(env, disk, dir, lines, i, inc, got, budget, whole);
        return Failure(RecursionError), got;
      }
      r := OpenInclude(env, disk, inc, budget - 1, objs, got);
      if r.Failure? {
        FailLine(env, disk, dir, lines, i, inc, got, budget, whole);
        return r, got;
      }
      TakeLine(env, disk, dir, lines, i, inc, got, budget, whole);
      next := Grown(got, inc, LoadFile(env, disk, inc.path, budget - 1).value);
    }
  }
}
